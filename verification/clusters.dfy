/** `annotateQuestionClusters` (src/data/loaders.js): questions sharing an
    abstraction cluster id form a group; each question learns its group's id,
    label and size and the ids of the other members, and groups of at least
    three are marked as highly relevant. */
module Clusters {
  import opened Wrappers
  import opened Js
  import opened Questions
  import Seqs

  /** `largeClusterThreshold`. */
  const LargeClusterThreshold: nat := 3

  /** `String(q.abstractionClusterId)` when the id is not `null`. */
  function ClusterKey(e: Engine, q: Question): (r: Option<string>)
    ensures r.Some? <==> q.abstractionClusterId.Some?
  {
    if q.abstractionClusterId.None? then None else Some(e.formatNumber(q.abstractionClusterId.value))
  }

  /** The second loop only looks a group up for a truthy key. */
  predicate Clustered(e: Engine, q: Question) {
    ClusterKey(e, q).Some? && ClusterKey(e, q).value != ""
  }

  /** Whether a question belongs to the group of `key`. */
  function HasKey(e: Engine, key: string): Question -> bool {
    (q: Question) => ClusterKey(e, q) == Some(key)
  }

  /** `r` lists the ids of the questions of `qs` that `p` selects, in
      order: the id of a selected question at position `i` sits behind
      the ids of the selected questions before it. */
  ghost predicate IdsInOrder(r: seq<string>, qs: seq<Question>, p: Question -> bool) {
    && |r| == Seqs.CountWhere(qs, p)
    && forall i :: 0 <= i < |qs| && p(qs[i]) ==>
         Seqs.CountWhere(qs[..i], p) < |r| && r[Seqs.CountWhere(qs[..i], p)] == qs[i].id
  }

  /** `clusterMap.get(key).ids`: one id pushed per question with that key,
      in order, duplicates included; so its length is the number of such
      questions. */
  function GroupIds(e: Engine, qs: seq<Question>, key: string): (r: seq<string>)
    ensures IdsInOrder(r, qs, HasKey(e, key))
    ensures forall id :: id in r <==> exists j :: 0 <= j < |qs| && ClusterKey(e, qs[j]) == Some(key) && qs[j].id == id
  {
    if |qs| == 0 then []
    else
      var rest := GroupIds(e, qs[1..], key);
      var r := (if ClusterKey(e, qs[0]) == Some(key) then [qs[0].id] else []) + rest;
      assert forall j :: 1 <= j < |qs| ==> qs[1..][j - 1] == qs[j];
      GroupIdsStep(e, qs, key, rest, r);
      r
  }

  lemma GroupIdsStep(e: Engine, qs: seq<Question>, key: string, rest: seq<string>, r: seq<string>)
    requires |qs| > 0 && IdsInOrder(rest, qs[1..], HasKey(e, key))
    requires r == (if ClusterKey(e, qs[0]) == Some(key) then [qs[0].id] else []) + rest
    ensures IdsInOrder(r, qs, HasKey(e, key))
  {
    var p := HasKey(e, key);
    forall i | 0 <= i < |qs| && p(qs[i])
      ensures Seqs.CountWhere(qs[..i], p) < |r| && r[Seqs.CountWhere(qs[..i], p)] == qs[i].id
    {
      if i == 0 {
        assert qs[..0] == [];
      } else {
        assert qs[..i][1..] == qs[1..][..i - 1];
        assert qs[1..][i - 1] == qs[i];
      }
    }
  }

  /** A question's own id is in its group. */
  lemma OwnIdInGroup(e: Engine, qs: seq<Question>, i: nat)
    requires i < |qs| && ClusterKey(e, qs[i]).Some?
    ensures qs[i].id in GroupIds(e, qs, ClusterKey(e, qs[i]).value)
  {
  }

  /** `id => id !== qid`. */
  function OtherThan(qid: string): string -> bool {
    (id: string) => id != qid
  }

  /** The fields written for `q` when `qs` was grouped: a question whose
      key has a group gets that group's id, label and size, the group's
      other ids, and the high-relevance mark exactly for a size of at
      least three. */
  function ClusterOf(e: Engine, qs: seq<Question>, q: Question): (r: ClusterInfo)
    ensures r.isHighRelevanceCluster <==> r.clusterSize >= LargeClusterThreshold
    ensures r.clusterId.None? ==> r.clusterLabel.None? && r.clusterSize == 0 && r.clusterRelatedIds == []
    ensures r.clusterId.Some? ==> Clustered(e, q) && r.clusterId.value == ClusterKey(e, q).value
                                  && r.clusterLabel == Some("Cluster " + r.clusterId.value)
    ensures r.clusterId.Some? <==>
              Clustered(e, q) && Seqs.CountWhere(qs, HasKey(e, ClusterKey(e, q).value)) > 0
    ensures r.clusterId.Some? ==> r.clusterSize == Seqs.CountWhere(qs, HasKey(e, r.clusterId.value))
    ensures r.clusterId.Some? ==>
              r.clusterRelatedIds == Seqs.Filter(GroupIds(e, qs, r.clusterId.value), OtherThan(q.id))
    ensures q.id !in r.clusterRelatedIds
  {
    if !Clustered(e, q) then ClusterInfo(None, None, 0, [], false)
    else
      var key := ClusterKey(e, q).value;
      var ids := GroupIds(e, qs, key);
      if |ids| == 0 then ClusterInfo(None, None, 0, [], false)
      else
        var related := Seqs.Filter(ids, OtherThan(q.id));
        ClusterInfo(Some(key), Some("Cluster " + key), |ids|, related, |ids| >= LargeClusterThreshold)
  }

  /** Every question with its cluster fields set; nothing else changes. */
  function AnnotateQuestionClusters(e: Engine, qs: seq<Question>): (r: seq<Question>)
    ensures |r| == |qs| && Ids(r) == Ids(qs)
    ensures forall i :: 0 <= i < |qs| ==> r[i] == qs[i].(cluster := Some(ClusterOf(e, qs, qs[i])))
  {
    var r := seq(|qs|, i requires 0 <= i < |qs| => qs[i].(cluster := Some(ClusterOf(e, qs, qs[i]))));
    assert Ids(r) == Ids(qs);
    r
  }

  /** Two questions of one cluster list each other as related (unless
      they share an id) and see the same size, which counts both. */
  lemma {:induction false} SameClusterRelated(e: Engine, qs: seq<Question>, i: nat, j: nat)
    requires i < |qs| && j < |qs|
    requires Clustered(e, qs[i]) && ClusterKey(e, qs[j]) == ClusterKey(e, qs[i])
    ensures var a := AnnotateQuestionClusters(e, qs);
      && a[i].cluster.value.clusterId == Some(ClusterKey(e, qs[i]).value)
      && a[i].cluster.value.clusterSize == a[j].cluster.value.clusterSize >= 1
      && (qs[j].id != qs[i].id ==> qs[j].id in a[i].cluster.value.clusterRelatedIds)
  {
    var key := ClusterKey(e, qs[i]).value;
    OwnIdInGroup(e, qs, i);
    OwnIdInGroup(e, qs, j);
    var ids := GroupIds(e, qs, key);
    assert qs[j].id in ids;
  }

  /** Every related id belongs to a question of the same cluster. */
  lemma RelatedAreClusterMates(e: Engine, qs: seq<Question>, i: nat, id: string)
    requires i < |qs|
    requires id in AnnotateQuestionClusters(e, qs)[i].cluster.value.clusterRelatedIds
    ensures exists j :: 0 <= j < |qs| && ClusterKey(e, qs[j]) == ClusterKey(e, qs[i]) && qs[j].id == id && id != qs[i].id
  {
  }

  /** A question without a cluster id gets no cluster, size 0 and no
      related ids; a clustered one gets as its size the number of
      questions sharing its key, between 1 and the number of questions,
      and is highly relevant exactly when that number is at least three. */
  lemma ClusterSizeIsGroupCount(e: Engine, qs: seq<Question>, i: nat)
    requires i < |qs|
    ensures var c := AnnotateQuestionClusters(e, qs)[i].cluster.value;
      && (qs[i].abstractionClusterId.None? ==> c.clusterId.None? && c.clusterSize == 0 && c.clusterRelatedIds == [])
      && (Clustered(e, qs[i]) ==>
            var n := Seqs.CountWhere(qs, HasKey(e, ClusterKey(e, qs[i]).value));
            && c.clusterSize == n && 1 <= n <= |qs|
            && (c.isHighRelevanceCluster <==> n >= LargeClusterThreshold))
  {
    if Clustered(e, qs[i]) {
      var p := HasKey(e, ClusterKey(e, qs[i]).value);
      Seqs.CountWherePositive(qs, p);
      Seqs.CountWhereMono(qs, p, p);
      assert qs[i] in qs && p(qs[i]);
    }
  }

  /** Three questions at different positions sharing one cluster id make
      that cluster highly relevant for each of them. */
  lemma ThreeMakeHighRelevance(e: Engine, qs: seq<Question>, i: nat, j: nat, k: nat)
    requires i < j < k < |qs|
    requires Clustered(e, qs[i]) && ClusterKey(e, qs[j]) == ClusterKey(e, qs[i]) && ClusterKey(e, qs[k]) == ClusterKey(e, qs[i])
    ensures AnnotateQuestionClusters(e, qs)[i].cluster.value.isHighRelevanceCluster
  {
    var p := HasKey(e, ClusterKey(e, qs[i]).value);
    CountBefore(qs, p, i, j);
    CountBefore(qs, p, j, k);
    CountBefore(qs, p, k, |qs|);
    ClusterSizeIsGroupCount(e, qs, i);
  }

  /** A selected element at `i` adds one to the count of any longer prefix. */
  lemma CountBefore(qs: seq<Question>, p: Question -> bool, i: nat, j: nat)
    requires i < j <= |qs| && p(qs[i])
    ensures Seqs.CountWhere(qs[..i], p) + 1 <= Seqs.CountWhere(qs[..j], p)
  {
    assert qs[..j] == qs[..i] + [qs[i]] + qs[i + 1..j];
    Seqs.CountWhereConcat(qs[..i] + [qs[i]], qs[i + 1..j], p);
    Seqs.CountWhereAppend(qs[..i], qs[i], p);
  }
}
