/** Pure helpers of `src/utils.js`: white-space normalisation, answer
    letters, the 32-bit FNV-1a hash, the mulberry32 generator's integer core,
    the Fisher-Yates shuffle and sampling. */
module Utils {
  import opened Js
  import Seqs

  // ---------------------------------------------------------------------
  // normSpace

  /** A string in the form `normSpace` produces: no white space at either
      end, no two adjacent white-space characters, and every white-space
      character a plain space. */
  ghost predicate IsNormalized(s: string) {
    && (|s| > 0 ==> !IsSpace(s[0]) && !IsSpace(s[|s| - 1]))
    && PlainSpaces(s)
    && SingleSpaced(s)
  }

  /** No two white-space characters of `s` are adjacent. */
  predicate SingleSpaced(s: string) {
    forall i :: 0 <= i < |s| - 1 ==> !(IsSpace(s[i]) && IsSpace(s[i + 1]))
  }

  /** Every white-space character of `s` is a plain space. */
  predicate PlainSpaces(s: string) {
    forall i :: 0 <= i < |s| && IsSpace(s[i]) ==> s[i] == ' '
  }

  lemma PlainSpacesConcat(a: string, b: string)
    requires PlainSpaces(a) && PlainSpaces(b)
    ensures PlainSpaces(a + b)
  {
    forall i | 0 <= i < |a + b| && IsSpace((a + b)[i]) ensures (a + b)[i] == ' ' {
      if i < |a| {
        assert (a + b)[i] == a[i];
      } else {
        assert (a + b)[i] == b[i - |a|];
      }
    }
  }

  /** The non-white-space characters of `s`, in order. */
  function NonSpace(s: string): string {
    if |s| == 0 then ""
    else (if IsSpace(s[0]) then "" else [s[0]]) + NonSpace(s[1..])
  }

  /** `s.replace(/\s+/g, " ")`: every maximal run of white space becomes one
      space. */
  function CollapseSpace(s: string): string
    decreases |s|
  {
    if |s| == 0 then ""
    else if IsSpace(s[0]) then
      assert TrimStart(s) == TrimStart(s[1..]);
      " " + CollapseSpace(TrimStart(s))
    else [s[0]] + CollapseSpace(s[1..])
  }

  /** `normSpace(s)`: runs of white space collapsed to one space, then
      trimmed. The result is the words of `s` joined by single spaces; it is
      in normal form and keeps every non-white-space character of the input,
      in order. */
  function NormSpace(s: string): (r: string)
    ensures IsNormalized(r)
    ensures NonSpace(r) == NonSpace(s)
  {
    CollapseFacts(s);
    TrimKeeps(CollapseSpace(s));
    Trim(CollapseSpace(s))
  }

  /** `normSpace(s)` is exactly the words of `s` joined by single spaces:
      every run of white space between two words becomes one space, and
      none is left at either end. */
  lemma NormSpaceIsJoinedWords(s: string)
    ensures NormSpace(s) == Seqs.Join(" ", Words(s))
  {
    NormSpaceJoinsWords(s);
  }

  // ---------------------------------------------------------------------
  // The reference reading of normSpace: split and join

  /** The longest prefix of `s` without white space. */
  function Token(s: string): (w: string)
    ensures |w| <= |s| && w == s[..|w|]
    ensures forall i :: 0 <= i < |w| ==> !IsSpace(w[i])
    ensures |w| < |s| ==> IsSpace(s[|w|])
    ensures |s| > 0 && !IsSpace(s[0]) ==> |w| > 0
  {
    if |s| == 0 || IsSpace(s[0]) then "" else [s[0]] + Token(s[1..])
  }

  /** A word: a non-empty string without white space. */
  predicate IsWord(w: string) {
    |w| > 0 && forall i :: 0 <= i < |w| ==> !IsSpace(w[i])
  }

  /** `s.split(/\s+/)`: the pieces between the maximal white-space runs,
      with an empty first (last) piece when `s` starts (ends) with white
      space. */
  function Split(s: string): (ps: seq<string>)
    ensures |ps| > 0
    decreases |s|
  {
    var w := Token(s);
    var rest := s[|w|..];
    if |rest| == 0 then [w]
    else
      TrimStartShorter(rest);
      [w] + Split(TrimStart(rest))
  }

  /** The words of `s`, in order: its maximal runs of characters other than
      white space. */
  function Words(s: string): (ws: seq<string>)
    ensures forall k :: 0 <= k < |ws| ==> IsWord(ws[k])
    decreases |s|
  {
    var t := TrimStart(s);
    if |t| == 0 then []
    else
      var w := Token(t);
      [w] + Words(t[|w|..])
  }

  /** Collapsing passes a leading word through unchanged. */
  lemma {:induction false} CollapseToken(t: string)
    ensures CollapseSpace(t) == Token(t) + CollapseSpace(t[|Token(t)|..])
    decreases |t|
  {
    if |t| > 0 && !IsSpace(t[0]) {
      CollapseToken(t[1..]);
      assert t[|Token(t)|..] == t[1..][|Token(t[1..])|..];
    } else {
      assert t[|Token(t)|..] == t;
    }
  }

  /** `s.replace(/\s+/g, " ")` is `s.split(/\s+/).join(" ")`. */
  lemma {:induction false} CollapseSplit(s: string)
    ensures CollapseSpace(s) == Seqs.Join(" ", Split(s))
    decreases |s|
  {
    var w := Token(s);
    var rest := s[|w|..];
    CollapseToken(s);
    if |rest| > 0 {
      var t := TrimStart(rest);
      TrimStartShorter(rest);
      CollapseSplit(t);
      CollapseSplitStep(s, w, rest, t);
    }
  }

  /** One step of `CollapseSplit`: a word, a white-space run, and the rest. */
  lemma CollapseSplitStep(s: string, w: string, rest: string, t: string)
    requires w == Token(s) && rest == s[|w|..] && |rest| > 0 && t == TrimStart(rest)
    requires CollapseSpace(s) == w + CollapseSpace(rest)
    requires CollapseSpace(t) == Seqs.Join(" ", Split(t))
    ensures CollapseSpace(s) == Seqs.Join(" ", Split(s))
  {
    CollapseLead(rest);
    SplitStep(s);
    JoinCons(w, Split(t));
    Assoc(w, " ", CollapseSpace(t));
  }

  lemma Assoc(a: string, b: string, c: string)
    ensures a + (b + c) == a + b + c
  {
  }

  /** A white-space run collapses to one space in front of the rest. */
  lemma CollapseLead(rest: string)
    requires |rest| > 0 && IsSpace(rest[0])
    ensures CollapseSpace(rest) == " " + CollapseSpace(TrimStart(rest))
  {
  }

  /** Splitting after a word followed by white space. */
  lemma SplitStep(s: string)
    requires |s[|Token(s)|..]| > 0
    ensures Split(s) == [Token(s)] + Split(TrimStart(s[|Token(s)|..]))
  {
  }

  /** Trimming the end of a concatenation: the end of the second part
      decides unless it is all white space. */
  lemma {:induction false} TrimEndConcat(a: string, b: string)
    ensures TrimEnd(b) == "" ==> TrimEnd(a + b) == TrimEnd(a)
    ensures TrimEnd(b) != "" ==> TrimEnd(a + b) == a + TrimEnd(b)
    decreases |b|
  {
    if |b| == 0 {
      assert a + b == a;
    } else if IsSpace(b[|b| - 1]) {
      var b' := b[..|b| - 1];
      TrimEndConcat(a, b');
      assert (a + b)[..|a + b| - 1] == a + b';
    }
  }

  /** The words of a string joined by single spaces are empty exactly when
      there are none. */
  lemma JoinWordsEmpty(ws: seq<string>)
    requires forall k :: 0 <= k < |ws| ==> IsWord(ws[k])
    ensures Seqs.Join(" ", ws) == "" <==> |ws| == 0
  {
    if |ws| > 1 {
      assert |Seqs.Join(" ", ws)| >= |ws[0]|;
    } else if |ws| == 1 {
      assert IsWord(ws[0]);
    }
  }

  /** Text starting with white space loses at least one character to
      `trimStart`. */
  lemma TrimStartShorter(s: string)
    requires |s| > 0 && IsSpace(s[0])
    ensures |TrimStart(s)| < |s|
  {
    assert TrimStart(s) == TrimStart(s[1..]);
  }

  /** Collapsing the white space of `s` after its leading white space, then
      trimming the end, joins the words of `s` with single spaces. */
  lemma {:induction false} TrimEndCollapse(s: string)
    ensures TrimEnd(CollapseSpace(TrimStart(s))) == Seqs.Join(" ", Words(s))
    decreases |s|
  {
    var t := TrimStart(s);
    if |t| > 0 {
      var w := Token(t);
      var rest := t[|w|..];
      CollapseToken(t);
      assert Words(s) == [w] + Words(rest);
      if |rest| == 0 {
        assert TrimEnd(w) == w;
        assert TrimStart(rest) == rest;
        assert Words(s) == [w];
      } else {
        TrimEndCollapse(rest);
        TrimEndWordThen(w, rest);
      }
    }
  }

  /** One step of `TrimEndCollapse`: a word followed by white space and
      more text. */
  lemma TrimEndWordThen(w: string, rest: string)
    requires IsWord(w) && |rest| > 0 && IsSpace(rest[0])
    requires TrimEnd(CollapseSpace(TrimStart(rest))) == Seqs.Join(" ", Words(rest))
    ensures TrimEnd(w + CollapseSpace(rest)) == Seqs.Join(" ", [w] + Words(rest))
  {
    var x := CollapseSpace(TrimStart(rest));
    assert CollapseSpace(rest) == " " + x;
    JoinWordsEmpty(Words(rest));
    if |Words(rest)| == 0 {
      TrimEndWordSpaces(w, x);
    } else {
      TrimEndWordWords(w, x, Words(rest));
    }
  }

  lemma TrimEndWordSpaces(w: string, x: string)
    requires IsWord(w) && TrimEnd(x) == ""
    ensures TrimEnd(w + (" " + x)) == w
  {
    assert w + (" " + x) == (w + " ") + x;
    TrimEndConcat(w + " ", x);
    TrimEndConcat(w, " ");
    assert TrimEnd(" ") == TrimEnd([]);
    assert TrimEnd(w) == w;
  }

  lemma TrimEndWordWords(w: string, x: string, ws: seq<string>)
    requires |ws| > 0 && TrimEnd(x) == Seqs.Join(" ", ws) != ""
    ensures TrimEnd(w + (" " + x)) == Seqs.Join(" ", [w] + ws)
  {
    TrimEndSplice(w, x);
    JoinCons(w, ws);
  }

  /** Text whose end is not all white space keeps what precedes it. */
  lemma TrimEndSplice(w: string, x: string)
    requires TrimEnd(x) != ""
    ensures TrimEnd(w + (" " + x)) == w + " " + TrimEnd(x)
  {
    TrimEndConcat(w + " ", x);
    assert w + (" " + x) == (w + " ") + x;
  }

  lemma JoinCons(w: string, ws: seq<string>)
    requires |ws| > 0
    ensures Seqs.Join(" ", [w] + ws) == w + " " + Seqs.Join(" ", ws)
  {
    assert ([w] + ws)[1..] == ws;
  }

  /** Collapsing never leaves white space in front unless the input had
      some, and trimming the front commutes with it. */
  lemma TrimStartCollapse(s: string)
    ensures TrimStart(CollapseSpace(s)) == CollapseSpace(TrimStart(s))
  {
    CollapseSingle(TrimStart(s));
    var y := CollapseSpace(TrimStart(s));
    assert |y| > 0 ==> !IsSpace(y[0]);
    if |s| > 0 && IsSpace(s[0]) {
      assert TrimStart(s) == TrimStart(s[1..]);
      assert (" " + y)[1..] == y;
    } else {
      CollapseSingle(s);
    }
  }

  /** `normSpace` is the words of `s` joined by single spaces. */
  lemma NormSpaceJoinsWords(s: string)
    ensures Trim(CollapseSpace(s)) == Seqs.Join(" ", Words(s))
  {
    TrimStartCollapse(s);
    TrimEndCollapse(s);
  }

  /** Trimming keeps the non-white-space characters, and it keeps a string
      free of adjacent and non-plain white space. */
  lemma TrimKeeps(c: string)
    ensures NonSpace(Trim(c)) == NonSpace(c)
    ensures PlainSpaces(c) ==> PlainSpaces(Trim(c))
    ensures SingleSpaced(c) ==> SingleSpaced(Trim(c))
  {
    var x := |c| - |TrimStart(c)|;
    var y := x + |Trim(c)|;
    assert Trim(c) == c[x..y];
    TrimStartNonSpace(c);
    TrimEndNonSpace(TrimStart(c));
    SliceSpacing(c, x, y);
  }

  /** A piece of a string keeps its spacing properties. */
  lemma SliceSpacing(c: string, x: nat, y: nat)
    requires x <= y <= |c|
    ensures PlainSpaces(c) ==> PlainSpaces(c[x..y])
    ensures SingleSpaced(c) ==> SingleSpaced(c[x..y])
  {
    assert forall i :: 0 <= i < y - x ==> c[x..y][i] == c[x + i];
  }

  lemma {:induction false} TrimStartNonSpace(s: string)
    ensures NonSpace(TrimStart(s)) == NonSpace(s)
  {
    if |s| > 0 && IsSpace(s[0]) {
      TrimStartNonSpace(s[1..]);
    }
  }

  lemma {:induction false} TrimEndNonSpace(s: string)
    ensures NonSpace(TrimEnd(s)) == NonSpace(s)
  {
    if |s| > 0 && IsSpace(s[|s| - 1]) {
      var p := s[..|s| - 1];
      TrimEndNonSpace(p);
      assert s == p + [s[|s| - 1]];
      NonSpaceConcat(p, [s[|s| - 1]]);
      assert NonSpace([s[|s| - 1]]) == "" + NonSpace([]);
    }
  }

  lemma {:induction false} NonSpaceConcat(a: string, b: string)
    ensures NonSpace(a + b) == NonSpace(a) + NonSpace(b)
  {
    if |a| > 0 {
      NonSpaceConcat(a[1..], b);
      assert (a + b)[1..] == a[1..] + b;
    } else {
      assert a + b == b;
    }
  }

  lemma {:induction false} NonSpaceOfSpaces(s: string)
    requires forall i :: 0 <= i < |s| ==> IsSpace(s[i])
    ensures NonSpace(s) == ""
  {
    if |s| > 0 {
      NonSpaceOfSpaces(s[1..]);
    }
  }

  /** What collapsing guarantees: the pieces between white-space runs
      joined by single spaces, so spaces only, never two in a row, and the
      non-white-space characters kept. */
  lemma CollapseFacts(s: string)
    ensures CollapseSpace(s) == Seqs.Join(" ", Split(s))
    ensures PlainSpaces(CollapseSpace(s))
    ensures SingleSpaced(CollapseSpace(s))
    ensures NonSpace(CollapseSpace(s)) == NonSpace(s)
  {
    CollapseSplit(s);
    CollapsePlain(s);
    CollapseSingle(s);
    CollapseNonSpace(s);
  }

  lemma {:induction false} CollapsePlain(s: string)
    ensures PlainSpaces(CollapseSpace(s))
    decreases |s|
  {
    if |s| > 0 {
      if IsSpace(s[0]) {
        var t := TrimStart(s);
        assert t == TrimStart(s[1..]);
        CollapsePlain(t);
        assert CollapseSpace(s) == " " + CollapseSpace(t);
        PlainSpacesConcat(" ", CollapseSpace(t));
      } else {
        CollapsePlain(s[1..]);
        assert CollapseSpace(s) == [s[0]] + CollapseSpace(s[1..]);
        PlainSpacesConcat([s[0]], CollapseSpace(s[1..]));
      }
    }
  }

  lemma {:induction false} CollapseSingle(s: string)
    ensures |CollapseSpace(s)| > 0 ==> |s| > 0 && (IsSpace(CollapseSpace(s)[0]) <==> IsSpace(s[0]))
    ensures SingleSpaced(CollapseSpace(s))
    decreases |s|
  {
    if |s| > 0 {
      if IsSpace(s[0]) {
        var t := TrimStart(s);
        assert t == TrimStart(s[1..]);
        CollapseSingle(t);
        var c := CollapseSpace(t);
        assert CollapseSpace(s) == " " + c;
        assert |c| > 0 ==> !IsSpace(c[0]);
      } else {
        CollapseSingle(s[1..]);
        var c := CollapseSpace(s[1..]);
        assert CollapseSpace(s) == [s[0]] + c;
      }
    }
  }

  /** Leading white space adds nothing to the non-white-space characters. */
  lemma NonSpaceDropsLeadingSpace(s: string)
    ensures NonSpace(s) == NonSpace(TrimStart(s))
  {
    var t := TrimStart(s);
    var i := |s| - |t|;
    NonSpaceOfSpaces(s[..i]);
    assert s == s[..i] + t;
    NonSpaceConcat(s[..i], t);
  }

  lemma {:induction false} CollapseNonSpace(s: string)
    ensures NonSpace(CollapseSpace(s)) == NonSpace(s)
    decreases |s|
  {
    if |s| > 0 {
      if IsSpace(s[0]) {
        var t := TrimStart(s);
        assert t == TrimStart(s[1..]);
        CollapseNonSpace(t);
        NonSpaceDropsLeadingSpace(s);
        NonSpaceConcat(" ", CollapseSpace(t));
      } else {
        CollapseNonSpace(s[1..]);
        NonSpaceConcat([s[0]], CollapseSpace(s[1..]));
        assert s == [s[0]] + s[1..];
        NonSpaceConcat([s[0]], s[1..]);
      }
    }
  }

  /** Collapsing leaves a string alone when its white space is already single
      plain spaces. */
  lemma {:induction false} CollapseNoop(s: string)
    requires PlainSpaces(s) && SingleSpaced(s)
    ensures CollapseSpace(s) == s
    decreases |s|
  {
    if |s| > 0 {
      CollapseNoop(s[1..]);
      if IsSpace(s[0]) {
        assert TrimStart(s) == s[1..];
      }
    }
  }

  /** `normSpace` is idempotent. */
  lemma NormSpaceIdempotent(s: string)
    ensures NormSpace(NormSpace(s)) == NormSpace(s)
  {
    var r := NormSpace(s);
    CollapseNoop(r);
    TrimNoop(r);
  }

  // ---------------------------------------------------------------------
  // letter

  /** The UTF-16 code unit `String.fromCharCode(65 + i)` produces, which
      reduces its argument modulo 2^16. */
  function LetterUnit(i: int): int {
    (65 + i) % 0x1_0000
  }

  /** Indices whose letter is a Unicode scalar value, i.e. not a lone
      surrogate code unit. */
  predicate IsLetterIndex(i: int) {
    !(0xD800 <= LetterUnit(i) < 0xE000)
  }

  /** `letter(i)`: the answer letter for answer index `i`, `A` for 0. */
  function Letter(i: int): (c: char)
    requires IsLetterIndex(i)
    ensures 0 <= i < 26 ==> 'A' <= c <= 'Z' && c as int - 'A' as int == i
  {
    LetterUnit(i) as char
  }

  /** Distinct answer indices below 26 get distinct letters. */
  lemma LetterInjective(i: int, j: int)
    requires 0 <= i < 26 && 0 <= j < 26
    requires Letter(i) == Letter(j)
    ensures i == j
  {
  }

  // ---------------------------------------------------------------------
  // hash32: FNV-1a, 32 bits, over UTF-16 code units

  /** The UTF-16 code units of `s`, as `s.charCodeAt(i)` reads them. */
  function Utf16(s: string): (units: seq<int>)
    ensures forall k :: 0 <= k < |units| ==> 0 <= units[k] < 0x1_0000
    ensures |units| >= |s|
  {
    if |s| == 0 then []
    else
      var c := s[0] as int;
      (if c < 0x1_0000 then [c]
       else [0xD800 + (c - 0x1_0000) / 0x400, 0xDC00 + (c - 0x1_0000) % 0x400])
      + Utf16(s[1..])
  }

  /** A string of Basic-Multilingual-Plane characters is its own code units. */
  lemma {:induction false} Utf16OfBmp(s: string)
    requires forall k :: 0 <= k < |s| ==> s[k] as int < 0x1_0000
    ensures |Utf16(s)| == |s|
    ensures forall k :: 0 <= k < |s| ==> Utf16(s)[k] == s[k] as int
  {
    if |s| > 0 {
      Utf16OfBmp(s[1..]);
    }
  }

  /** The 32-bit FNV offset basis and FNV prime of section 2 of the IETF
      Internet-Draft draft-eastlake-fnv. */
  const FnvOffsetBasis: bv32 := 2166136261
  const FnvPrime: bv32 := 16777619

  /** One FNV-1a round: exclusive-or the unit in, then multiply by the prime
      modulo 2^32. */
  function FnvStep(h: bv32, unit: int): bv32
    requires 0 <= unit < 0x1_0000
  {
    (h ^ (unit as bv32)) * FnvPrime
  }

  /** FNV-1a of a sequence of code units, one round per unit. */
  function Fnv1a(units: seq<int>): bv32
    requires forall k :: 0 <= k < |units| ==> 0 <= units[k] < 0x1_0000
  {
    if |units| == 0 then FnvOffsetBasis
    else FnvStep(Fnv1a(units[..|units| - 1]), units[|units| - 1])
  }

  /** `hash32(str)`: FNV-1a over the string's UTF-16 code units, read as an
      unsigned 32-bit integer. */
  method Hash32(s: string) returns (h: int)
    ensures h == Fnv1a(Utf16(s)) as int
    ensures 0 <= h < 0x1_0000_0000
  {
    var units := Utf16(s);
    var acc := FnvOffsetBasis;
    for i := 0 to |units|
      invariant acc == Fnv1a(units[..i])
    {
      assert units[..i + 1][..i] == units[..i];
      acc := FnvStep(acc, units[i]);
    }
    assert units[..|units|] == units;
    h := acc as int;
  }

  // ---------------------------------------------------------------------
  // mulberry32: the integer state and the 32-bit numerator

  /** `x | 0`: the signed 32-bit integer congruent to `x` modulo 2^32. */
  function ToInt32(x: int): (r: int)
    ensures -0x8000_0000 <= r < 0x8000_0000
    ensures r % 0x1_0000_0000 == x % 0x1_0000_0000
  {
    (x + 0x8000_0000) % 0x1_0000_0000 - 0x8000_0000
  }

  /** The 32-bit pattern of an integer, as the bitwise operators see it. */
  function Bits(x: int): bv32 {
    (x % 0x1_0000_0000) as bv32
  }

  /** One call of the generator: the new state `a` and the numerator
      `(t ^ t >>> 14) >>> 0` of the returned fraction. */
  datatype Draw = Draw(state: int, numerator: int)

  /** One call of the closure returned by `mulberry32(a)`: `a |= 0` and
      `a = a + 0x6D2B79F5 | 0` advance the state by the increment modulo 2^32
      and keep it a signed 32-bit integer; the returned fraction
      `numerator / 2^32` lies in [0, 1). */
  function MulberryNext(a: int): (d: Draw)
    ensures -0x8000_0000 <= d.state < 0x8000_0000
    ensures d.state % 0x1_0000_0000 == (a + 0x6D2B79F5) % 0x1_0000_0000
    ensures 0 <= d.numerator < 0x1_0000_0000
  {
    var a1 := Advance(a);
    Draw(a1, MulberryMix(Bits(a1)) as int)
  }

  /** The state update of one call on its own. */
  function Advance(a: int): (b: int)
    ensures -0x8000_0000 <= b < 0x8000_0000
    ensures b % 0x1_0000_0000 == (a + 0x6D2B79F5) % 0x1_0000_0000
  {
    var a0 := ToInt32(a);
    ModAdd(a0, a, 0x6D2B79F5);
    ToInt32(a0 + 0x6D2B79F5)
  }

  /** The output mixing of one call, on the 32-bit pattern of the new state:
      `Math.imul` is multiplication modulo 2^32 and `>>>` a logical shift. */
  function MulberryMix(u: bv32): bv32 {
    var t1 := (u ^ (u >> 15)) * (1 | u);
    var t2 := (t1 + (t1 ^ (t1 >> 7)) * (61 | t1)) ^ t1;
    t2 ^ (t2 >> 14)
  }

  /** Adding the same amount to two numbers congruent modulo 2^32 keeps them
      congruent. */
  lemma ModAdd(x: int, y: int, c: int)
    requires x % 0x1_0000_0000 == y % 0x1_0000_0000
    ensures (x + c) % 0x1_0000_0000 == (y + c) % 0x1_0000_0000
  {
    var qx := x / 0x1_0000_0000;
    var qy := y / 0x1_0000_0000;
    assert x == qx * 0x1_0000_0000 + x % 0x1_0000_0000;
    assert y == qy * 0x1_0000_0000 + y % 0x1_0000_0000;
    assert x + c == y + c + (qx - qy) * 0x1_0000_0000;
    ModShift(y + c, qx - qy);
  }

  lemma ModShift(z: int, q: int)
    ensures (z + q * 0x1_0000_0000) % 0x1_0000_0000 == z % 0x1_0000_0000
  {
  }

  /** The state after `n` calls, starting from the seed `a`. */
  function MulberryState(a: int, n: nat): int {
    if n == 0 then a else Advance(MulberryState(a, n - 1))
  }

  /** The numerator returned by call number `k` (counting from 0). */
  function MulberryDraw(a: int, k: nat): (n: int)
    ensures 0 <= n < 0x1_0000_0000
  {
    MulberryNext(MulberryState(a, k)).numerator
  }

  /** After `n` calls the state is the seed plus `n` increments, modulo 2^32. */
  lemma {:induction false} MulberryStateAfter(a: int, n: nat)
    ensures MulberryState(a, n) % 0x1_0000_0000 == (a + n * 0x6D2B79F5) % 0x1_0000_0000
  {
    if n > 0 {
      MulberryStateAfter(a, n - 1);
      var x := MulberryState(a, n - 1);
      var y := a + (n - 1) * 0x6D2B79F5;
      ModAdd(x, y, 0x6D2B79F5);
      assert y + 0x6D2B79F5 == a + n * 0x6D2B79F5;
    }
  }
}
