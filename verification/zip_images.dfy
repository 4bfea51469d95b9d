/** src/data/zipImages.js: the image archive of a dataset. Loading indexes
    the archive's image files by file name without extension; looking an
    image up creates an object URL once and caches it. Decompression and
    blob/URL creation stay abstract: an archive is its list of paths, and
    the URL a lookup would create is a parameter. */
module ZipImages {
  import opened Wrappers
  import opened AppState
  import Js

  /** `path.split("/").pop()`: everything after the last `/`. */
  function BaseName(path: string): (r: string)
    ensures '/' !in r
    ensures |r| <= |path| && r == path[|path| - |r|..]
    ensures |r| < |path| ==> path[|path| - |r| - 1] == '/'
  {
    if |path| == 0 then ""
    else if path[|path| - 1] == '/' then ""
    else
      var front := BaseName(path[..|path| - 1]);
      front + [path[|path| - 1]]
  }

  /** The extensions the index accepts. */
  const ImageExtensions: seq<string> := ["png", "jpg", "jpeg", "webp", "gif"]

  /** `base` is `<name>.<ext>` for this extension, in any letter case. */
  predicate EndsWithExtension(base: string, ext: string) {
    |base| > |ext| && base[|base| - |ext| - 1] == '.' && Js.FoldEqual(base[|base| - |ext|..], ext)
  }

  /** The part the group `(.+)` captures: at least one character, none of
      them a line terminator. */
  predicate IsNamePart(name: string) {
    name != "" && forall i :: 0 <= i < |name| ==> !Js.IsLineTerminator(name[i])
  }

  /** A word of lower-case ASCII letters, like every accepted extension. */
  predicate IsLowerWord(e: string) {
    forall i :: 0 <= i < |e| ==> 'a' <= e[i] <= 'z'
  }

  /** The first accepted extension `base` ends with. */
  function ExtensionOf(base: string, exts: seq<string>): (r: Option<string>)
    ensures r.Some? ==> r.value in exts && EndsWithExtension(base, r.value)
    ensures r.None? ==> forall e :: e in exts ==> !EndsWithExtension(base, e)
  {
    if |exts| == 0 then None
    else if EndsWithExtension(base, exts[0]) then Some(exts[0])
    else ExtensionOf(base, exts[1..])
  }

  /** A base name ends with at most one extension made of letters: a
      shorter one would put its dot inside the longer one. */
  lemma ExtensionUnique(base: string, e: string, f: string)
    requires IsLowerWord(e) && IsLowerWord(f)
    requires EndsWithExtension(base, e) && EndsWithExtension(base, f)
    ensures e == f
  {
    if |e| == |f| {
      forall i | 0 <= i < |e|
        ensures e[i] == f[i]
      {
        assert Js.LowerAscii(e[i]) == Js.LowerCase(e)[i] == Js.LowerCase(f)[i] == Js.LowerAscii(f[i]);
      }
    }
  }

  /** The part of `base` before `.<ext>`. */
  function Stem(base: string, ext: string): string
    requires |base| > |ext|
  {
    base[..|base| - |ext| - 1]
  }

  /** `base.match(/^(.+)\.(png|jpg|jpeg|webp|gif)$/i)?.[1]`. */
  function KeyOfBase(base: string): (r: Option<string>)
    ensures r.Some? ==> IsNamePart(r.value) && |r.value| < |base| && r.value == base[..|r.value|]
    ensures r.Some? ==> exists e :: e in ImageExtensions && EndsWithExtension(base, e) && Stem(base, e) == r.value
    ensures r.None? ==> forall e :: e in ImageExtensions && EndsWithExtension(base, e) ==> !IsNamePart(Stem(base, e))
  {
    match ExtensionOf(base, ImageExtensions)
    case None => None
    case Some(e) =>
      ExtensionsLower();
      forall f | f in ImageExtensions && EndsWithExtension(base, f)
        ensures f == e
      {
        ExtensionUnique(base, e, f);
      }
      if IsNamePart(Stem(base, e)) then Some(Stem(base, e)) else None
  }

  /** The key a path of the archive is indexed under, if any. */
  function ImageKey(path: string): (r: Option<string>)
    ensures r.Some? ==> IsNamePart(r.value) && '/' !in r.value
  {
    var base := BaseName(path);
    var r := KeyOfBase(base);
    assert r.Some? ==> forall i :: 0 <= i < |r.value| ==> r.value[i] == base[i];
    r
  }

  /** A file `<name>.<ext>` with an accepted extension in any letter case
      has the key `<name>`. */
  lemma KeyOfImageFile(name: string, ext: string, e: string)
    requires IsNamePart(name)
    requires e in ImageExtensions && Js.FoldEqual(ext, e)
    ensures KeyOfBase(name + "." + ext) == Some(name)
  {
    var base := name + "." + ext;
    assert |ext| == |Js.LowerCase(ext)| == |Js.LowerCase(e)| == |e|;
    assert base[|base| - |e|..] == ext && base[|base| - |e| - 1] == '.';
    assert EndsWithExtension(base, e);
    var found := ExtensionOf(base, ImageExtensions);
    assert found.Some?;
    ExtensionsLower();
    ExtensionUnique(base, e, found.value);
    assert Stem(base, e) == name;
  }

  /** Every accepted extension is a lower-case word. */
  lemma ExtensionsLower()
    ensures forall f :: f in ImageExtensions ==> IsLowerWord(f)
  {
  }

  /** A file `<name>.<other>` whose extension is not accepted, in any letter
      case, has no key. */
  lemma NoKeyForOtherFiles(name: string, ext: string)
    requires '.' !in ext
    requires forall e :: e in ImageExtensions ==> !Js.FoldEqual(ext, e)
    ensures KeyOfBase(name + "." + ext) == None
  {
    var base := name + "." + ext;
    ExtensionsLower();
    forall e | e in ImageExtensions
      ensures !EndsWithExtension(base, e)
    {
      OtherExtension(name, ext, e);
    }
    assert ExtensionOf(base, ImageExtensions).None?;
  }

  /** One accepted extension against a name whose extension differs. */
  lemma OtherExtension(name: string, ext: string, e: string)
    requires '.' !in ext && IsLowerWord(e) && !Js.FoldEqual(ext, e)
    ensures !EndsWithExtension(name + "." + ext, e)
  {
    var base := name + "." + ext;
    if |e| < |ext| {
      assert base[|base| - |e| - 1] == ext[|ext| - |e| - 1];
    } else if |e| == |ext| {
      assert base[|base| - |e|..] == ext;
    } else if |base| > |e| {
      assert base[|base| - |e|..][|e| - |ext| - 1] == '.';
    }
  }

  /** The base name of `<dir>/<file>` is `file`. */
  lemma {:induction false} BaseNameOfFile(dir: string, file: string)
    requires '/' !in file
    ensures BaseName(dir + "/" + file) == file
    decreases |file|
  {
    var path := dir + "/" + file;
    if |file| == 0 {
      assert path[|path| - 1] == '/';
    } else {
      assert path[..|path| - 1] == dir + "/" + file[..|file| - 1];
      BaseNameOfFile(dir, file[..|file| - 1]);
      assert file == file[..|file| - 1] + [file[|file| - 1]];
    }
  }

  /** The archive path `<dir>/<name>.<ext>` of an image is indexed under
      `<name>`, whatever the folders and the letter case of the extension. */
  lemma ImageKeyOfImagePath(dir: string, name: string, ext: string, e: string)
    requires IsNamePart(name) && '/' !in name && '/' !in ext
    requires e in ImageExtensions && Js.FoldEqual(ext, e)
    ensures ImageKey(dir + "/" + name + "." + ext) == Some(name)
  {
    assert dir + "/" + name + "." + ext == dir + "/" + (name + "." + ext);
    BaseNameOfFile(dir, name + "." + ext);
    KeyOfImageFile(name, ext, e);
  }

  /** `paths[i]` is the last path with key `k`. */
  ghost predicate IsLastWith(paths: seq<string>, key: string -> Option<string>, i: int, k: string) {
    0 <= i < |paths| && key(paths[i]) == Some(k)
    && forall j :: i < j < |paths| ==> key(paths[j]) != Some(k)
  }

  /** The map `m.set(key(p), p)` for every path with a key leaves: every key
      with a path, mapped to the LAST path with that key. */
  function IndexBy(paths: seq<string>, key: string -> Option<string>): (r: map<string, string>)
    ensures forall k :: k in r <==> exists i :: 0 <= i < |paths| && key(paths[i]) == Some(k)
    ensures forall k :: k in r ==> r[k] in paths && key(r[k]) == Some(k)
    ensures forall i, k :: IsLastWith(paths, key, i, k) ==> k in r && r[k] == paths[i]
  {
    if |paths| == 0 then map[]
    else
      var front := paths[..|paths| - 1];
      var last := paths[|paths| - 1];
      var m := IndexBy(front, key);
      assert paths == front + [last];
      assert forall i, k :: IsLastWith(paths, key, i, k) && i < |front| ==> IsLastWith(front, key, i, k);
      match key(last)
      case None => m
      case Some(k) => m[k := last]
  }

  /** The index `zip.forEach` builds over the archive's paths. */
  function BuildIndex(paths: seq<string>): map<string, string> {
    IndexBy(paths, ImageKey)
  }

  /** `clearZipObjectUrls()`: the cache is empty afterwards (revoking the
      URLs is a browser effect). */
  function ClearZipObjectUrls(s: State): (r: State)
    ensures r.zipObjectUrls == map[]
    ensures r.(zipObjectUrls := s.zipObjectUrls) == s
  {
    s.(zipObjectUrls := map[])
  }

  /** The message `requireJSZip` throws when the JSZip library is missing. */
  const JSZipMissing: string := "JSZip ist nicht verfügbar (CDN blockiert?). Bilder-ZIP kann nicht geladen werden."

  /** What `JSZip.loadAsync(buf)` settles to: the archive, or a rejection
      with its error message. */
  datatype Unzipped = Opened(archive: Archive) | Rejected(error: string)

  /** The state after `loadZipArrayBuffer`, and the error it threw, if any. */
  datatype Loaded = Loaded(state: State, error: Option<string>)

  /** `loadZipArrayBuffer(buf)`: `buf` is `None` for a missing buffer and
      otherwise what decompressing it gives; `jsZipAvailable` says whether
      the library is loaded. The URL cache is cleared first, whatever
      happens after. A missing buffer clears the archive and its index. A
      present buffer fails without touching the archive or the index when
      the library is missing or decompression is rejected; otherwise the
      archive and its path index replace the old ones. */
  function LoadZipArrayBuffer(s: State, jsZipAvailable: bool, buf: Option<Unzipped>): (r: Loaded)
    ensures r.state.zipObjectUrls == map[]
    ensures buf.None? ==> r.error.None? && r.state.zip.None? && r.state.zipIndex == map[]
    ensures buf.Some? && !jsZipAvailable ==> r.error == Some(JSZipMissing)
    ensures buf.Some? && jsZipAvailable && buf.value.Rejected? ==> r.error == Some(buf.value.error)
    ensures r.error.Some? ==> r.state.zip == s.zip && r.state.zipIndex == s.zipIndex
    ensures r.error.None? <==> buf.None? || (jsZipAvailable && buf.value.Opened?)
    ensures buf.Some? && jsZipAvailable && buf.value.Opened? ==>
              r.state.zip == Some(buf.value.archive) && r.state.zipIndex == BuildIndex(buf.value.archive.paths)
    ensures r.state.(zip := s.zip, zipIndex := s.zipIndex, zipObjectUrls := s.zipObjectUrls) == s
  {
    var cleared := ClearZipObjectUrls(s);
    match buf
    case None => Loaded(cleared.(zip := None, zipIndex := map[]), None)
    case Some(u) =>
      if !jsZipAvailable then Loaded(cleared, Some(JSZipMissing))
      else match u
        case Rejected(err) => Loaded(cleared, Some(err))
        case Opened(a) => Loaded(cleared.(zip := Some(a), zipIndex := BuildIndex(a.paths)), None)
  }

  /** `getImageUrl(fileBase)`, where `created` is the URL
      `URL.createObjectURL` would return for the file's blob. */
  function GetImageUrl(s: State, fileBase: string, created: string): (res: (Option<string>, State))
    ensures res.0.None? <==> s.zip.None? || fileBase !in s.zipIndex
    ensures res.0.None? ==> res.1 == s
    ensures fileBase in s.zipObjectUrls && res.0.Some? ==> res.0.value == s.zipObjectUrls[fileBase] && res.1 == s
    ensures fileBase !in s.zipObjectUrls && res.0.Some? ==>
              res.0.value == created && res.1 == s.(zipObjectUrls := s.zipObjectUrls[fileBase := created])
  {
    if s.zip.None? || fileBase !in s.zipIndex then (None, s)
    else if fileBase in s.zipObjectUrls then (Some(s.zipObjectUrls[fileBase]), s)
    else (Some(created), s.(zipObjectUrls := s.zipObjectUrls[fileBase := created]))
  }

  /** Once a lookup produced a URL, every later lookup of the same key
      returns that URL and leaves the state alone, whatever URL a fresh
      creation would have produced. */
  lemma GetImageUrlMemoized(s: State, fileBase: string, created1: string, created2: string)
    requires GetImageUrl(s, fileBase, created1).0.Some?
    ensures var (u1, s1) := GetImageUrl(s, fileBase, created1);
            GetImageUrl(s1, fileBase, created2) == (u1, s1)
  {
  }

  /** Loading a missing buffer leaves nothing to look up. */
  lemma NoArchiveNoImages(s: State, jsZipAvailable: bool, fileBase: string, created: string)
    ensures GetImageUrl(LoadZipArrayBuffer(s, jsZipAvailable, None).state, fileBase, created).0.None?
  {
  }

  /** A failed load keeps the old archive and index, so an image present
      before is still found afterwards, under a freshly created URL since
      the cache was cleared. */
  lemma FailedLoadKeepsImages(s: State, jsZipAvailable: bool, buf: Option<Unzipped>, fileBase: string, created: string)
    requires LoadZipArrayBuffer(s, jsZipAvailable, buf).error.Some?
    requires GetImageUrl(s, fileBase, created).0.Some?
    ensures GetImageUrl(LoadZipArrayBuffer(s, jsZipAvailable, buf).state, fileBase, created).0 == Some(created)
  {
  }
}
