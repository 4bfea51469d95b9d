/** The slice of JavaScript value semantics the application relies on:
    JSON values, truthiness, `||`, `??`, optional property access, the
    `Number(...)` and `String(...)` conversions, and the whitespace set used by
    `\s` in regular expressions and by `String.prototype.trim`. */
module Js {
  import Seqs

  /** A JavaScript number. Finite values are kept as exact reals; the
      rounding of IEEE-754 doubles is not modelled. */
  datatype Num = Finite(value: real) | NaN | Infinity | NegInfinity

  /** A value as it comes out of `JSON.parse`, plus `undefined` for a missing
      property. */
  datatype Json =
    | Undefined
    | Null
    | Bool(b: bool)
    | Number(n: Num)
    | Str(s: string)
    | Arr(items: seq<Json>)
    | Obj(fields: map<string, Json>)

  /** The two engine conversions between strings and numbers that the model
      keeps abstract: `Number(s)` for a string and `String(x)` for a finite
      number. */
  datatype Engine = Engine(parseNumber: string -> Num, formatNumber: real -> string)

  /** JavaScript truthiness: the falsy values are `undefined`, `null`,
      `false`, `0`, `NaN` and the empty string. */
  predicate Truthy(v: Json) {
    match v
    case Undefined => false
    case Null => false
    case Bool(b) => b
    case Number(n) => !(n.NaN? || n == Finite(0.0))
    case Str(s) => s != ""
    case Arr(_) => true
    case Obj(_) => true
  }

  /** `null` or `undefined`, the values `??` and `?.` skip. */
  predicate Nullish(v: Json) {
    v.Undefined? || v.Null?
  }

  /** `a || b`. */
  function Or(a: Json, b: Json): Json {
    if Truthy(a) then a else b
  }

  /** `a ?? b`. */
  function Coalesce(a: Json, b: Json): Json {
    if Nullish(a) then b else a
  }

  /** `v?.[key]` for the keys the application reads: a missing key, and any
      access on a value that is not an object, gives `undefined`. */
  function Get(v: Json, key: string): Json {
    if v.Obj? && key in v.fields then v.fields[key] else Undefined
  }

  /** `v?.[k1]?.[k2]...` along a property path. */
  function Path(v: Json, keys: seq<string>): Json
    decreases |keys|
  {
    if |keys| == 0 then v else Path(Get(v, keys[0]), keys[1..])
  }

  /** `vs[0] || vs[1] || ... || vs[n-1]`: the first truthy operand, or the
      last operand when none is truthy. */
  function OrAll(vs: seq<Json>): (r: Json)
    requires |vs| > 0
    ensures r in vs
    ensures Truthy(r) <==> exists i :: 0 <= i < |vs| && Truthy(vs[i])
    ensures !Truthy(r) ==> r == vs[|vs| - 1]
    ensures forall i :: 0 <= i < |vs| && Truthy(vs[i]) && (forall j :: 0 <= j < i ==> !Truthy(vs[j])) ==> r == vs[i]
  {
    if |vs| == 1 then vs[0] else Or(vs[0], OrAll(vs[1..]))
  }

  /** `vs[0] ?? vs[1] ?? ... ?? vs[n-1]`: the first operand that is neither
      `null` nor `undefined`, or the last operand. */
  function CoalesceAll(vs: seq<Json>): (r: Json)
    requires |vs| > 0
    ensures r in vs
    ensures Nullish(r) <==> forall i :: 0 <= i < |vs| ==> Nullish(vs[i])
    ensures Nullish(r) ==> r == vs[|vs| - 1]
    ensures forall i :: 0 <= i < |vs| && !Nullish(vs[i]) && (forall j :: 0 <= j < i ==> Nullish(vs[j])) ==> r == vs[i]
  {
    if |vs| == 1 then vs[0] else Coalesce(vs[0], CoalesceAll(vs[1..]))
  }

  /** `Number.isFinite(n)` for a number. */
  predicate IsFinite(n: Num) {
    n.Finite?
  }

  /** `Number.isInteger(n)` for a number. */
  predicate IsInteger(n: Num) {
    n.Finite? && n.value.Floor as real == n.value
  }

  /** The integer a number satisfying `IsInteger` denotes. */
  function IntOf(n: Num): int
    requires IsInteger(n)
  {
    n.value.Floor
  }

  /** `Number.isInteger(v)`: no coercion, so only numbers qualify. */
  predicate IsIntegerValue(v: Json) {
    v.Number? && IsInteger(v.n)
  }

  /** `Number(v)`. Objects and arrays convert through their string form. */
  function ToNumber(e: Engine, v: Json): Num {
    match v
    case Undefined => NaN
    case Null => Finite(0.0)
    case Bool(b) => if b then Finite(1.0) else Finite(0.0)
    case Number(n) => n
    case Str(s) => e.parseNumber(s)
    case Arr(_) => e.parseNumber(ToString(e, v))
    case Obj(_) => e.parseNumber(ToString(e, v))
  }

  /** `String(n)` for a number. */
  function NumberToString(e: Engine, n: Num): string {
    match n
    case Finite(r) => e.formatNumber(r)
    case NaN => "NaN"
    case Infinity => "Infinity"
    case NegInfinity => "-Infinity"
  }

  /** `String(v)`. An array joins its elements with commas, writing `null`
      and `undefined` elements as empty strings; a plain object is
      `[object Object]`. */
  function ToString(e: Engine, v: Json): string
    decreases v
  {
    match v
    case Undefined => "undefined"
    case Null => "null"
    case Bool(b) => if b then "true" else "false"
    case Number(n) => NumberToString(e, n)
    case Str(s) => s
    case Arr(items) =>
      Seqs.Join(",", seq(|items|, i requires 0 <= i < |items| =>
        if Nullish(items[i]) then "" else ToString(e, items[i])))
    case Obj(_) => "[object Object]"
  }

  /** The characters matched by `\s` and removed by `trim()`: the Unicode
      white-space and line-terminator characters of ECMAScript. */
  predicate IsSpace(c: char) {
    var n := c as int;
    || (0x09 <= n <= 0x0D) || n == 0x20 || n == 0xA0 || n == 0x1680
    || (0x2000 <= n <= 0x200A)
    || n == 0x2028 || n == 0x2029 || n == 0x202F || n == 0x205F
    || n == 0x3000 || n == 0xFEFF
  }

  /** The characters `.` does not match in a regular expression without the
      `s` flag. */
  predicate IsLineTerminator(c: char) {
    var n := c as int;
    n == 0x0A || n == 0x0D || n == 0x2028 || n == 0x2029
  }

  /** `s.trimStart()`. */
  function TrimStart(s: string): (r: string)
    ensures |r| <= |s|
    ensures r == s[|s| - |r|..]
    ensures |r| > 0 ==> !IsSpace(r[0])
    ensures forall i :: 0 <= i < |s| - |r| ==> IsSpace(s[i])
  {
    if |s| > 0 && IsSpace(s[0]) then TrimStart(s[1..]) else s
  }

  /** `s.trimEnd()`. */
  function TrimEnd(s: string): (r: string)
    ensures |r| <= |s|
    ensures r == s[..|r|]
    ensures |r| > 0 ==> !IsSpace(r[|r| - 1])
    ensures forall i :: |r| <= i < |s| ==> IsSpace(s[i])
  {
    if |s| > 0 && IsSpace(s[|s| - 1]) then TrimEnd(s[..|s| - 1]) else s
  }

  /** `s.trim()`. */
  function Trim(s: string): string {
    TrimEnd(TrimStart(s))
  }

  /** `r` is `s` with its white space cut off at both ends: a contiguous
      piece of `s` preceded and followed only by white space, and neither
      starting nor ending with white space itself. */
  ghost predicate TrimmedFrom(r: string, s: string) {
    && (|r| > 0 ==> !IsSpace(r[0]) && !IsSpace(r[|r| - 1]))
    && exists a :: 0 <= a && a + |r| <= |s| && AllSpace(s[..a])
                   && r == s[a..a + |r|] && AllSpace(s[a + |r|..])
  }

  /** Every character of `s` is white space. */
  predicate AllSpace(s: string) {
    forall i :: 0 <= i < |s| ==> IsSpace(s[i])
  }

  /** `s.trim()` cuts exactly the surrounding white space off. */
  lemma TrimFacts(s: string)
    ensures TrimmedFrom(Trim(s), s)
  {
    var t := TrimStart(s);
    var a := |s| - |t|;
    var b := a + |Trim(s)|;
    assert Trim(s) == s[a..b];
    assert AllSpace(s[..a]);
    assert AllSpace(s[b..]);
  }

  /** The trimmed piece is determined by the string: `TrimmedFrom` admits
      one result only. */
  lemma TrimmedFromUnique(r1: string, r2: string, s: string)
    requires TrimmedFrom(r1, s) && TrimmedFrom(r2, s)
    ensures r1 == r2
  {
    var a1 :| 0 <= a1 && a1 + |r1| <= |s| && AllSpace(s[..a1]) && r1 == s[a1..a1 + |r1|] && AllSpace(s[a1 + |r1|..]);
    var a2 :| 0 <= a2 && a2 + |r2| <= |s| && AllSpace(s[..a2]) && r2 == s[a2..a2 + |r2|] && AllSpace(s[a2 + |r2|..]);
    TrimmedBounds(r1, s, a1);
    TrimmedBounds(r2, s, a2);
  }

  /** Around a non-empty trimmed piece starting at `a`, position `a` is the
      first non-white-space character of `s` and the piece's end follows
      the last one; an empty piece leaves only white space. */
  lemma TrimmedBounds(r: string, s: string, a: int)
    requires 0 <= a && a + |r| <= |s| && AllSpace(s[..a]) && r == s[a..a + |r|] && AllSpace(s[a + |r|..])
    requires |r| > 0 ==> !IsSpace(r[0]) && !IsSpace(r[|r| - 1])
    ensures |r| == 0 <==> forall i :: 0 <= i < |s| ==> IsSpace(s[i])
    ensures |r| > 0 ==> !IsSpace(s[a]) && forall i :: 0 <= i < a ==> IsSpace(s[i])
    ensures |r| > 0 ==> !IsSpace(s[a + |r| - 1]) && forall i :: a + |r| <= i < |s| ==> IsSpace(s[i])
  {
    assert forall i :: 0 <= i < a ==> s[..a][i] == s[i];
    assert forall i :: a + |r| <= i < |s| ==> s[a + |r|..][i - a - |r|] == s[i];
    assert forall i :: a <= i < a + |r| ==> r[i - a] == s[i];
  }

  /** Trimming is the identity on a string with no white space at either end. */
  lemma TrimNoop(s: string)
    requires |s| > 0 ==> !IsSpace(s[0]) && !IsSpace(s[|s| - 1])
    ensures Trim(s) == s
  {
  }

  /** `toLowerCase()` on one character, for the ASCII letters; other
      characters are left as they are. */
  function LowerAscii(c: char): char {
    if 'A' <= c <= 'Z' then (c as int + 32) as char else c
  }

  /** `s.toLowerCase()` restricted to ASCII letters: the length is kept. */
  function LowerCase(s: string): (r: string)
    ensures |r| == |s|
    ensures forall i :: 0 <= i < |s| ==> r[i] == LowerAscii(s[i])
  {
    seq(|s|, i requires 0 <= i < |s| => LowerAscii(s[i]))
  }

  /** Equal up to the letter case of ASCII letters. */
  predicate FoldEqual(a: string, b: string) {
    LowerCase(a) == LowerCase(b)
  }
}
