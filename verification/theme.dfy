/** src/theme.js: the theme registry, colour parsing, and the fallback
    chains that turn a theme file into CSS variables and chart tokens.
    Fetching the theme file, `localStorage` and the DOM are not modelled. */
module Theme {
  import opened Wrappers
  import opened Js

  // ---------------------------------------------------------------------
  // Colours

  predicate IsHexDigit(c: char) {
    '0' <= c <= '9' || 'a' <= c <= 'f' || 'A' <= c <= 'F'
  }

  /** `isHexColor(value)`: a string `#` followed by exactly six or eight hex
      digits, in either letter case. */
  predicate IsHexColor(v: Json) {
    && v.Str?
    && (|v.s| == 7 || |v.s| == 9)
    && v.s[0] == '#'
    && forall i :: 1 <= i < |v.s| ==> IsHexDigit(v.s[i])
  }

  /** The value of one hex digit. */
  function DigitValue(c: char): (d: nat)
    requires IsHexDigit(c)
    ensures d < 16
  {
    if '0' <= c <= '9' then c as int - '0' as int
    else if 'a' <= c <= 'f' then c as int - 'a' as int + 10
    else c as int - 'A' as int + 10
  }

  /** `Number.parseInt(pair, 16)` for two hex digits. */
  function PairValue(hi: char, lo: char): (v: nat)
    requires IsHexDigit(hi) && IsHexDigit(lo)
    ensures v < 256
  {
    16 * DigitValue(hi) + DigitValue(lo)
  }

  datatype Rgb = Rgb(r: nat, g: nat, b: nat)

  /** The red, green and blue channels `hexToRgba` reads: digit pairs 1-2,
      3-4 and 5-6; the alpha digits of an eight-digit colour are ignored. */
  function Channels(hex: Json): (c: Option<Rgb>)
    ensures c.None? <==> !IsHexColor(hex)
    ensures c.Some? ==> c.value.r < 256 && c.value.g < 256 && c.value.b < 256
  {
    if !IsHexColor(hex) then None
    else
      var s := hex.s;
      Some(Rgb(PairValue(s[1], s[2]), PairValue(s[3], s[4]), PairValue(s[5], s[6])))
  }

  /** `String(n)` for a natural number: its decimal digits. */
  function Decimal(n: nat): string
    decreases n
  {
    if n < 10 then ["0123456789"[n]]
    else Decimal(n / 10) + ["0123456789"[n % 10]]
  }

  /** `hexToRgba(hex, alpha)`, with `alpha` as the template literal renders
      it. */
  function HexToRgba(hex: Json, alpha: string): (r: string)
    ensures !IsHexColor(hex) ==> r == "rgba(0,0,0," + alpha + ")"
    ensures IsHexColor(hex) ==>
              var c := Channels(hex).value;
              r == "rgba(" + Decimal(c.r) + "," + Decimal(c.g) + "," + Decimal(c.b) + "," + alpha + ")"
  {
    match Channels(hex)
    case None => "rgba(0,0,0," + alpha + ")"
    case Some(c) => "rgba(" + Decimal(c.r) + "," + Decimal(c.g) + "," + Decimal(c.b) + "," + alpha + ")"
  }

  /** The lower-case hex digit of a value below 16. */
  function HexDigit(d: nat): (c: char)
    requires d < 16
    ensures IsHexDigit(c) && DigitValue(c) == d
  {
    "0123456789abcdef"[d]
  }

  /** `#rrggbb` for three channel values. */
  function HexColor(c: Rgb): (s: string)
    requires c.r < 256 && c.g < 256 && c.b < 256
  {
    ['#', HexDigit(c.r / 16), HexDigit(c.r % 16), HexDigit(c.g / 16), HexDigit(c.g % 16),
     HexDigit(c.b / 16), HexDigit(c.b % 16)]
  }

  /** Writing three channels as `#rrggbb` and reading them back gives the
      same channels. */
  lemma ChannelsRoundTrip(c: Rgb)
    requires c.r < 256 && c.g < 256 && c.b < 256
    ensures IsHexColor(Str(HexColor(c)))
    ensures Channels(Str(HexColor(c))) == Some(c)
  {
    var s := HexColor(c);
    assert forall i :: 1 <= i < |s| ==> IsHexDigit(s[i]);
    PairRoundTrip(c.r);
    PairRoundTrip(c.g);
    PairRoundTrip(c.b);
  }

  lemma PairRoundTrip(x: nat)
    requires x < 256
    ensures PairValue(HexDigit(x / 16), HexDigit(x % 16)) == x
  {
  }

  /** An eight-digit colour has the channels of its first six digits. */
  lemma AlphaDigitsIgnored(s: string)
    requires IsHexColor(Str(s)) && |s| == 9
    ensures IsHexColor(Str(s[..7]))
    ensures Channels(Str(s)) == Channels(Str(s[..7]))
  {
  }

  // ---------------------------------------------------------------------
  // Registry

  /** A registry entry: the label shown in the theme picker and the theme file. */
  datatype ThemeEntry = ThemeEntry(title: string, file: string)

  /** `THEME_REGISTRY`. */
  const ThemeRegistry: map<string, ThemeEntry> :=
    map["spezi" := ThemeEntry("Spezi", "./assets/Theme_Spezi.json"),
        "dark" := ThemeEntry("Dark Mode", "./assets/theme_dark_mode.json")]

  /** `DEFAULT_THEME_ID`. */
  const DefaultThemeId: string := "spezi"

  /** The truthy properties every plain object inherits from
      `Object.prototype`: its methods and the `__proto__` accessor. */
  const InheritedNames: set<string> :=
    {"constructor", "hasOwnProperty", "isPrototypeOf", "propertyIsEnumerable",
     "toLocaleString", "toString", "valueOf", "__proto__",
     "__defineGetter__", "__defineSetter__", "__lookupGetter__", "__lookupSetter__"}

  /** `resolveThemeId(themeId)` as written, for a string id or a missing
      one: `THEME_REGISTRY[themeId]` also finds inherited properties. */
  function ResolveThemeIdAsWritten(themeId: Option<string>): (r: string)
    ensures themeId.Some? && themeId.value in ThemeRegistry ==> r == themeId.value
    ensures themeId.None? || themeId.value == "" ==> r == DefaultThemeId
    ensures r == DefaultThemeId || (themeId.Some? && r == themeId.value)
  {
    if themeId.Some? && themeId.value != ""
       && (themeId.value in ThemeRegistry || themeId.value in InheritedNames)
    then themeId.value
    else DefaultThemeId
  }

  /** The stored id `"constructor"` passes the check although no theme has
      that id; loading it then reads `THEME_REGISTRY["constructor"].file`,
      which is `undefined`. */
  lemma ResolveThemeIdAcceptsInheritedName()
    ensures ResolveThemeIdAsWritten(Some("constructor")) == "constructor"
    ensures "constructor" !in ThemeRegistry
  {
  }

  /** `resolveThemeId` as intended: an own registry key is kept, anything
      else becomes the default. */
  function ResolveThemeId(themeId: Option<string>): (r: string)
    ensures r in ThemeRegistry
    ensures themeId.Some? && themeId.value in ThemeRegistry ==> r == themeId.value
    ensures !(themeId.Some? && themeId.value in ThemeRegistry) ==> r == DefaultThemeId
  {
    if themeId.Some? && themeId.value in ThemeRegistry then themeId.value else DefaultThemeId
  }

  /** Resolving a resolved id changes nothing, and the two versions agree
      on every id that is not an inherited property name. */
  lemma ResolveThemeIdSettles(themeId: Option<string>)
    ensures ResolveThemeId(Some(ResolveThemeId(themeId))) == ResolveThemeId(themeId)
    ensures themeId.None? || themeId.value !in InheritedNames ==>
              ResolveThemeIdAsWritten(themeId) == ResolveThemeId(themeId)
  {
  }

  // ---------------------------------------------------------------------
  // Fallback chains

  /** One value read from the theme file by the `a || b || "literal"`
      pattern: property paths tried in order, then a literal. */
  datatype Chain = Chain(sources: seq<seq<string>>, fallback: string)

  /** The operands of a chain for this theme file. */
  function Operands(themeData: Json, c: Chain): (vs: seq<Json>)
    ensures |vs| == |c.sources| + 1 && vs[|c.sources|] == Str(c.fallback)
    ensures forall i :: 0 <= i < |c.sources| ==> vs[i] == Path(themeData, c.sources[i])
  {
    seq(|c.sources|, i requires 0 <= i < |c.sources| => Path(themeData, c.sources[i])) + [Str(c.fallback)]
  }

  /** The value of a chain: the first truthy source, else the literal. */
  function Resolve(themeData: Json, c: Chain): (r: Json)
    requires c.fallback != ""
    ensures Truthy(r)
    ensures forall i :: 0 <= i < |c.sources| && Truthy(Path(themeData, c.sources[i]))
                        && (forall j :: 0 <= j < i ==> !Truthy(Path(themeData, c.sources[j])))
                        ==> r == Path(themeData, c.sources[i])
    ensures (forall i :: 0 <= i < |c.sources| ==> !Truthy(Path(themeData, c.sources[i]))) ==> r == Str(c.fallback)
  {
    var vs := Operands(themeData, c);
    assert Truthy(vs[|c.sources|]);
    OrAll(vs)
  }

  // Paths into a theme file: `themeData.aliases.*` and
  // `themeData.theme.dark.*`.
  function Alias(name: string): seq<string> { ["aliases", name] }
  function Dark(keys: seq<string>): seq<string> { ["theme", "dark"] + keys }

  datatype CssVar = CssVar(name: string, chain: Chain)

  /** The `toCssVars` table except `--theme-pie-inner`, in source order. */
  const CssVarTable: seq<CssVar> := [
    CssVar("--bg", Chain([Alias("Background1")], "#0b0f17")),
    CssVar("--panel", Chain([Alias("Surface2")], "#121a27")),
    CssVar("--panel2", Chain([Alias("Surface1")], "#0f1622")),
    CssVar("--text", Chain([Alias("Text1")], "#e8eefc")),
    CssVar("--muted", Chain([Alias("Text2")], "#a9b4cc")),
    CssVar("--border", Chain([Alias("Border1")], "#22304a")),
    CssVar("--ok", Chain([Alias("Greenlight"), Dark(["semantic", "success", "bg"])], "#2e7d32")),
    CssVar("--bad", Chain([Alias("Danger"), Dark(["semantic", "danger", "bg"])], "#c62828")),
    CssVar("--neutral", Chain([Alias("TextMuted")], "#607d8b")),
    CssVar("--btn", Chain([Dark(["component", "button", "secondary", "bg"])], "#1d2a44")),
    CssVar("--btn2", Chain([Dark(["component", "button", "secondary", "hoverBg"])], "#22304a")),
    CssVar("--focus", Chain([Alias("Accent3"), Dark(["component", "input", "focusBorder"])], "#7aa2ff")),
    CssVar("--bg-gradient-start", Chain([Alias("Background2"), Alias("Background1")], "#070a10")),
    CssVar("--theme-progress-correct-1", Chain([Dark(["semantic", "success", "bg"]), Alias("Greenlight")], "#34d399")),
    CssVar("--theme-progress-correct-2",
           Chain([Dark(["component", "progress", "successFill"]), Dark(["semantic", "success", "bg"])], "#22c55e")),
    CssVar("--theme-progress-wrong-1", Chain([Dark(["semantic", "danger", "softBg"])], "rgba(252,165,165,.95)")),
    CssVar("--theme-progress-wrong-2",
           Chain([Dark(["component", "progress", "dangerFill"]), Dark(["semantic", "danger", "bg"])], "#c62828")),
    CssVar("--theme-pie-label", Chain([Dark(["text", "onAccentLight"])], "#f8fbff"))
  ]

  lemma CssVarFallbacksNonEmpty()
    ensures forall i :: 0 <= i < |CssVarTable| ==> CssVarTable[i].chain.fallback != ""
  {
  }

  /** The pie's inner colour: the first background colour at 82% opacity. */
  function PieInner(themeData: Json): string {
    HexToRgba(Or(Path(themeData, Alias("Background1")), Str("#0b0f17")), "0.82")
  }

  /** `toCssVars(themeData)`, as its list of entries. Every variable holds
      the first truthy value along its chain, so none is ever empty. */
  function ToCssVars(themeData: Json): (r: seq<(string, Json)>)
    ensures |r| == |CssVarTable| + 1
    ensures forall i :: 0 <= i < |CssVarTable| ==>
              r[i].0 == CssVarTable[i].name && Truthy(r[i].1)
              && r[i].1 == Resolve(themeData, CssVarTable[i].chain)
    ensures r[|CssVarTable|] == ("--theme-pie-inner", Str(PieInner(themeData)))
  {
    CssVarFallbacksNonEmpty();
    seq(|CssVarTable|, i requires 0 <= i < |CssVarTable| =>
      (CssVarTable[i].name, Resolve(themeData, CssVarTable[i].chain)))
    + [("--theme-pie-inner", Str(PieInner(themeData)))]
  }

  /** Without a theme file every variable falls back to its literal. */
  lemma EmptyThemeUsesFallbacks()
    ensures forall i :: 0 <= i < |CssVarTable| ==> ToCssVars(Null)[i].1 == Str(CssVarTable[i].chain.fallback)
  {
    forall i | 0 <= i < |CssVarTable|
      ensures ToCssVars(Null)[i].1 == Str(CssVarTable[i].chain.fallback)
    {
      var c := CssVarTable[i].chain;
      assert c.fallback != "" && forall k :: 0 <= k < |c.sources| ==> |c.sources[k]| > 0;
      MissingThemeChain(c);
    }
  }

  /** Without a theme file a chain of non-empty paths gives its literal. */
  lemma MissingThemeChain(c: Chain)
    requires c.fallback != ""
    requires forall k :: 0 <= k < |c.sources| ==> |c.sources[k]| > 0
    ensures Resolve(Null, c) == Str(c.fallback)
  {
    forall k | 0 <= k < |c.sources|
      ensures !Truthy(Path(Null, c.sources[k]))
    {
      PathOfMissing(c.sources[k]);
    }
  }

  /** Without a theme file the pie's inner colour is the default background
      at 82% opacity. */
  lemma EmptyThemePieInner()
    ensures PieInner(Null) == "rgba(11,15,23,0.82)"
  {
    PathOfMissing(Alias("Background1"));
    assert Channels(Str("#0b0f17")) == Some(Rgb(11, 15, 23));
  }

  /** Reading any path below a missing value gives `undefined`. */
  lemma {:induction false} PathOfMissing(keys: seq<string>)
    requires |keys| > 0
    ensures Path(Null, keys) == Undefined
  {
    UndefinedPath(keys[1..]);
  }

  lemma {:induction false} UndefinedPath(keys: seq<string>)
    ensures Path(Undefined, keys) == Undefined
    decreases |keys|
  {
    if |keys| > 0 {
      UndefinedPath(keys[1..]);
    }
  }

  // ---------------------------------------------------------------------
  // Theme tokens

  /** The chart colours used when a theme has none. */
  const DefaultChartSeries: seq<Json> :=
    [Str("#7aa2ff"), Str("#4cc9f0"), Str("#72efdd"), Str("#ffd166"), Str("#f4978e"), Str("#ff99c8")]

  /** `chartSeries` of `buildThemeTokens`: the theme's series when it is a
      non-empty array, else the default colours. */
  function ChartSeries(themeData: Json): (r: seq<Json>)
    ensures |r| > 0
    ensures var series := Get(Get(Or(Path(themeData, ["theme", "dark"]), Obj(map[])), "chart"), "series");
            if series.Arr? && |series.items| > 0 then r == series.items else r == DefaultChartSeries
  {
    var dark := Or(Path(themeData, ["theme", "dark"]), Obj(map[]));
    var series := Get(Get(dark, "chart"), "series");
    if series.Arr? && |series.items| > 0 then series.items else DefaultChartSeries
  }

  datatype Progress = Progress(correct1: Json, correct2: Json, wrong1: Json, wrong2: Json)

  datatype ThemeTokens = ThemeTokens(chartSeries: seq<Json>, progress: Progress, pieLabel: Json, pieInner: string)

  const Correct1: Chain := Chain([Dark(["semantic", "success", "bg"])], "rgba(52,211,153,.95)")
  const Correct2: Chain :=
    Chain([Dark(["component", "progress", "successFill"]), Dark(["semantic", "success", "bg"])], "rgba(22,163,74,.95)")
  const Wrong1: Chain := Chain([Dark(["semantic", "danger", "softBg"])], "rgba(252,165,165,.95)")
  const Wrong2: Chain :=
    Chain([Dark(["component", "progress", "dangerFill"]), Dark(["semantic", "danger", "bg"])], "rgba(198,40,40,.95)")
  const PieLabel: Chain := Chain([Dark(["text", "onAccentLight"])], "#f8fbff")

  /** `buildThemeTokens(themeData)`: every token is present, whatever the
      theme file holds; each is read along its own chain of theme paths
      with its own literal as the last resort. */
  function BuildThemeTokens(themeData: Json): (t: ThemeTokens)
    ensures |t.chartSeries| > 0
    ensures Truthy(t.progress.correct1) && Truthy(t.progress.correct2)
    ensures Truthy(t.progress.wrong1) && Truthy(t.progress.wrong2) && Truthy(t.pieLabel)
    ensures t.chartSeries == ChartSeries(themeData)
    ensures t.progress.correct1 == Resolve(themeData, Correct1)
    ensures t.progress.correct2 == Resolve(themeData, Correct2)
    ensures t.progress.wrong1 == Resolve(themeData, Wrong1)
    ensures t.progress.wrong2 == Resolve(themeData, Wrong2)
    ensures t.pieLabel == Resolve(themeData, PieLabel)
    ensures t.pieInner == PieInner(themeData)
  {
    ThemeTokens(
      ChartSeries(themeData),
      Progress(Resolve(themeData, Correct1), Resolve(themeData, Correct2),
               Resolve(themeData, Wrong1), Resolve(themeData, Wrong2)),
      Resolve(themeData, PieLabel),
      PieInner(themeData))
  }

  /** Without a theme file every token is its literal: the default chart
      colours, the four progress colours, the label colour and the default
      background at 82% opacity. */
  lemma EmptyThemeTokens()
    ensures BuildThemeTokens(Null).chartSeries == DefaultChartSeries
    ensures BuildThemeTokens(Null).progress ==
              Progress(Str("rgba(52,211,153,.95)"), Str("rgba(22,163,74,.95)"),
                       Str("rgba(252,165,165,.95)"), Str("rgba(198,40,40,.95)"))
    ensures BuildThemeTokens(Null).pieLabel == Str("#f8fbff")
    ensures BuildThemeTokens(Null).pieInner == "rgba(11,15,23,0.82)"
  {
    EmptyThemeProgress();
    EmptyThemeLabelAndSeries();
    EmptyThemePieInner();
  }

  /** Without a theme file the pie label and the chart series are their
      literals. */
  lemma EmptyThemeLabelAndSeries()
    ensures Resolve(Null, PieLabel) == Str("#f8fbff")
    ensures ChartSeries(Null) == DefaultChartSeries
  {
    MissingThemeChain(PieLabel);
    PathOfMissing(["theme", "dark"]);
  }

  /** Without a theme file the four progress colours are their literals. */
  lemma EmptyThemeProgress()
    ensures Resolve(Null, Correct1) == Str("rgba(52,211,153,.95)")
    ensures Resolve(Null, Correct2) == Str("rgba(22,163,74,.95)")
    ensures Resolve(Null, Wrong1) == Str("rgba(252,165,165,.95)")
    ensures Resolve(Null, Wrong2) == Str("rgba(198,40,40,.95)")
  {
    MissingThemeChain(Correct1);
    MissingTwoSourceChain(Correct2);
    MissingThemeChain(Wrong1);
    MissingTwoSourceChain(Wrong2);
  }

  lemma MissingTwoSourceChain(c: Chain)
    requires c == Correct2 || c == Wrong2
    ensures Resolve(Null, c) == Str(c.fallback)
  {
    PathOfMissing(c.sources[0]);
    PathOfMissing(c.sources[1]);
  }
}
