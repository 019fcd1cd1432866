/** The options parser of the table-of-contents block: the option table, the
    defaults, the parse of one `name: value # comment` line, and the parse of a
    whole block of lines on top of the defaults and the plugin settings. */
module Options {

  import opened Wrappers
  import opened Text

  // ---------------------------------------------------------------------------
  // Values

  /** A JavaScript number as `Number.parseInt` produces it: an integer or NaN. */
  datatype Num = Finite(value: int) | NaN

  /** JavaScript's `n > 0`, which is false for NaN. */
  predicate IsPositive(n: Num) {
    n.Finite? && n.value > 0
  }

  datatype TocStyle = NestedList | NestedOrderedList | NestedDetailedOrderedList | InlineFirstLevel

  function StyleName(style: TocStyle): string {
    match style
    case NestedList => "nestedList"
    case NestedOrderedList => "nestedOrderedList"
    case NestedDetailedOrderedList => "nestedDetailedOrderedList"
    case InlineFirstLevel => "inlineFirstLevel"
  }

  /** The style a name stands for, if any. */
  function StyleNamed(name: string): (r: Option<TocStyle>)
    ensures forall style :: StyleName(style) == name <==> r == Some(style)
  {
    if name == "nestedList" then Some(NestedList)
    else if name == "nestedOrderedList" then Some(NestedOrderedList)
    else if name == "nestedDetailedOrderedList" then Some(NestedDetailedOrderedList)
    else if name == "inlineFirstLevel" then Some(InlineFirstLevel)
    else None
  }

  /** A `RegExp` built from a body and a flag string. */
  datatype Pattern = Pattern(source: string, flags: string)

  /** `TableOfContentsOptions`: every field always has a value. */
  datatype TocOptions = TocOptions(
    title: string,
    style: TocStyle,
    minLevel: Num,
    maxLevel: Num,
    includePattern: Option<Pattern>,
    excludePattern: Option<Pattern>,
    includeLinks: bool,
    hideWhenEmpty: bool,
    debugInConsole: bool)

  /** `DEFAULT_OPTIONS`. */
  const DefaultOptions: TocOptions :=
    TocOptions("", NestedList, Finite(0), Finite(0), None, None, true, false, false)

  /** The six plugin-level defaults that can replace the hard-coded ones. */
  datatype PluginSettings = PluginSettings(
    defaultTitle: string,
    defaultStyle: TocStyle,
    defaultMinLevel: Num,
    defaultMaxLevel: Num,
    defaultIncludeLinks: bool,
    defaultHideWhenEmpty: bool)

  // ---------------------------------------------------------------------------
  // The option table

  datatype OptionName =
    Title | Style | MinLevel | MaxLevel | Include | Exclude | IncludeLinks | HideWhenEmpty | DebugInConsole

  /** The key an option is written with. */
  function Key(name: OptionName): string {
    match name
    case Title => "title"
    case Style => "style"
    case MinLevel => "minLevel"
    case MaxLevel => "maxLevel"
    case Include => "include"
    case Exclude => "exclude"
    case IncludeLinks => "includeLinks"
    case HideWhenEmpty => "hideWhenEmpty"
    case DebugInConsole => "debugInConsole"
  }

  datatype OptionType = StringType | ValueType(values: seq<string>) | NumberType | BooleanType | RegexpType

  datatype DefaultValue = TextDefault(text: string) | NumberDefault(number: int) | BooleanDefault(flag: bool) | NullDefault

  /** The option names in the declaration order of `availableOptions`. */
  const OptionNames: seq<OptionName> :=
    [Title, Style, MinLevel, MaxLevel, Include, Exclude, IncludeLinks, HideWhenEmpty, DebugInConsole]

  /** The `values` of the `style` option. */
  const StyleValues: seq<string> := ["nestedList", "nestedOrderedList", "nestedDetailedOrderedList", "inlineFirstLevel"]

  /** The `type` (and for `style` the `values`) of each entry of `availableOptions`. */
  function Kind(name: OptionName): OptionType {
    match name
    case Title => StringType
    case Style => ValueType(StyleValues)
    case MinLevel | MaxLevel => NumberType
    case Include | Exclude => RegexpType
    case IncludeLinks | HideWhenEmpty | DebugInConsole => BooleanType
  }

  /** The `default` of each entry of `availableOptions`. */
  function DefaultOf(name: OptionName): DefaultValue {
    match name
    case Title => TextDefault("")
    case Style => TextDefault("nestedList")
    case MinLevel | MaxLevel => NumberDefault(0)
    case Include | Exclude => NullDefault
    case IncludeLinks => BooleanDefault(true)
    case HideWhenEmpty | DebugInConsole => BooleanDefault(false)
  }

  /** The `comment` of each entry of `availableOptions`; the style comment lists the
      style values, as the table writes it out. */
  function Comment(name: OptionName): string {
    match name
    case Title | Include | Exclude => ""
    case Style => StyleComment
    case MinLevel => MinLevelComment
    case MaxLevel => MaxLevelComment
    case IncludeLinks => IncludeLinksComment
    case HideWhenEmpty => HideWhenEmptyComment
    case DebugInConsole => DebugInConsoleComment
  }

  const StyleComment := "TOC style (" + Join(StyleValues, "|") + ")"
  const MinLevelComment := "Include headings from the specified level"
  const MaxLevelComment := "Include headings up to the specified level"
  const IncludeLinksComment := "Make headings clickable"
  const HideWhenEmptyComment := "Hide TOC if no headings are found"
  const DebugInConsoleComment := "Print debug info in Obsidian console"

  /** `availableOptions[key]`: the option whose key is `key`, if any. */
  function Lookup(key: string): (r: Option<OptionName>)
    ensures r.Some? ==> Key(r.value) == key
    ensures r.None? ==> forall name :: Key(name) != key
  {
    assert forall name :: name in OptionNames by {
      forall name ensures name in OptionNames {
        assert OptionNames[Position(name)] == name;
      }
    }
    LookupIn(OptionNames, key)
  }

  /** Where an option stands in `availableOptions`. */
  function Position(name: OptionName): (i: nat)
    ensures i < |OptionNames| && OptionNames[i] == name
  {
    match name
    case Title => 0
    case Style => 1
    case MinLevel => 2
    case MaxLevel => 3
    case Include => 4
    case Exclude => 5
    case IncludeLinks => 6
    case HideWhenEmpty => 7
    case DebugInConsole => 8
  }

  function LookupIn(names: seq<OptionName>, key: string): (r: Option<OptionName>)
    ensures r.Some? ==> r.value in names && Key(r.value) == key
    ensures r.None? ==> forall name :: name in names ==> Key(name) != key
    decreases |names|
  {
    if |names| == 0 then None
    else if Key(names[0]) == key then Some(names[0])
    else
      var r := LookupIn(names[1..], key);
      assert forall name :: name in names ==> name == names[0] || name in names[1..];
      r
  }

  /** Distinct options have distinct keys. */
  lemma KeyInjective(a: OptionName, b: OptionName)
    requires Key(a) == Key(b)
    ensures a == b
  {
  }

  /** Every key finds its own option. */
  lemma KeyLookup(name: OptionName)
    ensures Lookup(Key(name)) == Some(name)
  {
    KeyInjective(Lookup(Key(name)).value, name);
  }

  // ---------------------------------------------------------------------------
  // Parsed options and their assignment into the record

  /** What one line can assign: a string, a style, a number, a boolean or a pattern. */
  datatype OptionValue =
    | StringValue(text: string)
    | StyleValue(style: TocStyle)
    | NumberValue(number: Num)
    | BooleanValue(flag: bool)
    | PatternValue(pattern: Option<Pattern>)

  datatype ParsedOption = ParsedOption(name: OptionName, value: OptionValue)

  /** The single error kind: an invalid value for the named option. */
  datatype OptionError = InvalidValue(name: string)

  function ErrorMessage(e: OptionError): string {
    "Invalid value for `" + e.name + "`"
  }

  /** The value of field `name` of `o`. */
  function Get(o: TocOptions, name: OptionName): OptionValue {
    match name
    case Title => StringValue(o.title)
    case Style => StyleValue(o.style)
    case MinLevel => NumberValue(o.minLevel)
    case MaxLevel => NumberValue(o.maxLevel)
    case Include => PatternValue(o.includePattern)
    case Exclude => PatternValue(o.excludePattern)
    case IncludeLinks => BooleanValue(o.includeLinks)
    case HideWhenEmpty => BooleanValue(o.hideWhenEmpty)
    case DebugInConsole => BooleanValue(o.debugInConsole)
  }

  /** `value` has the type of field `name`. */
  predicate FitsField(name: OptionName, value: OptionValue) {
    match name
    case Title => value.StringValue?
    case Style => value.StyleValue?
    case MinLevel | MaxLevel => value.NumberValue?
    case Include | Exclude => value.PatternValue?
    case IncludeLinks | HideWhenEmpty | DebugInConsole => value.BooleanValue?
  }

  /** `options[p.name] = p.value`; a value of the wrong type leaves the record as it is. */
  function Assign(o: TocOptions, p: ParsedOption): (r: TocOptions)
    ensures FitsField(p.name, p.value) ==> Get(r, p.name) == p.value
    ensures forall n :: n != p.name ==> Get(r, n) == Get(o, n)
  {
    match (p.name, p.value)
    case (Title, StringValue(t)) => o.(title := t)
    case (Style, StyleValue(s)) => o.(style := s)
    case (MinLevel, NumberValue(n)) => o.(minLevel := n)
    case (MaxLevel, NumberValue(n)) => o.(maxLevel := n)
    case (Include, PatternValue(x)) => o.(includePattern := x)
    case (Exclude, PatternValue(x)) => o.(excludePattern := x)
    case (IncludeLinks, BooleanValue(b)) => o.(includeLinks := b)
    case (HideWhenEmpty, BooleanValue(b)) => o.(hideWhenEmpty := b)
    case (DebugInConsole, BooleanValue(b)) => o.(debugInConsole := b)
    case _ => o
  }

  /** A record is determined by the values of its nine fields. */
  lemma FieldsDetermineRecord(a: TocOptions, b: TocOptions)
    requires forall n :: Get(a, n) == Get(b, n)
    ensures a == b
  {
    assert Get(a, Title) == Get(b, Title) && Get(a, Style) == Get(b, Style);
    assert Get(a, MinLevel) == Get(b, MinLevel) && Get(a, MaxLevel) == Get(b, MaxLevel);
    assert Get(a, Include) == Get(b, Include) && Get(a, Exclude) == Get(b, Exclude);
    assert Get(a, IncludeLinks) == Get(b, IncludeLinks) && Get(a, HideWhenEmpty) == Get(b, HideWhenEmpty);
    assert Get(a, DebugInConsole) == Get(b, DebugInConsole);
  }

  // ---------------------------------------------------------------------------
  // `Number.parseInt` (radix left undefined)

  predicate IsDigit(c: char) {
    '0' <= c <= '9'
  }

  predicate IsHexDigit(c: char) {
    IsDigit(c) || 'a' <= c <= 'f' || 'A' <= c <= 'F'
  }

  function HexDigitValue(c: char): nat
    requires IsHexDigit(c)
  {
    if IsDigit(c) then c as nat - '0' as nat
    else if 'a' <= c <= 'f' then c as nat - 'a' as nat + 10
    else c as nat - 'A' as nat + 10
  }

  /** The longest prefix of `s` whose characters satisfy `digit`. */
  function DigitRun(s: string, hex: bool): (r: string)
    ensures |r| <= |s| && r == s[..|r|]
    ensures forall k :: 0 <= k < |r| ==> (if hex then IsHexDigit(r[k]) else IsDigit(r[k]))
    ensures |r| < |s| ==> !(if hex then IsHexDigit(s[|r|]) else IsDigit(s[|r|]))
    decreases |s|
  {
    if |s| > 0 && (if hex then IsHexDigit(s[0]) else IsDigit(s[0])) then [s[0]] + DigitRun(s[1..], hex)
    else ""
  }

  /** The value of a digit string in base 10 or 16. */
  function DigitsValue(d: string, hex: bool): nat
    requires forall k :: 0 <= k < |d| ==> IsHexDigit(d[k])
    decreases |d|
  {
    if |d| == 0 then 0
    else DigitsValue(d[..|d| - 1], hex) * (if hex then 16 else 10) + HexDigitValue(d[|d| - 1])
  }

  /** `Number.parseInt(s)`: leading white space is skipped, then an optional sign,
      then an optional `0x`/`0X` prefix that switches to base 16; the longest run of
      digits that follows gives the value, and no digits at all give NaN. */
  function ParseInt(s: string): Num {
    ParseSigned(TrimStart(s))
  }

  /** `parseInt` after the leading white space: an optional sign, then the magnitude. */
  function ParseSigned(t: string): Num {
    if |t| > 0 && (t[0] == '-' || t[0] == '+') then ParseMagnitude(t[1..], t[0] == '-')
    else ParseMagnitude(t, false)
  }

  /** `parseInt` after the sign: an optional `0x`/`0X` prefix, then the digits. */
  function ParseMagnitude(u: string, negative: bool): Num {
    var hex := |u| >= 2 && u[0] == '0' && (u[1] == 'x' || u[1] == 'X');
    var digits := DigitRun(if hex then u[2..] else u, hex);
    if |digits| == 0 then NaN
    else
      var magnitude: int := DigitsValue(digits, hex);
      Finite(if negative then -magnitude else magnitude)
  }

  /** Decimal text of a natural number, as `${n}` writes it. */
  function NatToString(n: nat): (r: string)
    ensures |r| > 0 && forall k :: 0 <= k < |r| ==> IsDigit(r[k])
    ensures |r| > 1 ==> r[0] != '0'
  {
    if n < 10 then ["0123456789"[n]]
    else NatToString(n / 10) + ["0123456789"[n % 10]]
  }

  function IntToString(n: int): string {
    if n < 0 then "-" + NatToString(-n) else NatToString(n)
  }

  lemma {:induction false} NatToStringValue(n: nat)
    ensures DigitsValue(NatToString(n), false) == n
    ensures DigitRun(NatToString(n), false) == NatToString(n)
  {
    var s := NatToString(n);
    DigitRunOfDigits(s);
    if n >= 10 {
      NatToStringValue(n / 10);
      assert s[..|s| - 1] == NatToString(n / 10);
    }
  }

  lemma {:induction false} DigitRunOfDigits(s: string)
    requires forall k :: 0 <= k < |s| ==> IsDigit(s[k])
    ensures DigitRun(s, false) == s
    decreases |s|
  {
    if |s| > 0 {
      DigitRunOfDigits(s[1..]);
      assert [s[0]] + s[1..] == s;
    }
  }

  /** `parseInt` reads back what number-to-text conversion writes. */
  lemma ParseIntOfIntToString(n: int)
    ensures ParseInt(IntToString(n)) == Finite(n)
  {
    var m: nat := if n < 0 then -n else n;
    NatToStringValue(m);
    var d := NatToString(m);
    ParseIntOfDigits(n < 0, d);
    assert IntToString(n) == (if n < 0 then "-" else "") + d by {
      if n >= 0 {
        assert "" + d == d;
      }
    }
  }

  /** An optional minus sign, then decimal digits without a leading zero. */
  lemma ParseIntOfDigits(negative: bool, d: string)
    requires |d| > 0 && forall k :: 0 <= k < |d| ==> IsDigit(d[k])
    requires |d| > 1 ==> d[0] != '0'
    ensures ParseInt((if negative then "-" else "") + d)
         == Finite(if negative then -(DigitsValue(d, false) as int) else DigitsValue(d, false))
  {
    if negative {
      NegativeDigits(d);
    } else {
      assert "" + d == d;
      NonNegativeDigits(d);
    }
  }

  lemma NegativeDigits(d: string)
    requires |d| > 0 && forall k :: 0 <= k < |d| ==> IsDigit(d[k])
    requires |d| > 1 ==> d[0] != '0'
    ensures ParseInt("-" + d) == Finite(-(DigitsValue(d, false) as int))
  {
    var s := "-" + d;
    TrimStartKeeps(s);
    assert s[1..] == d;
    MagnitudeOfDigits(d, true);
  }

  lemma NonNegativeDigits(d: string)
    requires |d| > 0 && forall k :: 0 <= k < |d| ==> IsDigit(d[k])
    requires |d| > 1 ==> d[0] != '0'
    ensures ParseInt(d) == Finite(DigitsValue(d, false))
  {
    TrimStartKeeps(d);
    assert !(d[0] == '-' || d[0] == '+');
    MagnitudeOfDigits(d, false);
  }

  /** A text that starts with a non-space is its own start-trimmed form. */
  lemma TrimStartKeeps(s: string)
    requires |s| > 0 && (s[0] == '-' || IsDigit(s[0]))
    ensures TrimStart(s) == s
  {
    assert !IsSpace(s[0]);
  }

  lemma MagnitudeOfDigits(d: string, negative: bool)
    requires |d| > 0 && forall k :: 0 <= k < |d| ==> IsDigit(d[k])
    requires |d| > 1 ==> d[0] != '0'
    ensures ParseMagnitude(d, negative)
         == Finite(if negative then -(DigitsValue(d, false) as int) else DigitsValue(d, false))
  {
    assert !(|d| >= 2 && d[0] == '0');
    DigitRunOfDigits(d);
    var digits := DigitRun(d, false);
    assert |digits| > 0;
  }

  // ---------------------------------------------------------------------------
  // The line regex `([a-zA-Z0-9._ ]+):(.*)`, unanchored

  predicate IsNameChar(c: char) {
    'a' <= c <= 'z' || 'A' <= c <= 'Z' || '0' <= c <= '9' || c == '.' || c == '_' || c == ' '
  }

  /** The regex matches with its name group at `s[i..k]` and the colon at `k`. */
  predicate IsNameMatch(s: string, i: int, k: int) {
    0 <= i < k < |s| && s[k] == ':' && forall m :: i <= m < k ==> IsNameChar(s[m])
  }

  /** At a given start, the name group can end in one place only. */
  lemma NameMatchUnique(s: string, i: int, k: int, k': int)
    requires IsNameMatch(s, i, k) && IsNameMatch(s, i, k')
    ensures k == k'
  {
  }

  /** End of the run of name characters that starts at `i`. */
  function NameRunEnd(s: string, i: nat): (j: nat)
    requires i <= |s|
    ensures i <= j <= |s|
    ensures forall m :: i <= m < j ==> IsNameChar(s[m])
    ensures j == |s| || !IsNameChar(s[j])
    decreases |s| - i
  {
    if i < |s| && IsNameChar(s[i]) then NameRunEnd(s, i + 1) else i
  }

  /** The leftmost match starting at or after `i`, as the regex engine finds it: the
      first start position from which a run of name characters reaches a colon. */
  function FindNameMatch(s: string, i: nat): (r: Option<(nat, nat)>)
    requires i <= |s|
    ensures r.Some? ==> i <= r.value.0 && IsNameMatch(s, r.value.0, r.value.1)
    ensures r.Some? ==> forall a, b :: i <= a < r.value.0 ==> !IsNameMatch(s, a, b)
    ensures r.None? ==> forall a, b :: i <= a ==> !IsNameMatch(s, a, b)
    decreases |s| - i
  {
    if i == |s| then None
    else if !IsNameChar(s[i]) then
      FindNameMatch(s, i + 1)
    else
      var j := NameRunEnd(s, i);
      if j < |s| && s[j] == ':' then Some((i, j))
      else
        FindNameMatch(s, j)
  }

  /** A name of name characters followed by a colon is matched at the very start. */
  lemma NameMatchAtStart(name: string, rest: string)
    requires |name| > 0 && forall m :: 0 <= m < |name| ==> IsNameChar(name[m])
    ensures FindNameMatch(name + ":" + rest, 0) == Some((0, |name|))
  {
    var s := name + ":" + rest;
    assert IsNameMatch(s, 0, |name|);
    assert NameRunEnd(s, 0) == |name| by {
      NameRunEndAt(s, 0, |name|);
    }
  }

  lemma {:induction false} NameRunEndAt(s: string, i: nat, j: nat)
    requires i <= j < |s| && !IsNameChar(s[j])
    requires forall m :: i <= m < j ==> IsNameChar(s[m])
    ensures NameRunEnd(s, i) == j
    decreases j - i
  {
    if i < j {
      NameRunEndAt(s, i + 1, j);
    }
  }

  // ---------------------------------------------------------------------------
  // Value texts

  /** `value.replace(/#[^#]*$/, '')`: everything from the last `#` on is dropped. */
  function StripTrailingComment(v: string): (r: string)
    ensures '#' !in v ==> r == v
    ensures '#' in v ==> |r| < |v| && r == v[..|r|] && v[|r|] == '#' && '#' !in v[|r| + 1..]
  {
    match LastIndexOf(v, '#')
    case None => v
    case Some(p) => v[..p]
  }

  /** The last `#` of a text whose tail after it has none is that one. */
  lemma StripTrailingCommentAt(a: string, c: string)
    requires '#' !in c
    ensures StripTrailingComment(a + "#" + c) == a
  {
    var v := a + "#" + c;
    assert v[|a|] == '#';
    var r := StripTrailingComment(v);
  }

  /** The longest run of lower-case ASCII letters at the start of `s`: `[a-z]*`. */
  function LowercaseRun(s: string): (r: string)
    ensures |r| <= |s| && r == s[..|r|]
    ensures forall k :: 0 <= k < |r| ==> 'a' <= r[k] <= 'z'
    ensures |r| < |s| ==> !('a' <= s[|r|] <= 'z')
    decreases |s|
  {
    if |s| > 0 && 'a' <= s[0] <= 'z' then [s[0]] + LowercaseRun(s[1..]) else ""
  }

  /** `/^\/(.*)\/([a-z]*)/.exec(v)`: a leading slash, the body up to the last slash
      that `.*` can reach (it stops at a line terminator), and the lower-case flags
      right after it; anything after the flags is ignored. */
  function RegexpLiteral(v: string): (r: Option<Pattern>)
    ensures r.None? <==> |v| == 0 || v[0] != '/' || '/' !in UpToLineTerminator(v[1..])
    ensures r.Some? ==>
      var n := |r.value.source|;
      && n + 2 <= |v| && v[0] == '/' && v[1..n + 1] == r.value.source && v[n + 1] == '/'
      && (forall k :: 0 <= k < n ==> !IsLineTerminator(r.value.source[k]))
      && '/' !in UpToLineTerminator(v[n + 2..])
      && r.value.flags == LowercaseRun(v[n + 2..])
  {
    if |v| == 0 || v[0] != '/' then None
    else
      var reach := UpToLineTerminator(v[1..]);
      match LastIndexOf(reach, '/')
      case None => None
      case Some(k) =>
        RegexpParts(v, k);
        Some(Pattern(reach[..k], LowercaseRun(v[k + 2..])))
  }

  /** The body of a literal whose last reachable slash is at `k + 1`. */
  lemma RegexpParts(v: string, k: nat)
    requires |v| > 0 && v[0] == '/'
    requires LastIndexOf(UpToLineTerminator(v[1..]), '/') == Some(k)
    ensures var reach := UpToLineTerminator(v[1..]);
      && k + 2 <= |v| && v[1..k + 1] == reach[..k] && v[k + 1] == '/'
      && (forall j :: 0 <= j < k ==> !IsLineTerminator(reach[..k][j]))
      && '/' !in UpToLineTerminator(v[k + 2..])
  {
    var reach := UpToLineTerminator(v[1..]);
    assert reach[k + 1..] == UpToLineTerminator(v[k + 2..]) by {
      UpToLineTerminatorDrop(v[1..], k + 1);
      assert v[1..][k + 1..] == v[k + 2..];
    }
    assert reach[..k] == v[1..k + 1] && v[k + 1] == '/' by {
      assert reach == v[1..][..|reach|];
    }
    assert forall j :: 0 <= j < k ==> reach[..k][j] == reach[j];
  }

  /** What `.*` reaches from a later start inside its reach is the rest of that reach. */
  lemma {:induction false} UpToLineTerminatorDrop(s: string, k: nat)
    requires k <= |UpToLineTerminator(s)|
    ensures UpToLineTerminator(s)[k..] == UpToLineTerminator(s[k..])
    decreases k
  {
    if k > 0 {
      UpToLineTerminatorDrop(s[1..], k - 1);
      assert s[1..][k - 1..] == s[k..];
    }
  }

  /** Title values that stand for the empty string. */
  predicate IsEmptyTitleSentinel(v: string) {
    v == "null" || v == "\"\"" || v == "''"
  }

  /** Type-specific parsing and validation of the value of a known option. */
  function ParseValue(name: OptionName, key: string, v: string,
                      compiles: (string, string) -> bool): (r: Result<Option<ParsedOption>, OptionError>)
    ensures r.Failure? ==> r.error == InvalidValue(key)
    ensures r.Success? && r.value.Some? ==> r.value.value.name == name && FitsField(name, r.value.value.value)
    ensures Kind(name) == NumberType ==>
      (r.Failure? <==> ParseInt(v).Finite? && ParseInt(v).value < 0)
      && (r.Success? ==> r.value == Some(ParsedOption(name, NumberValue(ParseInt(v)))))
    ensures Kind(name) == BooleanType ==>
      (r.Failure? <==> v != "true" && v != "false")
      && (r.Success? ==> r.value == Some(ParsedOption(name, BooleanValue(v == "true"))))
    ensures Kind(name).ValueType? ==>
      (r.Failure? <==> v !in Kind(name).values || StyleNamed(v).None?)
      && (r.Success? ==> r.value == Some(ParsedOption(name, StyleValue(StyleNamed(v).value))))
    ensures Kind(name) == StringType ==>
      r == Success(Some(ParsedOption(name, StringValue(if IsEmptyTitleSentinel(v) then "" else v))))
    ensures Kind(name) == RegexpType ==>
      (r == Success(None) <==> v == "null" || v == "")
      && (r.Failure? <==> v != "null" && v != "" &&
                          (RegexpLiteral(v).None? || !compiles(RegexpLiteral(v).value.source, RegexpLiteral(v).value.flags)))
      && (r.Success? && r.value.Some? ==> r.value.value.value == PatternValue(RegexpLiteral(v)))
  {
    var invalid := Failure(InvalidValue(key));
    match Kind(name)
    case NumberType =>
      var n := ParseInt(v);
      if n.Finite? && n.value < 0 then invalid else Success(Some(ParsedOption(name, NumberValue(n))))
    case BooleanType =>
      if v != "true" && v != "false" then invalid
      else Success(Some(ParsedOption(name, BooleanValue(v == "true"))))
    case ValueType(values) =>
      if v !in values then invalid
      else (
        match StyleNamed(v)
        case None => invalid
        case Some(style) => Success(Some(ParsedOption(name, StyleValue(style)))))
    case StringType =>
      Success(Some(ParsedOption(name, StringValue(if IsEmptyTitleSentinel(v) then "" else v))))
    case RegexpType =>
      if v == "null" || |v| == 0 then Success(None)
      else
        match RegexpLiteral(v)
        case None => invalid
        case Some(p) => if compiles(p.source, p.flags) then Success(Some(ParsedOption(name, PatternValue(Some(p))))) else invalid
  }

  /** The value text handed to the type-specific parser: comments are stripped for
      every kind except strings and regular expressions, which may contain `#`. */
  function ValueText(kind: OptionType, raw: string): string {
    if kind.StringType? || kind.RegexpType? then raw else Trim(StripTrailingComment(raw))
  }

  /** The key and the trimmed value text the line regex extracts, if it matches. */
  function SplitLine(line: string): (r: Option<(string, string)>)
    ensures r.None? <==> FindNameMatch(line, 0).None?
  {
    match FindNameMatch(line, 0)
    case None => None
    case Some((a, b)) => Some((Trim(line[a..b]), Trim(UpToLineTerminator(line[b + 1..]))))
  }

  /** The option a key and a value text assign, if the key is known. */
  function ParseNamed(key: string, raw: string, compiles: (string, string) -> bool)
    : (r: Result<Option<ParsedOption>, OptionError>)
    ensures r.Failure? ==> exists name :: r.error == InvalidValue(Key(name))
    ensures r.Success? && r.value.Some? ==> FitsField(r.value.value.name, r.value.value.value)
  {
    match Lookup(key)
    case None => Success(None)
    case Some(name) => ParseValue(name, key, ValueText(Kind(name), raw), compiles)
  }

  /** `parseOptionFromSourceLine`: `None` for a line that assigns nothing, a parsed
      option, or the error that aborts the whole parse. */
  function ParseOptionFromSourceLine(line: string, compiles: (string, string) -> bool)
    : (r: Result<Option<ParsedOption>, OptionError>)
    ensures |line| > 0 && line[0] == '#' ==> r == Success(None)
    ensures FindNameMatch(line, 0).None? ==> r == Success(None)
    ensures r.Failure? ==> exists name :: r.error == InvalidValue(Key(name))
    ensures r.Success? && r.value.Some? ==> FitsField(r.value.value.name, r.value.value.value)
  {
    if |line| > 0 && line[0] == '#' then Success(None)
    else
      match SplitLine(line)
      case None => Success(None)
      case Some((key, raw)) => ParseNamed(key, raw, compiles)
  }

  predicate Letters(s: string) {
    forall m :: 0 <= m < |s| ==> 'a' <= s[m] <= 'z' || 'A' <= s[m] <= 'Z'
  }

  /** Keys are non-empty runs of letters. */
  lemma KeyShape(name: OptionName)
    ensures |Key(name)| > 0
    ensures forall m :: 0 <= m < |Key(name)| ==> IsNameChar(Key(name)[m]) && !IsSpace(Key(name)[m])
  {
    KeyLetters(name);
  }

  lemma KeyLetters(name: OptionName)
    ensures |Key(name)| > 0 && Letters(Key(name))
  {
    match name
    case Title =>
    case Style =>
    case MinLevel =>
    case MaxLevel =>
    case Include =>
    case Exclude =>
    case IncludeLinks =>
    case HideWhenEmpty =>
    case DebugInConsole =>
  }

  /** A key of name characters without white space at its ends is split off at the
      colon that follows it. */
  lemma SplitKeyLine(key: string, rest: string)
    requires |key| > 0 && forall m :: 0 <= m < |key| ==> IsNameChar(key[m]) && !IsSpace(key[m])
    ensures SplitLine(key + ":" + rest) == Some((key, Trim(UpToLineTerminator(rest))))
  {
    var line := key + ":" + rest;
    NameMatchAtStart(key, rest);
    assert line[0..|key|] == key;
    TrimOfTrimmed(key);
    assert line[|key| + 1..] == rest;
  }

  /** A line of a known key is split at the colon right after the key. */
  lemma ParseKeyLine(name: OptionName, rest: string, compiles: (string, string) -> bool)
    ensures ParseOptionFromSourceLine(Key(name) + ":" + rest, compiles)
         == ParseValue(name, Key(name), ValueText(Kind(name), Trim(UpToLineTerminator(rest))), compiles)
  {
    KeyShape(name);
    SplitKeyLine(Key(name), rest);
    assert (Key(name) + ":" + rest)[0] == Key(name)[0];
    KeyLookup(name);
  }

  lemma {:induction false} UpToLineTerminatorWhole(s: string)
    requires forall k :: 0 <= k < |s| ==> !IsLineTerminator(s[k])
    ensures UpToLineTerminator(s) == s
  {
  }

  // ---------------------------------------------------------------------------
  // Comments

  /** For a value without `#`, stripping comments changes nothing but the trim. */
  lemma CommentFreeValue(a: string)
    requires '#' !in a
    ensures Trim(StripTrailingComment(Trim(a))) == Trim(a)
  {
    var t := Trim(a);
    var i: nat :| IsTrimmedSlice(a, i, t);
    assert '#' !in t by {
      forall k | 0 <= k < |t| ensures t[k] != '#' {
        assert t[k] == a[i + k];
      }
    }
    TrimOfTrimmed(t);
  }

  /** The text after the last `#` is dropped, whatever white space surrounds the value. */
  lemma CommentStripOfTrim(a: string, c: string)
    requires '#' !in c
    ensures Trim(StripTrailingComment(Trim(a + "#" + c))) == Trim(a)
  {
    var t := TrimStart(a);
    var e := TrimEnd(c);
    TrimThrough(a, '#', c);
    TrimEndExcludes(c, '#');
    HashJoins(a, c);
    HashJoins(t, e);
    StripTrailingCommentAt(t, e);
    TrimStartTwice(a);
  }

  lemma HashJoins(a: string, c: string)
    ensures a + "#" + c == a + ['#'] + c
  {
  }

  /** A trailing comment on a number, boolean or style option does not change what
      the line assigns. */
  lemma TrailingCommentIgnored(name: OptionName, v: string, c: string, compiles: (string, string) -> bool)
    requires !Kind(name).StringType? && !Kind(name).RegexpType?
    requires '#' !in v && '#' !in c
    requires forall k :: 0 <= k < |v| ==> !IsLineTerminator(v[k])
    requires forall k :: 0 <= k < |c| ==> !IsLineTerminator(c[k])
    ensures ParseOptionFromSourceLine(Key(name) + ":" + v + "#" + c, compiles)
         == ParseOptionFromSourceLine(Key(name) + ":" + v, compiles)
  {
    var rest := v + "#" + c;
    assert forall k :: 0 <= k < |rest| ==> !IsLineTerminator(rest[k]) by {
      forall k | 0 <= k < |rest| ensures !IsLineTerminator(rest[k]) {
        if k < |v| { assert rest[k] == v[k]; }
        else if k > |v| { assert rest[k] == c[k - |v| - 1]; }
      }
    }
    assert Key(name) + ":" + v + "#" + c == Key(name) + ":" + rest;
    ParseKeyLine(name, rest, compiles);
    ParseKeyLine(name, v, compiles);
    UpToLineTerminatorWhole(rest);
    UpToLineTerminatorWhole(v);
    CommentStripOfTrim(v, c);
    CommentFreeValue(v);
  }

  /** A title keeps a `#` and everything after it. */
  lemma TitleKeepsHash(v: string, compiles: (string, string) -> bool)
    requires forall k :: 0 <= k < |v| ==> !IsLineTerminator(v[k])
    requires !IsEmptyTitleSentinel(Trim(v))
    ensures ParseOptionFromSourceLine("title:" + v, compiles)
         == Success(Some(ParsedOption(Title, StringValue(Trim(v)))))
  {
    assert Key(Title) == "title";
    assert "title" + ":" == "title:";
    assert Key(Title) + ":" + v == "title:" + v;
    ParseKeyLine(Title, v, compiles);
    UpToLineTerminatorWhole(v);
    assert ValueText(Kind(Title), Trim(UpToLineTerminator(v))) == Trim(v);
  }

  /** A regular-expression option keeps a `#` and everything after it in its value. */
  lemma PatternKeepsHash(name: OptionName, v: string, compiles: (string, string) -> bool)
    requires Kind(name) == RegexpType
    requires forall k :: 0 <= k < |v| ==> !IsLineTerminator(v[k])
    ensures ParseOptionFromSourceLine(Key(name) + ":" + v, compiles)
         == ParseValue(name, Key(name), Trim(v), compiles)
  {
    ParseKeyLine(name, v, compiles);
    UpToLineTerminatorWhole(v);
  }

  /** A comment line, a line without `name:` and a line naming no option assign nothing. */
  lemma UnknownKeyIgnored(line: string, compiles: (string, string) -> bool)
    requires SplitLine(line).Some? ==> forall name :: Key(name) != SplitLine(line).value.0
    ensures ParseOptionFromSourceLine(line, compiles) == Success(None)
  {
    if SplitLine(line).Some? {
      assert Lookup(SplitLine(line).value.0).None?;
    }
  }

  // ---------------------------------------------------------------------------
  // The whole block

  /** The options before any line of the block: the defaults, with the six plugin
      settings laid over them when there are settings. */
  function Base(settings: Option<PluginSettings>): (o: TocOptions)
    ensures settings.None? ==> o == DefaultOptions
    ensures o.includePattern == DefaultOptions.includePattern && o.excludePattern == DefaultOptions.excludePattern
    ensures o.debugInConsole == DefaultOptions.debugInConsole
    ensures settings.Some? ==>
      && o.title == settings.value.defaultTitle && o.style == settings.value.defaultStyle
      && o.minLevel == settings.value.defaultMinLevel && o.maxLevel == settings.value.defaultMaxLevel
      && o.includeLinks == settings.value.defaultIncludeLinks && o.hideWhenEmpty == settings.value.defaultHideWhenEmpty
  {
    match settings
    case None => DefaultOptions
    case Some(s) =>
      DefaultOptions.(title := s.defaultTitle, style := s.defaultStyle, minLevel := s.defaultMinLevel,
                      maxLevel := s.defaultMaxLevel, includeLinks := s.defaultIncludeLinks,
                      hideWhenEmpty := s.defaultHideWhenEmpty)
  }

  /** A parser of one line of the block. The facts about the fold below hold for any
      such parser; `LineParser` is the one of the source. */
  type Parser = string -> Result<Option<ParsedOption>, OptionError>

  function LineParser(compiles: (string, string) -> bool): Parser {
    line => ParseOptionFromSourceLine(line, compiles)
  }

  /** One line applied to the options: its option assigned, nothing, or its error. */
  function ApplyLine(o: TocOptions, line: string, parse: Parser): Result<TocOptions, OptionError> {
    match parse(line)
    case Failure(e) => Failure(e)
    case Success(None) => Success(o)
    case Success(Some(p)) => Success(Assign(o, p))
  }

  /** The lines of the block applied in order; the first invalid value aborts. */
  function ApplyLines(o: TocOptions, lines: seq<string>, parse: Parser): Result<TocOptions, OptionError>
    decreases |lines|
  {
    if |lines| == 0 then Success(o)
    else
      match ApplyLine(o, lines[0], parse)
      case Failure(e) => Failure(e)
      case Success(o') => ApplyLines(o', lines[1..], parse)
  }

  /** `parseOptionsFromSourceText` as a function of its inputs. */
  function ParseOptions(sourceText: string, settings: Option<PluginSettings>, compiles: (string, string) -> bool)
    : Result<TocOptions, OptionError>
  {
    ApplyLines(Base(settings), Split(sourceText, '\n'), LineParser(compiles))
  }

  /** `parseOptionsFromSourceText`: start from the defaults, lay the plugin settings
      over them, then assign the option of each line of the block in turn. */
  method ParseOptionsFromSourceText(sourceText: string, settings: Option<PluginSettings>,
                                    compiles: (string, string) -> bool)
    returns (r: Result<TocOptions, OptionError>)
    ensures r == ParseOptions(sourceText, settings, compiles)
  {
    var options := Base(settings);
    var lines := Split(sourceText, '\n');
    var i := 0;
    while i < |lines|
      invariant 0 <= i <= |lines|
      invariant ApplyLines(options, lines[i..], LineParser(compiles)) == ParseOptions(sourceText, settings, compiles)
    {
      var parsed := ParseOptionFromSourceLine(lines[i], compiles);
      ApplyFrom(options, lines, i, LineParser(compiles));
      assert LineParser(compiles)(lines[i]) == parsed;
      if parsed.Failure? {
        return Failure(parsed.error);
      }
      if parsed.value.Some? {
        options := Assign(options, parsed.value.value);
      }
      i := i + 1;
    }
    return Success(options);
  }

  /** One step of the fold, at line `k`. */
  lemma ApplyFrom(o: TocOptions, lines: seq<string>, k: nat, parse: Parser)
    requires k < |lines|
    ensures ApplyLines(o, lines[k..], parse)
         == match ApplyLine(o, lines[k], parse)
            case Failure(e) => Failure(e)
            case Success(o') => ApplyLines(o', lines[k + 1..], parse)
  {
    assert lines[k..][0] == lines[k];
    assert lines[k..][1..] == lines[k + 1..];
  }

  /** Applying `a + b` is applying `a`, then `b` to what it produced. */
  lemma {:induction false} ApplyLinesConcat(o: TocOptions, a: seq<string>, b: seq<string>, parse: Parser)
    ensures ApplyLines(o, a + b, parse)
         == match ApplyLines(o, a, parse)
            case Failure(e) => Failure(e)
            case Success(o') => ApplyLines(o', b, parse)
    decreases |a|
  {
    if |a| == 0 {
      assert a + b == b;
    } else {
      assert (a + b)[0] == a[0] && (a + b)[1..] == a[1..] + b;
      match ApplyLine(o, a[0], parse)
      case Failure(e) =>
      case Success(o') => ApplyLinesConcat(o', a[1..], b, parse);
    }
  }

  /** What a line assigns, if it parses and assigns something. */
  function Assigned(line: string, parse: Parser): Option<ParsedOption> {
    match parse(line)
    case Success(Some(p)) => Some(p)
    case _ => None
  }

  predicate Writes(line: string, name: OptionName, parse: Parser) {
    Assigned(line, parse).Some? && Assigned(line, parse).value.name == name
  }

  /** A field no line writes keeps its value. */
  lemma {:induction false} UnwrittenFieldKept(o: TocOptions, lines: seq<string>, name: OptionName, parse: Parser)
    requires ApplyLines(o, lines, parse).Success?
    requires forall k :: 0 <= k < |lines| ==> !Writes(lines[k], name, parse)
    ensures Get(ApplyLines(o, lines, parse).value, name) == Get(o, name)
    decreases |lines|
  {
    if |lines| > 0 {
      assert !Writes(lines[0], name, parse);
      assert forall k :: 0 <= k < |lines| - 1 ==> lines[1..][k] == lines[k + 1];
      UnwrittenFieldKept(ApplyLine(o, lines[0], parse).value, lines[1..], name, parse);
    }
  }

  /** When an option is written more than once, the last line that writes it wins. */
  lemma LastWriteWins(o: TocOptions, lines: seq<string>, k: nat, parse: Parser)
    requires ApplyLines(o, lines, parse).Success?
    requires k < |lines| && Assigned(lines[k], parse).Some?
    requires FitsField(Assigned(lines[k], parse).value.name, Assigned(lines[k], parse).value.value)
    requires forall j :: k < j < |lines| ==> !Writes(lines[j], Assigned(lines[k], parse).value.name, parse)
    ensures Get(ApplyLines(o, lines, parse).value, Assigned(lines[k], parse).value.name)
         == Assigned(lines[k], parse).value.value
  {
    var p := Assigned(lines[k], parse).value;
    var pre := lines[..k];
    assert lines == pre + lines[k..];
    ApplyLinesConcat(o, pre, lines[k..], parse);
    var before := ApplyLines(o, pre, parse).value;
    var after := Assign(before, p);
    assert ApplyLine(before, lines[k], parse) == Success(after);
    ApplyFrom(before, lines, k, parse);
    var rest := lines[k + 1..];
    assert forall j :: 0 <= j < |rest| ==> rest[j] == lines[k + 1 + j];
    UnwrittenFieldKept(after, rest, p.name, parse);
  }

  /** For the parser of the source, the last line that writes an option decides its value. */
  lemma LastLineWins(o: TocOptions, lines: seq<string>, k: nat, compiles: (string, string) -> bool)
    requires ApplyLines(o, lines, LineParser(compiles)).Success?
    requires k < |lines| && Assigned(lines[k], LineParser(compiles)).Some?
    requires forall j :: k < j < |lines| ==>
      !Writes(lines[j], Assigned(lines[k], LineParser(compiles)).value.name, LineParser(compiles))
    ensures Get(ApplyLines(o, lines, LineParser(compiles)).value, Assigned(lines[k], LineParser(compiles)).value.name)
         == Assigned(lines[k], LineParser(compiles)).value.value
  {
    assert LineParser(compiles)(lines[k]) == ParseOptionFromSourceLine(lines[k], compiles);
    LastWriteWins(o, lines, k, LineParser(compiles));
  }

  /** Line `k` is the first line whose value is invalid. */
  predicate FirstFailingLine(lines: seq<string>, k: int, parse: Parser) {
    0 <= k < |lines| && parse(lines[k]).Failure?
    && forall j :: 0 <= j < k ==> parse(lines[j]).Success?
  }

  /** The block fails exactly when one of its lines does, with the error of the first
      such line, whatever the options were before. */
  lemma {:induction false} FirstErrorAborts(o: TocOptions, lines: seq<string>, parse: Parser)
    ensures ApplyLines(o, lines, parse).Failure? <==> exists k :: FirstFailingLine(lines, k, parse)
    ensures forall k :: FirstFailingLine(lines, k, parse) ==>
      ApplyLines(o, lines, parse) == Failure(parse(lines[k]).error)
    decreases |lines|
  {
    if |lines| > 0 {
      var first := parse(lines[0]);
      if first.Failure? {
        assert FirstFailingLine(lines, 0, parse);
        forall k | FirstFailingLine(lines, k, parse) ensures k == 0 {
        }
      } else {
        FirstErrorAborts(ApplyLine(o, lines[0], parse).value, lines[1..], parse);
        forall k ensures FirstFailingLine(lines, k, parse) <==> k >= 1 && FirstFailingLine(lines[1..], k - 1, parse) {
          if 1 <= k < |lines| {
            assert forall j :: 0 <= j < k - 1 ==> lines[1..][j] == lines[j + 1];
            assert lines[1..][k - 1] == lines[k];
          }
        }
        if ApplyLines(o, lines, parse).Failure? {
          var k' :| FirstFailingLine(lines[1..], k', parse);
          assert FirstFailingLine(lines, k' + 1, parse);
        }
      }
    }
  }

  /** Lines that assign nothing leave the options as they were. */
  lemma {:induction false} InertLinesKeepOptions(o: TocOptions, lines: seq<string>, parse: Parser)
    requires forall k :: 0 <= k < |lines| ==> parse(lines[k]) == Success(None)
    ensures ApplyLines(o, lines, parse) == Success(o)
    decreases |lines|
  {
    if |lines| > 0 {
      assert forall k :: 0 <= k < |lines| - 1 ==> lines[1..][k] == lines[k + 1];
      InertLinesKeepOptions(o, lines[1..], parse);
    }
  }

  /** The options a run of lines gives when each line assigns the given option, or nothing. */
  function AssignAll(o: TocOptions, ps: seq<Option<ParsedOption>>): TocOptions
    decreases |ps|
  {
    if |ps| == 0 then o
    else AssignAll(if ps[0].Some? then Assign(o, ps[0].value) else o, ps[1..])
  }

  /** Assigning `a + b` is assigning `a`, then `b`. */
  lemma {:induction false} AssignAllConcat(o: TocOptions, a: seq<Option<ParsedOption>>, b: seq<Option<ParsedOption>>)
    ensures AssignAll(o, a + b) == AssignAll(AssignAll(o, a), b)
    decreases |a|
  {
    if |a| == 0 {
      assert a + b == b;
    } else {
      assert (a + b)[0] == a[0] && (a + b)[1..] == a[1..] + b;
      AssignAllConcat(if a[0].Some? then Assign(o, a[0].value) else o, a[1..], b);
    }
  }

  /** Lines that all parse are the assignments they stand for, in order. */
  lemma {:induction false} ApplyParsedLines(o: TocOptions, lines: seq<string>, ps: seq<Option<ParsedOption>>, parse: Parser)
    requires |lines| == |ps|
    requires forall k :: 0 <= k < |lines| ==> parse(lines[k]) == Success(ps[k])
    ensures ApplyLines(o, lines, parse) == Success(AssignAll(o, ps))
    decreases |lines|
  {
    if |lines| > 0 {
      assert forall k :: 0 <= k < |lines| - 1 ==> lines[1..][k] == lines[k + 1] && ps[1..][k] == ps[k + 1];
      ApplyParsedLines(if ps[0].Some? then Assign(o, ps[0].value) else o, lines[1..], ps[1..], parse);
    }
  }

  /** An empty block gives the defaults, or the plugin settings over them. */
  lemma EmptyBlockGivesBase(settings: Option<PluginSettings>, compiles: (string, string) -> bool)
    ensures ParseOptions("", settings, compiles) == Success(Base(settings))
    ensures settings.None? ==>
      ParseOptions("", settings, compiles) == Success(TocOptions("", NestedList, Finite(0), Finite(0), None, None, true, false, false))
    ensures settings.Some? ==>
      var o := ParseOptions("", settings, compiles).value;
      && o.title == settings.value.defaultTitle && o.style == settings.value.defaultStyle
      && o.minLevel == settings.value.defaultMinLevel && o.maxLevel == settings.value.defaultMaxLevel
      && o.includeLinks == settings.value.defaultIncludeLinks && o.hideWhenEmpty == settings.value.defaultHideWhenEmpty
      && o.includePattern.None? && o.excludePattern.None? && !o.debugInConsole
  {
    SplitWithoutSeparator("", '\n');
    assert LineParser(compiles)("") == Success(None);
    InertLinesKeepOptions(Base(settings), [""], LineParser(compiles));
  }
}
