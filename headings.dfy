/** Rendering of a table of contents from the headings of a note: the nested
    list walker with subtree suppression, the inline first-level style, and the
    dispatch on the style with its title and empty-result handling. */
module Headings {

  import opened Wrappers
  import opened Text
  import opened Options
  import opened Markdown

  /** A heading as the host's metadata cache reports it: its text and its level. */
  datatype Heading = Heading(text: string, level: int)

  /** Rendering fails when the style has no handler. */
  datatype RenderError = MissingHandler(style: TocStyle)

  // ---------------------------------------------------------------------------
  // The effective minimum level

  /** `Math.min` over the levels of a non-empty list. */
  function MinLevelOf(hs: seq<Heading>): (m: int)
    requires |hs| > 0
    ensures forall k :: 0 <= k < |hs| ==> m <= hs[k].level
    ensures exists k :: 0 <= k < |hs| && hs[k].level == m
    decreases |hs|
  {
    if |hs| == 1 then hs[0].level
    else
      var rest := MinLevelOf(hs[1..]);
      var k :| 0 <= k < |hs[1..]| && hs[1..][k].level == rest;
      assert hs[k + 1].level == rest;
      if hs[0].level <= rest then hs[0].level else rest
  }

  /** `options.minLevel > 0 ? options.minLevel : Math.min(...levels)`. For an empty
      list `Math.min` gives Infinity, which is never compared: 0 stands for it. */
  function EffectiveMinLevel(hs: seq<Heading>, options: TocOptions): int {
    if IsPositive(options.minLevel) then options.minLevel.value
    else if |hs| == 0 then 0
    else MinLevelOf(hs)
  }

  /** Without a positive `minLevel` option, the shallowest heading sets the minimum. */
  lemma EffectiveMinLevelIsShallowest(hs: seq<Heading>, options: TocOptions)
    requires |hs| > 0
    ensures IsPositive(options.minLevel) ==> EffectiveMinLevel(hs, options) == options.minLevel.value
    ensures !IsPositive(options.minLevel) ==>
      && (forall k :: 0 <= k < |hs| ==> EffectiveMinLevel(hs, options) <= hs[k].level)
      && (exists k :: 0 <= k < |hs| && hs[k].level == EffectiveMinLevel(hs, options))
  {
    if !IsPositive(options.minLevel) {
      assert EffectiveMinLevel(hs, options) == MinLevelOf(hs);
    }
  }

  // ---------------------------------------------------------------------------
  // The nested-list walker

  /** What the walk needs besides the headings: the list marker, the effective
      minimum level, the options and the host oracles. */
  datatype ListContext = ListContext(
    prefix: string,
    minLevel: int,
    options: TocOptions,
    test: (Pattern, string) -> bool,
    html: string -> string)

  /** `- ` for the nested list, the literal `1. ` for the ordered one. */
  function ListPrefix(isOrdered: bool): string {
    if isOrdered then "1." else "-"
  }

  function Context(hs: seq<Heading>, isOrdered: bool, options: TocOptions,
                   test: (Pattern, string) -> bool, html: string -> string): ListContext {
    ListContext(ListPrefix(isOrdered), EffectiveMinLevel(hs, options), options, test, html)
  }

  /** The level under which headings are being suppressed after a visit, and
      whether the visited heading gives a line. */
  datatype Visited = Visited(unallowed: int, keep: bool)

  /** A heading is reached by the filter unless it lies below a suppressed heading. */
  predicate Reached(h: Heading, unallowed: int) {
    !(unallowed > 0 && h.level > unallowed)
  }

  /** The conditions of a line other than the filter. */
  predicate InRange(h: Heading, c: ListContext) {
    && h.level >= c.minLevel
    && !(IsPositive(c.options.maxLevel) && h.level > c.options.maxLevel.value)
    && |h.text| > 0
  }

  /** One iteration of the loop over the headings. */
  function Visit(h: Heading, unallowed: int, c: ListContext): Visited {
    if unallowed > 0 && h.level > unallowed then Visited(unallowed, false)
    else
      var cleared := if h.level <= unallowed then 0 else unallowed;
      if !IsHeadingAllowed(h.text, c.options, c.test) then Visited(h.level, false)
      else if h.level < c.minLevel then Visited(cleared, false)
      else if IsPositive(c.options.maxLevel) && h.level > c.options.maxLevel.value then Visited(cleared, false)
      else if |h.text| == 0 then Visited(cleared, false)
      else Visited(cleared, true)
  }

  /** A heading gives a line exactly when it is reached, passes the filter, and
      lies in the level range with a non-empty text. */
  lemma VisitKeeps(h: Heading, unallowed: int, c: ListContext)
    ensures Visit(h, unallowed, c).keep <==>
      Reached(h, unallowed) && IsHeadingAllowed(h.text, c.options, c.test) && InRange(h, c)
    ensures !Reached(h, unallowed) ==> Visit(h, unallowed, c).unallowed == unallowed
    ensures Reached(h, unallowed) && !IsHeadingAllowed(h.text, c.options, c.test) ==>
      Visit(h, unallowed, c).unallowed == h.level
  {
  }

  /** The `1.` or `-` line of a heading, indented by its depth below the minimum. */
  function LineOf(h: Heading, c: ListContext): string
    requires h.level >= c.minLevel
  {
    Repeat('\t', h.level - c.minLevel) + c.prefix + " " + FormatHeading(h.text, c.options, c.html)
  }

  /** The lines the loop pushes from index `i` on, with `unallowed` the suppression level. */
  function ListFrom(hs: seq<Heading>, i: nat, unallowed: int, c: ListContext): seq<string>
    requires i <= |hs|
    decreases |hs| - i
  {
    if i == |hs| then []
    else
      var v := Visit(hs[i], unallowed, c);
      VisitKeeps(hs[i], unallowed, c);
      (if v.keep then [LineOf(hs[i], c)] else []) + ListFrom(hs, i + 1, v.unallowed, c)
  }

  /** One step of the walk. */
  lemma ListStep(hs: seq<Heading>, i: nat, unallowed: int, c: ListContext)
    requires i < |hs|
    ensures var v := Visit(hs[i], unallowed, c);
      && (v.keep ==> hs[i].level >= c.minLevel)
      && ListFrom(hs, i, unallowed, c) ==
        (if v.keep then [LineOf(hs[i], c)] else []) + ListFrom(hs, i + 1, v.unallowed, c)
  {
    VisitKeeps(hs[i], unallowed, c);
  }

  /** One step of the walk after the lines pushed so far. */
  lemma Advance(lines: seq<string>, hs: seq<Heading>, i: nat, unallowed: int, c: ListContext)
    requires i < |hs|
    ensures var v := Visit(hs[i], unallowed, c);
      && (v.keep ==> hs[i].level >= c.minLevel)
      && lines + ListFrom(hs, i, unallowed, c) ==
        (if v.keep then lines + [LineOf(hs[i], c)] else lines) + ListFrom(hs, i + 1, v.unallowed, c)
  {
    ListStep(hs, i, unallowed, c);
  }

  /** The indices of the headings that give those lines. */
  function KeptFrom(hs: seq<Heading>, i: nat, unallowed: int, c: ListContext): (r: seq<nat>)
    requires i <= |hs|
    ensures forall k :: 0 <= k < |r| ==> i <= r[k] < |hs|
    ensures forall k1, k2 :: 0 <= k1 < k2 < |r| ==> r[k1] < r[k2]
    decreases |hs| - i
  {
    if i == |hs| then []
    else
      var v := Visit(hs[i], unallowed, c);
      (if v.keep then [i] else []) + KeptFrom(hs, i + 1, v.unallowed, c)
  }

  /** The suppression level before the heading at `j`. */
  function UnallowedBefore(hs: seq<Heading>, j: nat, c: ListContext): int
    requires j <= |hs|
  {
    if j == 0 then 0 else Visit(hs[j - 1], UnallowedBefore(hs, j - 1, c), c).unallowed
  }

  /** Whether the heading at `j` gives a line. */
  predicate Kept(hs: seq<Heading>, j: nat, c: ListContext)
    requires j < |hs|
  {
    Visit(hs[j], UnallowedBefore(hs, j, c), c).keep
  }

  /** The lines are the lines of the kept headings, in input order. */
  lemma {:induction false} LinesOfKept(hs: seq<Heading>, i: nat, unallowed: int, c: ListContext)
    requires i <= |hs|
    ensures var lines := ListFrom(hs, i, unallowed, c); var kept := KeptFrom(hs, i, unallowed, c);
      && |lines| == |kept|
      && forall k :: 0 <= k < |kept| ==>
        hs[kept[k]].level >= c.minLevel && lines[k] == LineOf(hs[kept[k]], c)
    decreases |hs| - i
  {
    if i < |hs| {
      var v := Visit(hs[i], unallowed, c);
      ListStep(hs, i, unallowed, c);
      LinesOfKept(hs, i + 1, v.unallowed, c);
      var rest := ListFrom(hs, i + 1, v.unallowed, c);
      var restKept := KeptFrom(hs, i + 1, v.unallowed, c);
      if v.keep {
        assert KeptFrom(hs, i, unallowed, c) == [i] + restKept;
        assert ListFrom(hs, i, unallowed, c) == [LineOf(hs[i], c)] + rest;
      } else {
        assert KeptFrom(hs, i, unallowed, c) == restKept;
      }
    }
  }

  /** A heading is kept exactly when its own visit, in the state the earlier headings
      left, keeps it. */
  lemma {:induction false} KeptIndices(hs: seq<Heading>, i: nat, c: ListContext)
    requires i <= |hs|
    ensures forall j :: j in KeptFrom(hs, i, UnallowedBefore(hs, i, c), c) <==> i <= j < |hs| && Kept(hs, j, c)
    decreases |hs| - i
  {
    if i < |hs| {
      KeptIndices(hs, i + 1, c);
    }
  }

  /** Every line belongs to a heading that passes the filter and lies in range. */
  lemma KeptMeetsConditions(hs: seq<Heading>, c: ListContext, j: nat)
    requires j in KeptFrom(hs, 0, 0, c)
    ensures j < |hs| && IsHeadingAllowed(hs[j].text, c.options, c.test) && InRange(hs[j], c)
  {
    assert UnallowedBefore(hs, 0, c) == 0;
    KeptIndices(hs, 0, c);
    assert j < |hs| && Kept(hs, j, c);
    VisitKeeps(hs[j], UnallowedBefore(hs, j, c), c);
  }

  /** There are at most as many lines as headings. */
  lemma {:induction false} ListAtMostHeadings(hs: seq<Heading>, i: nat, unallowed: int, c: ListContext)
    requires i <= |hs|
    ensures |ListFrom(hs, i, unallowed, c)| <= |hs| - i
    decreases |hs| - i
  {
    if i < |hs| {
      ListAtMostHeadings(hs, i + 1, Visit(hs[i], unallowed, c).unallowed, c);
    }
  }

  /** After a heading fails the filter, every following heading of greater level is
      skipped without being tested, and the suppression level stays that of the
      failed heading. */
  lemma {:induction false} SubtreeSuppressed(hs: seq<Heading>, c: ListContext, i: nat, j: nat)
    requires i < j <= |hs|
    requires Reached(hs[i], UnallowedBefore(hs, i, c)) && !IsHeadingAllowed(hs[i].text, c.options, c.test)
    requires hs[i].level > 0
    requires forall m :: i < m < j ==> hs[m].level > hs[i].level
    ensures UnallowedBefore(hs, j, c) == hs[i].level
    ensures forall m :: i < m < j ==> !Reached(hs[m], UnallowedBefore(hs, m, c)) && !Kept(hs, m, c)
    decreases j - i
  {
    if j == i + 1 {
    } else {
      SubtreeSuppressed(hs, c, i, j - 1);
      assert !Reached(hs[j - 1], UnallowedBefore(hs, j - 1, c));
    }
  }

  /** The suppression ends at the first heading at most as deep as the failed one,
      which is then handled as if nothing had been suppressed. */
  lemma SuppressionEnds(h: Heading, unallowed: int, c: ListContext)
    requires unallowed > 0 && h.level <= unallowed
    ensures Visit(h, unallowed, c) == Visit(h, 0, c)
  {
  }

  /** The filter comes first: a heading that fails it suppresses its subtree even
      when it would not give a line for its level or its empty text. */
  lemma FilterBeforeRange(hs: seq<Heading>, c: ListContext, i: nat)
    requires i + 1 < |hs|
    requires Reached(hs[i], UnallowedBefore(hs, i, c)) && !IsHeadingAllowed(hs[i].text, c.options, c.test)
    requires hs[i].level > 0 && hs[i + 1].level > hs[i].level
    ensures !Kept(hs, i, c) && !Kept(hs, i + 1, c)
  {
    SubtreeSuppressed(hs, c, i, i + 2);
  }

  /** The number of leading tabs. */
  function LeadingTabs(s: string): nat {
    if |s| > 0 && s[0] == '\t' then 1 + LeadingTabs(s[1..]) else 0
  }

  lemma {:induction false} LeadingTabsOf(n: nat, rest: string)
    requires |rest| == 0 || rest[0] != '\t'
    ensures LeadingTabs(Repeat('\t', n) + rest) == n
    decreases n
  {
    if n > 0 {
      assert (Repeat('\t', n) + rest)[1..] == Repeat('\t', n - 1) + rest;
      LeadingTabsOf(n - 1, rest);
    }
  }

  /** A line is indented by one tab per level below the minimum, then carries the
      list marker and a space. */
  lemma LineIndent(h: Heading, c: ListContext)
    requires h.level >= c.minLevel && |c.prefix| > 0 && c.prefix[0] != '\t'
    ensures var line := LineOf(h, c); var depth := h.level - c.minLevel;
      && LeadingTabs(line) == depth
      && line[depth..depth + |c.prefix| + 1] == c.prefix + " "
  {
    var depth := h.level - c.minLevel;
    var rest := c.prefix + " " + FormatHeading(h.text, c.options, c.html);
    assert LineOf(h, c) == Repeat('\t', depth) + rest;
    LeadingTabsOf(depth, rest);
  }

  /** A line of either list: one tab per level below the minimum, the marker `1. ` of
      the ordered list or `- ` of the plain one, then the formatted heading. */
  lemma ListLineShape(hs: seq<Heading>, isOrdered: bool, options: TocOptions,
                      test: (Pattern, string) -> bool, html: string -> string, h: Heading)
    requires h.level >= EffectiveMinLevel(hs, options)
    ensures var c := Context(hs, isOrdered, options, test, html);
      var line := LineOf(h, c);
      var depth := h.level - EffectiveMinLevel(hs, options);
      var marker := if isOrdered then "1. " else "- ";
      && LeadingTabs(line) == depth
      && |line| == depth + |marker| + |FormatHeading(h.text, options, html)|
      && line[depth..depth + |marker|] == marker
      && line[depth + |marker|..] == FormatHeading(h.text, options, html)
  {
    var c := Context(hs, isOrdered, options, test, html);
    var depth := h.level - c.minLevel;
    var marker := if isOrdered then "1. " else "- ";
    var text := FormatHeading(h.text, options, html);
    LineIndent(h, c);
    assert c.prefix + " " == marker;
    assert LineOf(h, c) == Repeat('\t', depth) + marker + text;
  }

  /** Without a positive `minLevel`, the shallowest heading's line has no indent. */
  lemma ShallowestUnindented(hs: seq<Heading>, isOrdered: bool, options: TocOptions,
                             test: (Pattern, string) -> bool, html: string -> string, k: nat)
    requires k < |hs| && !IsPositive(options.minLevel)
    requires forall m :: 0 <= m < |hs| ==> hs[k].level <= hs[m].level
    ensures var c := Context(hs, isOrdered, options, test, html);
      hs[k].level == c.minLevel && LeadingTabs(LineOf(hs[k], c)) == 0
  {
    var c := Context(hs, isOrdered, options, test, html);
    LineIndent(hs[k], c);
  }

  /** A heading every check lets through keeps the walk unsuppressed. */
  lemma VisitLetsThrough(h: Heading, c: ListContext)
    requires c.options.includePattern.None? && c.options.excludePattern.None?
    requires InRange(h, c)
    ensures Visit(h, 0, c) == Visited(0, true)
  {
  }

  /** Without filters and with every heading in range, each heading gives its line, in order. */
  lemma {:induction false} EveryHeadingListed(hs: seq<Heading>, i: nat, c: ListContext)
    requires i <= |hs|
    requires c.options.includePattern.None? && c.options.excludePattern.None?
    requires forall k :: i <= k < |hs| ==> InRange(hs[k], c)
    ensures var lines := ListFrom(hs, i, 0, c);
      |lines| == |hs| - i && forall k :: i <= k < |hs| ==> InRange(hs[k], c) && lines[k - i] == LineOf(hs[k], c)
    decreases |hs| - i
  {
    if i < |hs| {
      VisitLetsThrough(hs[i], c);
      ListStep(hs, i, 0, c);
      EveryHeadingListed(hs, i + 1, c);
    }
  }

  /** A list without filters and level bounds lists every heading with a text. */
  lemma UnfilteredListIsComplete(hs: seq<Heading>, isOrdered: bool, options: TocOptions,
                                 test: (Pattern, string) -> bool, html: string -> string)
    requires options.includePattern.None? && options.excludePattern.None?
    requires !IsPositive(options.minLevel) && !IsPositive(options.maxLevel)
    requires forall k :: 0 <= k < |hs| ==> |hs[k].text| > 0
    ensures var c := Context(hs, isOrdered, options, test, html); var lines := ListFrom(hs, 0, 0, c);
      && (forall k :: 0 <= k < |hs| ==> hs[k].level >= c.minLevel)
      && |lines| == |hs| && forall k :: 0 <= k < |hs| ==> lines[k] == LineOf(hs[k], c)
  {
    var c := Context(hs, isOrdered, options, test, html);
    if |hs| > 0 {
      EffectiveMinLevelIsShallowest(hs, options);
    }
    EveryHeadingListed(hs, 0, c);
  }

  /** The result of `getMarkdownListFromHeadings`: the lines joined by newlines, or
      nothing when there is none. */
  function ListMarkdown(hs: seq<Heading>, isOrdered: bool, options: TocOptions,
                        test: (Pattern, string) -> bool, html: string -> string): Option<string> {
    var lines := ListFrom(hs, 0, 0, Context(hs, isOrdered, options, test, html));
    if |lines| > 0 then Some(Join(lines, "\n")) else None
  }

  /** The list is absent exactly when no heading is kept. */
  lemma ListMarkdownAbsent(hs: seq<Heading>, isOrdered: bool, options: TocOptions,
                           test: (Pattern, string) -> bool, html: string -> string)
    ensures var c := Context(hs, isOrdered, options, test, html);
      ListMarkdown(hs, isOrdered, options, test, html).None? <==>
        forall j :: 0 <= j < |hs| ==> !Kept(hs, j, c)
  {
    var c := Context(hs, isOrdered, options, test, html);
    LinesOfKept(hs, 0, 0, c);
    assert UnallowedBefore(hs, 0, c) == 0;
    KeptIndices(hs, 0, c);
    var kept := KeptFrom(hs, 0, 0, c);
    if |kept| > 0 {
      assert kept[0] in kept;
    }
  }

  /** `getMarkdownListFromHeadings`. */
  method GetMarkdownListFromHeadings(hs: seq<Heading>, isOrdered: bool, options: TocOptions,
                                     test: (Pattern, string) -> bool, html: string -> string)
    returns (r: Option<string>)
    ensures r == ListMarkdown(hs, isOrdered, options, test, html)
  {
    var prefix := if isOrdered then "1." else "-";
    var lines: seq<string> := [];
    var minLevel := EffectiveMinLevel(hs, options);
    ghost var c := ListContext(prefix, minLevel, options, test, html);
    assert c == Context(hs, isOrdered, options, test, html);
    var unallowedLevel := 0;
    for i := 0 to |hs|
      invariant lines + ListFrom(hs, i, unallowedLevel, c) == ListFrom(hs, 0, 0, c)
    {
      var heading := hs[i];
      ghost var v := Visit(heading, unallowedLevel, c);
      Advance(lines, hs, i, unallowedLevel, c);
      if unallowedLevel > 0 && heading.level > unallowedLevel {
        assert unallowedLevel == v.unallowed && !v.keep;
        continue;
      }
      if heading.level <= unallowedLevel {
        unallowedLevel := 0;
      }
      if !IsHeadingAllowed(heading.text, options, test) {
        unallowedLevel := heading.level;
        assert unallowedLevel == v.unallowed && !v.keep;
        continue;
      }
      if heading.level < minLevel {
        assert unallowedLevel == v.unallowed && !v.keep;
        continue;
      }
      if IsPositive(options.maxLevel) && heading.level > options.maxLevel.value {
        assert unallowedLevel == v.unallowed && !v.keep;
        continue;
      }
      if |heading.text| == 0 {
        assert unallowedLevel == v.unallowed && !v.keep;
        continue;
      }
      assert unallowedLevel == v.unallowed && v.keep;
      ghost var before := lines;
      lines := lines + [Repeat('\t', heading.level - minLevel) + prefix + " " + FormatHeading(heading.text, options, html)];
      assert lines == before + [LineOf(heading, c)];
    }
    assert lines == ListFrom(hs, 0, 0, c);
    r := if |lines| > 0 then Some(Join(lines, "\n")) else None;
  }

  // ---------------------------------------------------------------------------
  // The inline first-level style

  /** The condition of `.filter((heading) => heading.level === minLevel)`. */
  function LevelIs(level: int): Heading -> bool {
    (h: Heading) => h.level == level
  }

  /** The condition of `.filter((heading) => heading.heading.length > 0)`. */
  function HasText(): Heading -> bool {
    (h: Heading) => |h.text| > 0
  }

  /** The condition of `.filter((heading) => isHeadingAllowed(heading.heading, options))`. */
  function AllowedBy(options: TocOptions, test: (Pattern, string) -> bool): Heading -> bool {
    (h: Heading) => IsHeadingAllowed(h.text, options, test)
  }

  /** The function of `.map((heading) => getFormattedMarkdownHeading(heading.heading, options))`. */
  function FormatOf(options: TocOptions, html: string -> string): Heading -> string {
    (h: Heading) => FormatHeading(h.text, options, html)
  }

  /** The headings shown by the inline style: the three filters in a row. */
  function InlineHeadings(hs: seq<Heading>, options: TocOptions, test: (Pattern, string) -> bool): seq<Heading> {
    Filter(AllowedBy(options, test), Filter(HasText(), Filter(LevelIs(EffectiveMinLevel(hs, options)), hs)))
  }

  /** `getMarkdownInlineFirstLevelFromHeadings`. */
  function InlineMarkdown(hs: seq<Heading>, options: TocOptions,
                            test: (Pattern, string) -> bool, html: string -> string): Option<string> {
    var items := Map(FormatOf(options, html), InlineHeadings(hs, options, test));
    if |items| > 0 then Some(Join(items, " | ")) else None
  }

  /** A heading the inline style shows: a non-empty, allowed heading at `level`. */
  function ShownAt(level: int, options: TocOptions, test: (Pattern, string) -> bool): Heading -> bool {
    (h: Heading) => h.level == level && |h.text| > 0 && IsHeadingAllowed(h.text, options, test)
  }

  /** The inline style shows the non-empty, allowed headings at the minimum level, in
      their order and as often as they occur, each judged on its own with no subtree
      suppression: one filter by all three conditions. */
  lemma InlineShows(hs: seq<Heading>, options: TocOptions, test: (Pattern, string) -> bool)
    ensures InlineHeadings(hs, options, test) == Filter(ShownAt(EffectiveMinLevel(hs, options), options, test), hs)
  {
    var level := EffectiveMinLevel(hs, options);
    var leveled := (h: Heading) => h.level == level && |h.text| > 0;
    FilterFilter(HasText(), LevelIs(level), leveled, hs);
    FilterFilter(AllowedBy(options, test), leveled, ShownAt(level, options, test), hs);
  }

  /** The inline items are the formatted shown headings, joined by ` | `. */
  lemma InlineItems(hs: seq<Heading>, options: TocOptions, test: (Pattern, string) -> bool, html: string -> string)
    ensures var shown := Filter(ShownAt(EffectiveMinLevel(hs, options), options, test), hs);
      InlineMarkdown(hs, options, test, html) ==
        if |shown| > 0 then Some(Join(Map(FormatOf(options, html), shown), " | ")) else None
  {
    InlineShows(hs, options, test);
  }

  /** The inline style is absent exactly when no heading qualifies. */
  lemma InlineAbsent(hs: seq<Heading>, options: TocOptions, test: (Pattern, string) -> bool, html: string -> string)
    ensures InlineMarkdown(hs, options, test, html).None? <==>
      forall k :: 0 <= k < |hs| ==>
        !(hs[k].level == EffectiveMinLevel(hs, options) && |hs[k].text| > 0 && IsHeadingAllowed(hs[k].text, options, test))
  {
    InlineShows(hs, options, test);
    var shown := InlineHeadings(hs, options, test);
    if |shown| > 0 {
      assert shown[0] in shown;
    }
    forall k | 0 <= k < |hs| && hs[k].level == EffectiveMinLevel(hs, options) && |hs[k].text| > 0
        && IsHeadingAllowed(hs[k].text, options, test)
      ensures hs[k] in shown
    {
      assert hs[k] in hs;
    }
  }

  /** The inline style ignores `maxLevel`. */
  lemma InlineIgnoresMaxLevel(hs: seq<Heading>, options: TocOptions, maxLevel: Num,
                              test: (Pattern, string) -> bool, html: string -> string)
    ensures InlineMarkdown(hs, options.(maxLevel := maxLevel), test, html) == InlineMarkdown(hs, options, test, html)
  {
    var other := options.(maxLevel := maxLevel);
    var level := EffectiveMinLevel(hs, options);
    assert EffectiveMinLevel(hs, other) == level;
    var candidates := Filter(HasText(), Filter(LevelIs(level), hs));
    forall h: Heading ensures AllowedBy(other, test)(h) == AllowedBy(options, test)(h) {
      FilterReadsOnlyPatterns(h.text, other, options, test);
    }
    FilterCongruent(AllowedBy(other, test), AllowedBy(options, test), candidates);
    var shown := InlineHeadings(hs, options, test);
    assert Map(FormatOf(other, html), shown) == Map(FormatOf(options, html), shown);
  }

  // ---------------------------------------------------------------------------
  // `getMarkdownFromHeadings`

  const NoHeadingsFound := "_Table of contents: no headings found_"

  /** A non-empty title followed by a space for the inline style and a newline otherwise. */
  function TitlePrefix(options: TocOptions): string {
    if |options.title| > 0 then options.title + (if options.style == InlineFirstLevel then " " else "\n")
    else ""
  }

  /** The handler of the style: the nested styles share the list walker, and the
      detailed ordered list has none. */
  function StyleHandler(hs: seq<Heading>, options: TocOptions,
                        test: (Pattern, string) -> bool, html: string -> string): Result<Option<string>, RenderError> {
    match options.style
    case NestedList => Success(ListMarkdown(hs, false, options, test, html))
    case NestedOrderedList => Success(ListMarkdown(hs, true, options, test, html))
    case InlineFirstLevel => Success(InlineMarkdown(hs, options, test, html))
    case NestedDetailedOrderedList => Failure(MissingHandler(options.style))
  }

  /** `getMarkdownFromHeadings`. */
  function GetMarkdownFromHeadings(hs: seq<Heading>, options: TocOptions,
                                   test: (Pattern, string) -> bool, html: string -> string): Result<string, RenderError> {
    match StyleHandler(hs, options, test, html)
    case Failure(e) => Failure(e)
    case Success(None) => Success(if options.hideWhenEmpty then "" else TitlePrefix(options) + NoHeadingsFound)
    case Success(Some(markdown)) => Success(TitlePrefix(options) + markdown)
  }

  /** Rendering fails exactly for the detailed ordered list. */
  lemma RenderFailsOnlyWithoutHandler(hs: seq<Heading>, options: TocOptions,
                                      test: (Pattern, string) -> bool, html: string -> string)
    ensures GetMarkdownFromHeadings(hs, options, test, html).Failure? <==> options.style == NestedDetailedOrderedList
  {
  }

  /** The title comes first: followed by a space in the inline style and by a newline
      in the others, and nothing for an empty title. */
  lemma RenderStartsWithTitle(hs: seq<Heading>, options: TocOptions,
                              test: (Pattern, string) -> bool, html: string -> string)
    requires GetMarkdownFromHeadings(hs, options, test, html).Success?
    requires StyleHandler(hs, options, test, html).value.Some? || !options.hideWhenEmpty
    ensures var r := GetMarkdownFromHeadings(hs, options, test, html).value;
      var sep := if options.style == InlineFirstLevel then " " else "\n";
      |options.title| > 0 ==> |r| > |options.title| && r[..|options.title| + 1] == options.title + sep
  {
    var r := GetMarkdownFromHeadings(hs, options, test, html).value;
    if |options.title| > 0 {
      assert r == TitlePrefix(options) + r[|TitlePrefix(options)|..];
    }
  }

  /** With no heading left, the result is empty under `hideWhenEmpty` and otherwise
      the title and the no-headings notice. */
  lemma EmptyRender(hs: seq<Heading>, options: TocOptions,
                    test: (Pattern, string) -> bool, html: string -> string)
    requires StyleHandler(hs, options, test, html) == Success(None)
    ensures options.hideWhenEmpty ==> GetMarkdownFromHeadings(hs, options, test, html) == Success("")
    ensures !options.hideWhenEmpty ==>
      GetMarkdownFromHeadings(hs, options, test, html) == Success(TitlePrefix(options) + NoHeadingsFound)
  {
  }

  /** When the style's handler gives a list, the render is that list after the title
      and its separator, and the list alone for an empty title. */
  lemma ListRender(hs: seq<Heading>, options: TocOptions,
                   test: (Pattern, string) -> bool, html: string -> string, m: string)
    requires StyleHandler(hs, options, test, html) == Success(Some(m))
    ensures |options.title| == 0 ==> GetMarkdownFromHeadings(hs, options, test, html) == Success(m)
    ensures |options.title| > 0 ==>
      GetMarkdownFromHeadings(hs, options, test, html) ==
        Success(options.title + (if options.style == InlineFirstLevel then " " else "\n") + m)
  {
    if |options.title| == 0 {
      assert TitlePrefix(options) + m == m;
    }
  }

  /** A note without headings renders as the empty notice in every style with a handler. */
  lemma NoHeadingsRender(options: TocOptions, test: (Pattern, string) -> bool, html: string -> string)
    requires options.style != NestedDetailedOrderedList
    ensures StyleHandler([], options, test, html) == Success(None)
  {
    if options.style == InlineFirstLevel {
      InlineAbsent([], options, test, html);
    }
  }

  /** Headings all above a positive `minLevel` leave no line in any style. */
  lemma AllAboveMinLevel(hs: seq<Heading>, options: TocOptions,
                         test: (Pattern, string) -> bool, html: string -> string)
    requires options.style != NestedDetailedOrderedList && IsPositive(options.minLevel)
    requires forall k :: 0 <= k < |hs| ==> hs[k].level < options.minLevel.value
    ensures StyleHandler(hs, options, test, html) == Success(None)
  {
    if options.style == InlineFirstLevel {
      InlineAbsent(hs, options, test, html);
    } else {
      var isOrdered := options.style == NestedOrderedList;
      var c := Context(hs, isOrdered, options, test, html);
      forall j | 0 <= j < |hs| ensures !Kept(hs, j, c) {
        VisitKeeps(hs[j], UnallowedBefore(hs, j, c), c);
      }
      ListMarkdownAbsent(hs, isOrdered, options, test, html);
    }
  }
}
