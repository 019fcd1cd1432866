/** Label formatting and filtering of headings: the include/exclude rule, and the
    `[[#link|text]]` wikilink built from a heading label by chains of literal
    `replaceAll` steps and a few global regular-expression replacements. */
module Markdown {

  import opened Wrappers
  import opened Text
  import opened Options

  // ---------------------------------------------------------------------------
  // `isHeadingAllowed`

  /** `isHeadingAllowed`: an include pattern decides alone; otherwise an exclude
      pattern rejects what it matches; with neither, every heading is allowed.
      `test(p, heading)` stands for `p.test(heading)` of the compiled pattern. */
  function IsHeadingAllowed(heading: string, options: TocOptions, test: (Pattern, string) -> bool): bool {
    match options.includePattern
    case Some(inc) => test(inc, heading)
    case None =>
      match options.excludePattern
      case Some(exc) => !test(exc, heading)
      case None => true
  }

  /** The precedence of the two filters. */
  lemma FilterPrecedence(heading: string, options: TocOptions, test: (Pattern, string) -> bool)
    ensures options.includePattern.Some? ==>
      (IsHeadingAllowed(heading, options, test) <==> test(options.includePattern.value, heading))
    ensures options.includePattern.None? && options.excludePattern.Some? ==>
      (IsHeadingAllowed(heading, options, test) <==> !test(options.excludePattern.value, heading))
    ensures options.includePattern.None? && options.excludePattern.None? ==> IsHeadingAllowed(heading, options, test)
  {
  }

  /** With an include pattern, the exclude pattern is never consulted. */
  lemma IncludeIgnoresExclude(heading: string, options: TocOptions, exclude: Option<Pattern>,
                              test: (Pattern, string) -> bool)
    requires options.includePattern.Some?
    ensures IsHeadingAllowed(heading, options.(excludePattern := exclude), test) == IsHeadingAllowed(heading, options, test)
  {
  }

  /** Only the two patterns of the options matter. */
  lemma FilterReadsOnlyPatterns(heading: string, a: TocOptions, b: TocOptions, test: (Pattern, string) -> bool)
    requires a.includePattern == b.includePattern && a.excludePattern == b.excludePattern
    ensures IsHeadingAllowed(heading, a, test) == IsHeadingAllowed(heading, b, test)
  {
  }

  // ---------------------------------------------------------------------------
  // Global regular-expression replacement

  /** The four regular expressions of the label formatting:
      `/\[([^\]]+)\]\([^)]+\)/g` replaced by `$1`,
      `/\[\[([^\]]+)\|([^\]]+)\]\]/g` replaced by `$1 $2` (for the link) or `$2`,
      `/\[\[([^\]]+)\]\]/g` replaced by `$1`, and
      `/(\W|^)_+(\S)(.*?\S)?_+(\W|$)/g` replaced by `$1$2$3$4`. */
  datatype Rx = MarkdownLink | AliasedWikilink(forLink: bool) | Wikilink | Italic

  /** A match found at some position: where it ends and the replacement text. */
  datatype Hit = Hit(end: nat, out: string)

  /** The replacement of `h` takes its characters from the text `h` matched from `p`,
      plus a space when `space` holds. */
  predicate CharsFrom(s: string, p: nat, h: Hit, space: bool) {
    p <= h.end <= |s| && forall c :: c in h.out ==> c in s[p..h.end] || (space && c == ' ')
  }

  /** The first index at or after `i` holding `c`, or `|s|`. */
  function NextIndex(s: string, c: char, i: nat): (k: nat)
    requires i <= |s|
    ensures i <= k <= |s|
    ensures forall m :: i <= m < k ==> s[m] != c
    ensures k < |s| ==> s[k] == c
    decreases |s| - i
  {
    if i == |s| || s[i] == c then i else NextIndex(s, c, i + 1)
  }

  /** The characters of a slice occur in every slice around it. */
  lemma SubsliceChars(s: string, a: nat, c: nat, d: nat, b: nat)
    requires a <= c <= d <= b <= |s|
    ensures forall x :: x in s[c..d] ==> x in s[a..b]
  {
    forall x | x in s[c..d] ensures x in s[a..b] {
      var m :| 0 <= m < d - c && s[c..d][m] == x;
      assert s[a..b][m + c - a] == x;
    }
  }

  /** Two opening brackets at `p`. */
  predicate OpensAt(s: string, p: nat) {
    p + 1 < |s| && s[p] == '\U{5B}' && s[p + 1] == '\U{5B}'
  }

  /** `\[([^\]]+)\]\([^)]+\)` at `p`. The character classes exclude the closing
      brackets, so the greedy runs end at the first `]` and the first `)`, and no
      other split of the text can match. */
  function MarkdownLinkAt(s: string, p: nat): (r: Option<Hit>)
    requires p < |s|
    ensures r.Some? ==> p < r.value.end <= |s| && s[p] == '\U{5B}'
    ensures r.Some? ==> CharsFrom(s, p, r.value, false)
  {
    if s[p] != '\U{5B}' then None
    else
      var k := NextIndex(s, '\U{5D}', p + 1);
      if k == p + 1 || k + 1 >= |s| || s[k + 1] != '\U{28}' then None
      else
        var e := NextIndex(s, '\U{29}', k + 2);
        if e == k + 2 || e == |s| then None
        else
          SubsliceChars(s, p, p + 1, k, e + 1);
          Some(Hit(e + 1, s[p + 1..k]))
  }

  /** The last `|` in `s[lo..hi]`, if any. */
  function LastBar(s: string, lo: nat, hi: nat): (r: Option<nat>)
    requires lo <= hi <= |s|
    ensures r.Some? ==> lo <= r.value < hi && s[r.value] == '|'
    ensures r.Some? ==> forall m :: r.value < m < hi ==> s[m] != '|'
    ensures r.None? ==> forall m :: lo <= m < hi ==> s[m] != '|'
    decreases hi - lo
  {
    if hi == lo then None
    else if s[hi - 1] == '|' then Some(hi - 1)
    else LastBar(s, lo, hi - 1)
  }

  /** `\[\[([^\]]+)\|([^\]]+)\]\]` at `p`: the text between `[[` and the first `]`
      must be followed by `]]`; the greedy first group ends at the last `|` that
      leaves both groups non-empty. */
  function AliasedWikilinkAt(s: string, p: nat, forLink: bool): (r: Option<Hit>)
    requires p < |s|
    ensures r.Some? ==> p < r.value.end <= |s| && OpensAt(s, p)
    ensures r.Some? ==> CharsFrom(s, p, r.value, forLink)
  {
    if !OpensAt(s, p) then None
    else
      var k := NextIndex(s, '\U{5D}', p + 2);
      if k + 1 >= |s| || s[k + 1] != '\U{5D}' || k < p + 5 then None
      else
        match LastBar(s, p + 3, k - 1)
        case None => None
        case Some(bar) =>
          AliasedOutChars(s, p, bar, k, forLink);
          Some(Hit(k + 2, AliasedOut(s, p, bar, k, forLink)))
  }

  /** The replacement `$1 $2` or `$2` of an aliased wikilink whose bar is at `bar`. */
  function AliasedOut(s: string, p: nat, bar: nat, k: nat, forLink: bool): string
    requires p + 2 <= bar < k <= |s|
  {
    if forLink then s[p + 2..bar] + " " + s[bar + 1..k] else s[bar + 1..k]
  }

  lemma AliasedOutChars(s: string, p: nat, bar: nat, k: nat, forLink: bool)
    requires p + 2 <= bar < k && k + 2 <= |s|
    ensures CharsFrom(s, p, Hit(k + 2, AliasedOut(s, p, bar, k, forLink)), forLink)
  {
    SubsliceChars(s, p, p + 2, bar, k + 2);
    SubsliceChars(s, p, bar + 1, k, k + 2);
  }

  /** `\[\[([^\]]+)\]\]` at `p`. */
  function WikilinkAt(s: string, p: nat): (r: Option<Hit>)
    requires p < |s|
    ensures r.Some? ==> p < r.value.end <= |s| && OpensAt(s, p)
    ensures r.Some? ==> CharsFrom(s, p, r.value, false)
  {
    if !OpensAt(s, p) then None
    else
      var k := NextIndex(s, '\U{5D}', p + 2);
      if k == p + 2 || k + 1 >= |s| || s[k + 1] != '\U{5D}' then None
      else
        SubsliceChars(s, p, p + 2, k, k + 2);
        Some(Hit(k + 2, s[p + 2..k]))
  }

  // ---------------------------------------------------------------------------
  // The underscore-italic expression `(\W|^)_+(\S)(.*?\S)?_+(\W|$)`, tried in the
  // order of the backtracking matcher

  /** `\w`: ASCII letters, digits and `_`. */
  predicate IsWordChar(c: char) {
    'a' <= c <= 'z' || 'A' <= c <= 'Z' || '0' <= c <= '9' || c == '_'
  }

  /** `s` with every `_` removed. */
  function Bare(s: string): string
    decreases |s|
  {
    if |s| == 0 then ""
    else Bare(s[..|s| - 1]) + (if s[|s| - 1] == '_' then "" else [s[|s| - 1]])
  }

  lemma {:induction false} BareConcat(a: string, b: string)
    ensures Bare(a + b) == Bare(a) + Bare(b)
    decreases |b|
  {
    if |b| == 0 {
      assert a + b == a;
    } else {
      assert (a + b)[..|a + b| - 1] == a + b[..|b| - 1];
      BareConcat(a, b[..|b| - 1]);
    }
  }

  lemma {:induction false} BareKeeps(s: string, c: char)
    requires c != '_'
    ensures c in Bare(s) <==> c in s
    decreases |s|
  {
    if |s| > 0 {
      BareKeeps(s[..|s| - 1], c);
      assert s == s[..|s| - 1] + [s[|s| - 1]];
    }
  }

  lemma {:induction false} BareOfUnderscores(s: string)
    requires forall m :: 0 <= m < |s| ==> s[m] == '_'
    ensures Bare(s) == ""
    decreases |s|
  {
    if |s| > 0 {
      BareOfUnderscores(s[..|s| - 1]);
    }
  }

  /** The end of the run of `_` that starts at `i`. */
  function UnderscoreRun(s: string, i: nat): (k: nat)
    requires i <= |s|
    ensures i <= k <= |s|
    ensures forall m :: i <= m < k ==> s[m] == '_'
    ensures k < |s| ==> s[k] != '_'
    decreases |s| - i
  {
    if i == |s| || s[i] != '_' then i else UnderscoreRun(s, i + 1)
  }

  /** `s[a..c]` is `s[a..b]` followed by `s[b..c]`, without underscores. */
  lemma BareSplit(s: string, a: nat, b: nat, c: nat)
    requires a <= b <= c <= |s|
    ensures Bare(s[a..c]) == Bare(s[a..b]) + Bare(s[b..c])
  {
    assert s[a..c] == s[a..b] + s[b..c];
    BareConcat(s[a..b], s[b..c]);
  }

  /** `h` ends after `q` and its replacement is the text it matched from `q` with the
      underscores dropped. */
  predicate KeepsBare(s: string, q: nat, h: Hit) {
    q < h.end <= |s| && Bare(h.out) == Bare(s[q..h.end])
  }

  /** The closing `_+(\W|$)` from `y0`. Only the whole run of underscores can be
      followed by a non-word character or the end, so the greedy run is the only try. */
  function ClosingAt(s: string, y0: nat): (r: Option<Hit>)
    requires y0 <= |s|
    ensures r.Some? ==> KeepsBare(s, y0, r.value)
  {
    var y := UnderscoreRun(s, y0);
    if y == y0 then None
    else if y == |s| then
      BareOfUnderscores(s[y0..y]);
      Some(Hit(y, ""))
    else if !IsWordChar(s[y]) then
      BareOfUnderscores(s[y0..y]);
      BareSplit(s, y0, y, y + 1);
      Some(Hit(y + 1, [s[y]]))
    else None
  }

  /** The optional `(.*?\S)` started at `t`, its lazy part ending before `x`, then the
      closing; a longer lazy part is tried only when `s[x]` is not a line break. */
  function LazyGroupAt(s: string, t: nat, x: nat): (r: Option<Hit>)
    requires t <= x <= |s|
    ensures r.Some? ==> KeepsBare(s, t, r.value)
    decreases |s| - x
  {
    if x == |s| then None
    else
      var closing := if IsSpace(s[x]) then None else ClosingAt(s, x + 1);
      if closing.Some? then
        var h := closing.value;
        BareSplit(s, t, x + 1, h.end);
        BareConcat(s[t..x + 1], h.out);
        Some(Hit(h.end, s[t..x + 1] + h.out))
      else if IsLineTerminator(s[x]) then None
      else LazyGroupAt(s, t, x + 1)
  }

  /** After `(\S)` ends at `t`: the optional group first, then without it. */
  function AfterFirstAt(s: string, t: nat): (r: Option<Hit>)
    requires t <= |s|
    ensures r.Some? ==> KeepsBare(s, t, r.value)
  {
    var withGroup := LazyGroupAt(s, t, t);
    if withGroup.Some? then withGroup else ClosingAt(s, t)
  }

  /** Only underscores from `lo` to `hi`. */
  predicate Underscores(s: string, lo: nat, hi: nat)
    requires lo <= hi <= |s|
  {
    forall m :: lo <= m < hi ==> s[m] == '_'
  }

  /** `_+(\S)` with the underscores from `q` to `x` (and `(\S)` at `x`), trying shorter
      runs of underscores when the rest fails. */
  function OpeningAt(s: string, q: nat, x: nat): (r: Option<Hit>)
    requires q < x <= |s| && Underscores(s, q, x)
    ensures r.Some? ==> KeepsBare(s, q, r.value)
    decreases x - q
  {
    var rest := if x == |s| || IsSpace(s[x]) then None else AfterFirstAt(s, x + 1);
    if rest.Some? then
      var h := rest.value;
      BareOfUnderscores(s[q..x]);
      BareSplit(s, q, x, h.end);
      BareSplit(s, x, x + 1, h.end);
      BareConcat([s[x]], h.out);
      assert s[x..x + 1] == [s[x]];
      Some(Hit(h.end, [s[x]] + h.out))
    else if x - 1 > q then OpeningAt(s, q, x - 1)
    else None
  }

  /** The underscores and the rest of the expression from `q`. */
  function UnderscoresAt(s: string, q: nat): (r: Option<Hit>)
    requires q <= |s|
    ensures r.Some? ==> KeepsBare(s, q, r.value)
  {
    var x := UnderscoreRun(s, q);
    if x == q then None else OpeningAt(s, q, x)
  }

  /** The whole expression at `p`: `(\W|^)` tries a non-word character first, then
      the start of the text. */
  function ItalicAt(s: string, p: nat): (r: Option<Hit>)
    requires p < |s|
    ensures r.Some? ==> KeepsBare(s, p, r.value)
  {
    var rest := if IsWordChar(s[p]) then None else UnderscoresAt(s, p + 1);
    if rest.Some? then
      var h := rest.value;
      BareSplit(s, p, p + 1, h.end);
      BareConcat([s[p]], h.out);
      assert s[p..p + 1] == [s[p]];
      Some(Hit(h.end, [s[p]] + h.out))
    else if p == 0 then UnderscoresAt(s, 0)
    else None
  }

  /** The match of `rx` at `p`, if any. */
  function MatchAt(rx: Rx, s: string, p: nat): (r: Option<Hit>)
    requires p < |s|
    ensures r.Some? ==> p < r.value.end <= |s|
  {
    match rx
    case MarkdownLink => MarkdownLinkAt(s, p)
    case AliasedWikilink(forLink) => AliasedWikilinkAt(s, p, forLink)
    case Wikilink => WikilinkAt(s, p)
    case Italic => ItalicAt(s, p)
  }

  /** `s.replace(rx, replacement)` for a global `rx`, from position `i` on: the leftmost
      match is replaced and the scan resumes where it ended. */
  function ReplaceFrom(rx: Rx, s: string, i: nat): string
    requires i <= |s|
    decreases |s| - i
  {
    if i == |s| then ""
    else
      match MatchAt(rx, s, i)
      case Some(h) => h.out + ReplaceFrom(rx, s, h.end)
      case None => [s[i]] + ReplaceFrom(rx, s, i + 1)
  }

  function ReplaceRx(rx: Rx, s: string): string {
    ReplaceFrom(rx, s, 0)
  }

  /** One step of the scan where the expression matches. */
  lemma ReplaceFromHit(rx: Rx, s: string, i: nat, h: Hit)
    requires i < |s| && MatchAt(rx, s, i) == Some(h)
    ensures i < h.end <= |s|
    ensures ReplaceFrom(rx, s, i) == h.out + ReplaceFrom(rx, s, h.end)
  {
  }

  /** One step of the scan where it does not. */
  lemma ReplaceFromMiss(rx: Rx, s: string, i: nat)
    requires i < |s| && MatchAt(rx, s, i).None?
    ensures ReplaceFrom(rx, s, i) == [s[i]] + ReplaceFrom(rx, s, i + 1)
  {
  }

  /** The scan copies the text up to the next match, replaces that match and goes on
      after it. */
  lemma ReplaceFromNext(rx: Rx, s: string, p: nat, k: nat, h: Hit)
    requires p <= k < |s|
    requires forall j :: p <= j < k ==> MatchAt(rx, s, j).None?
    requires MatchAt(rx, s, k) == Some(h)
    ensures k < h.end <= |s|
    ensures ReplaceFrom(rx, s, p) == s[p..k] + h.out + ReplaceFrom(rx, s, h.end)
  {
    ReplaceFromUpTo(rx, s, p, k);
    ReplaceFromHit(rx, s, k, h);
  }

  /** Where the expression matches nowhere in `[p, k)`, the scan copies that part. */
  lemma {:induction false} ReplaceFromUpTo(rx: Rx, s: string, p: nat, k: nat)
    requires p <= k <= |s|
    requires forall j :: p <= j < k ==> MatchAt(rx, s, j).None?
    ensures ReplaceFrom(rx, s, p) == s[p..k] + ReplaceFrom(rx, s, k)
    decreases k - p
  {
    if p < k {
      ReplaceFromUpTo(rx, s, p + 1, k);
      ReplaceFromCopies(rx, s, p, k);
    }
  }

  lemma ReplaceFromCopies(rx: Rx, s: string, p: nat, k: nat)
    requires p < k <= |s| && MatchAt(rx, s, p).None?
    requires ReplaceFrom(rx, s, p + 1) == s[p + 1..k] + ReplaceFrom(rx, s, k)
    ensures ReplaceFrom(rx, s, p) == s[p..k] + ReplaceFrom(rx, s, k)
  {
    ReplaceFromMiss(rx, s, p);
    assert s[p..k] == [s[p]] + s[p + 1..k];
    PrependChain(ReplaceFrom(rx, s, p), s[p], ReplaceFrom(rx, s, p + 1), s[p + 1..k], ReplaceFrom(rx, s, k));
  }

  lemma PrependChain(r: string, c: char, q: string, a: string, z: string)
    requires r == [c] + q && q == a + z
    ensures r == [c] + a + z
  {
  }

  /** The link and wikilink replacements only keep characters of the text, and the
      link form of the aliased wikilink adds spaces. */
  lemma {:induction false} ReplaceFromChars(rx: Rx, s: string, i: nat)
    requires i <= |s| && !rx.Italic?
    ensures forall c :: c in ReplaceFrom(rx, s, i) ==> c in s[i..] || (rx == AliasedWikilink(true) && c == ' ')
    decreases |s| - i
  {
    if i < |s| {
      match MatchAt(rx, s, i)
      case Some(h) =>
        ReplaceFromChars(rx, s, h.end);
        assert forall c :: c in s[h.end..] ==> c in s[i..];
        assert forall c :: c in s[i..h.end] ==> c in s[i..];
      case None =>
        ReplaceFromChars(rx, s, i + 1);
        assert forall c :: c in s[i + 1..] ==> c in s[i..];
    }
  }

  lemma ReplaceRxChars(rx: Rx, s: string)
    requires !rx.Italic?
    ensures forall c :: c in ReplaceRx(rx, s) ==> c in s || (rx == AliasedWikilink(true) && c == ' ')
  {
    ReplaceFromChars(rx, s, 0);
    assert s[0..] == s;
  }

  /** The italic replacement removes underscores and nothing else. */
  lemma {:induction false} ReplaceFromBare(s: string, i: nat)
    requires i <= |s|
    ensures Bare(ReplaceFrom(Italic, s, i)) == Bare(s[i..])
    decreases |s| - i
  {
    if i < |s| {
      var m := MatchAt(Italic, s, i);
      if m.Some? {
        var h := m.value;
        ReplaceFromHit(Italic, s, i, h);
        assert Bare(h.out) == Bare(s[i..h.end]);
        ReplaceFromBare(s, h.end);
        BareStep(s, i, h.end, h.out, ReplaceFrom(Italic, s, h.end));
      } else {
        ReplaceFromMiss(Italic, s, i);
        ReplaceFromBare(s, i + 1);
        assert s[i..i + 1] == [s[i]];
        BareStep(s, i, i + 1, [s[i]], ReplaceFrom(Italic, s, i + 1));
      }
    }
  }

  /** A piece that agrees with `s[i..e]` followed by one that agrees with `s[e..]`. */
  lemma BareStep(s: string, i: nat, e: nat, out: string, rest: string)
    requires i <= e <= |s|
    requires Bare(out) == Bare(s[i..e]) && Bare(rest) == Bare(s[e..])
    ensures Bare(out + rest) == Bare(s[i..])
  {
    BareConcat(out, rest);
    BareSplit(s, i, e, |s|);
    assert s[i..] == s[i..|s|] && s[e..] == s[e..|s|];
  }

  lemma ItalicRemovesOnlyUnderscores(s: string)
    ensures Bare(ReplaceRx(Italic, s)) == Bare(s)
    ensures forall c :: c != '_' ==> (c in ReplaceRx(Italic, s) <==> c in s)
  {
    ReplaceFromBare(s, 0);
    assert s[0..] == s;
    forall c | c != '_' ensures c in ReplaceRx(Italic, s) <==> c in s {
      BareKeeps(s, c);
      BareKeeps(ReplaceRx(Italic, s), c);
    }
  }

  /** Where the expression matches nowhere, the text is kept. */
  lemma {:induction false} ReplaceFromNoMatch(rx: Rx, s: string, i: nat)
    requires i <= |s|
    requires forall p :: i <= p < |s| ==> MatchAt(rx, s, p).None?
    ensures ReplaceFrom(rx, s, i) == s[i..]
    decreases |s| - i
  {
    if i < |s| {
      ReplaceFromNoMatch(rx, s, i + 1);
      assert s[i..] == [s[i]] + s[i + 1..];
    }
  }

  /** A text without `[` holds no link. */
  lemma NoBracketKept(rx: Rx, s: string)
    requires !rx.Italic? && '\U{5B}' !in s
    ensures ReplaceRx(rx, s) == s
  {
    ReplaceFromNoMatch(rx, s, 0);
  }

  /** A text without `[[` holds no wikilink. */
  lemma NoOpeningKept(rx: Rx, s: string)
    requires rx.AliasedWikilink? || rx.Wikilink?
    requires forall p :: 0 <= p < |s| ==> !OpensAt(s, p)
    ensures ReplaceRx(rx, s) == s
  {
    ReplaceFromNoMatch(rx, s, 0);
  }

  /** A text without `_` has no italics to strip. */
  lemma NoUnderscoreKept(s: string)
    requires '_' !in s
    ensures ReplaceRx(Italic, s) == s
  {
    forall p | 0 <= p < |s| ensures MatchAt(Italic, s, p).None? {
      if MatchAt(Italic, s, p).Some? {
        var h := MatchAt(Italic, s, p).value;
        NoUnderscoreQuiet(s, p, h.end);
      }
    }
    ReplaceFromNoMatch(Italic, s, 0);
  }

  /** Every match of the italic expression holds an underscore. */
  lemma NoUnderscoreQuiet(s: string, p: nat, e: nat)
    requires '_' !in s && p < e <= |s|
    ensures ItalicAt(s, p).None?
  {
    if p + 1 < |s| {
      assert s[p + 1] != '_';
    }
    if |s| > 0 {
      assert s[0] != '_';
    }
  }

  // ---------------------------------------------------------------------------
  // The strip steps and the formatted heading

  /** `stripMarkdown`: bold and italics markers, code ticks, highlights and
      strikethroughs go, and markdown links keep their heading. */
  function StripMarkdown(text: string): string {
    var noStars := ReplaceAll(text, "*", "");
    var noItalics := ReplaceRx(Italic, noStars);
    var noTicks := ReplaceAll(noItalics, "`", "");
    var noHighlights := ReplaceAll(noTicks, "==", "");
    var noStrikes := ReplaceAll(noHighlights, "~~", "");
    ReplaceRx(MarkdownLink, noStrikes)
  }

  /** `stripHtml`: the host's HTML-to-markdown conversion, then `stripMarkdown`. */
  function StripHtml(text: string, html: string -> string): string {
    StripMarkdown(html(text))
  }

  /** `stripWikilinks`: wikilinks become their target and alias (for the link) or
      their alias (for the text), then stray `[[` and `|` go. */
  function StripWikilinks(text: string, isForLink: bool): string {
    var aliased := ReplaceRx(AliasedWikilink(isForLink), text);
    var plain := ReplaceRx(Wikilink, aliased);
    var noOpenings := ReplaceAll(plain, "[[", "");
    var noBarSpaces := ReplaceAll(noOpenings, "| ", if isForLink then "" else "- ");
    ReplaceAll(noBarSpaces, "|", if isForLink then " " else "-")
  }

  /** `stripTags`: every `#` becomes a space. */
  function StripTags(text: string): string {
    ReplaceAll(text, "#", " ")
  }

  /** `stripTags` turns each `#` into a space and keeps every other character in place. */
  lemma {:induction false} StripTagsReplacesHashes(text: string)
    ensures |StripTags(text)| == |text|
    ensures forall k :: 0 <= k < |text| ==> StripTags(text)[k] == if text[k] == '#' then ' ' else text[k]
    decreases |text|
  {
    if |text| > 0 {
      StripTagsReplacesHashes(text[1..]);
      assert "#" == ['#'];
      if text[0] == '#' {
        ReplaceAllAtSeparator(text, '#', " ");
      } else {
        ReplaceAllAtOther(text, '#', " ");
      }
    }
  }

  /** The part of the wikilink after `[[#`. */
  function LinkPart(heading: string): string {
    StripTags(StripWikilinks(heading, true))
  }

  /** The part of the wikilink after `|`. */
  function TextPart(heading: string, html: string -> string): string {
    StripWikilinks(StripHtml(StripMarkdown(heading), html), false)
  }

  /** `getFormattedMarkdownHeading`: the label itself, or with links the wikilink
      `[[#link|text]]` to the heading. */
  function FormatHeading(heading: string, options: TocOptions, html: string -> string): string {
    if options.includeLinks then "[[#" + LinkPart(heading) + "|" + TextPart(heading, html) + "]]"
    else heading
  }

  /** Without links the label is kept as it is. */
  lemma PlainLabelKept(heading: string, options: TocOptions, html: string -> string)
    requires !options.includeLinks
    ensures FormatHeading(heading, options, html) == heading
  {
  }

  /** The link part holds neither `#` nor `|`. */
  lemma LinkPartPlain(heading: string)
    ensures '#' !in LinkPart(heading) && '|' !in LinkPart(heading)
  {
  }

  /** `stripMarkdown` leaves no `*` and no backtick. */
  lemma StripMarkdownPlain(text: string)
    ensures '*' !in StripMarkdown(text) && '`' !in StripMarkdown(text)
  {
    var noStars := ReplaceAll(text, "*", "");
    var noItalics := ReplaceRx(Italic, noStars);
    ItalicRemovesOnlyUnderscores(noStars);
    var noStrikes := ReplaceAll(ReplaceAll(ReplaceAll(noItalics, "`", ""), "==", ""), "~~", "");
    ReplaceRxChars(MarkdownLink, noStrikes);
  }

  /** `stripWikilinks` keeps the characters of its text, adding only spaces and dashes. */
  lemma WikilinkStripChars(text: string, isForLink: bool)
    ensures forall c :: c in StripWikilinks(text, isForLink) ==> c in text || c == ' ' || c == '-'
  {
    ReplaceRxChars(AliasedWikilink(isForLink), text);
    var aliased := ReplaceRx(AliasedWikilink(isForLink), text);
    ReplaceRxChars(Wikilink, aliased);
  }

  /** The text part holds no `|`, no `*` and no backtick, whatever the HTML conversion returns. */
  lemma TextPartPlain(heading: string, html: string -> string)
    ensures '|' !in TextPart(heading, html) && '*' !in TextPart(heading, html) && '`' !in TextPart(heading, html)
  {
    var stripped := StripHtml(StripMarkdown(heading), html);
    StripMarkdownPlain(html(StripMarkdown(heading)));
    WikilinkStripChars(stripped, false);
  }

  /** With links, the result is a wikilink `[[#...]]` with exactly one `|`, so the
      link and the shown text are never confused, whatever the heading holds. */
  lemma FormattedHeadingShape(heading: string, options: TocOptions, html: string -> string)
    requires options.includeLinks
    ensures var r := FormatHeading(heading, options, html);
      && |r| >= 6 && r[..3] == "[[#" && r[|r| - 2..] == "]]"
      && CountChar(r, '|') == 1
  {
    LinkPartPlain(heading);
    TextPartPlain(heading, html);
    WrappedOneBar(LinkPart(heading), TextPart(heading, html));
  }

  lemma WrappedOneBar(link: string, text: string)
    requires '|' !in link && '|' !in text
    ensures CountChar("[[#" + link + "|" + text + "]]", '|') == 1
  {
    var before := "[[#" + link;
    var after := text + "]]";
    assert '|' !in before;
    assert '|' !in after;
    assert "[[#" + link + "|" + text + "]]" == before + "|" + after;
    OneBar(before, after);
  }

  lemma OneBar(a: string, b: string)
    requires '|' !in a && '|' !in b
    ensures CountChar(a + "|" + b, '|') == 1
  {
    CountCharConcat(a + "|", b, '|');
    CountCharConcat(a, "|", '|');
  }

  // ---------------------------------------------------------------------------
  // Formatting of concrete heading shapes

  /** A text that holds none of the characters the strip steps act on. */
  predicate Unmarked(t: string) {
    '*' !in t && '_' !in t && '`' !in t && '=' !in t && '~' !in t && '\U{5B}' !in t && '|' !in t
  }

  lemma StripMarkdownUnmarked(t: string)
    requires Unmarked(t)
    ensures StripMarkdown(t) == t
  {
    NoUnderscoreKept(t);
    NoBracketKept(MarkdownLink, t);
  }

  lemma StripWikilinksUnmarked(t: string, isForLink: bool)
    requires '\U{5B}' !in t && '|' !in t
    ensures StripWikilinks(t, isForLink) == t
  {
    NoBracketKept(AliasedWikilink(isForLink), t);
    NoBracketKept(Wikilink, t);
  }

  /** A heading without markup keeps its text, and its link only has `#` turned
      into spaces, when the HTML conversion leaves it alone. */
  lemma UnmarkedHeadingFormatted(heading: string, options: TocOptions, html: string -> string)
    requires options.includeLinks && Unmarked(heading) && html(heading) == heading
    ensures FormatHeading(heading, options, html) == "[[#" + StripTags(heading) + "|" + heading + "]]"
    ensures '#' !in heading ==> FormatHeading(heading, options, html) == "[[#" + heading + "|" + heading + "]]"
  {
    StripMarkdownUnmarked(heading);
    StripWikilinksUnmarked(heading, true);
    StripWikilinksUnmarked(heading, false);
  }

  /** The empty heading gives `[[#|]]`. */
  lemma EmptyHeadingFormatted(options: TocOptions, html: string -> string)
    requires options.includeLinks && html("") == ""
    ensures FormatHeading("", options, html) == "[[#|]]"
  {
    UnmarkedHeadingFormatted("", options, html);
  }

  /** A text between two doubled markers `==` or `~~` loses both markers. */
  lemma ReplaceAllDelimited(marker: string, x: string)
    requires |marker| == 2 && marker[0] == marker[1] && marker[0] !in x
    ensures ReplaceAll(marker + x + marker, marker, "") == x
  {
    var s := marker + x + marker;
    assert s[..2] == marker;
    ReplaceAllLeftmost(s, marker, "", 0);
    var t := x + marker;
    assert s[2..] == t;
    assert t[|x|..|x| + 2] == marker;
    forall j: nat | j < |x| ensures !OccursAt(t, marker, j) {
      assert t[j] == x[j];
      if j + 2 <= |t| {
        assert t[j..j + 2][0] == t[j];
      }
    }
    ReplaceAllLeftmost(t, marker, "", |x|);
    assert t[..|x|] == x;
    assert t[|x| + 2..] == "";
  }

  /** `stripMarkdown` removes the highlight markers of `==x==` and the strikethrough
      markers of `~~x~~`. */
  lemma DelimitedStripped(marker: string, x: string)
    requires marker == "==" || marker == "~~"
    requires Unmarked(x)
    ensures StripMarkdown(marker + x + marker) == x
  {
    var s := marker + x + marker;
    assert '*' !in s && '_' !in s && '`' !in s;
    NoUnderscoreKept(s);
    ReplaceAllDelimited(marker, x);
    if marker == "~~" {
      assert '=' !in s;
    }
    NoBracketKept(MarkdownLink, x);
  }

  /** A highlighted or struck-through label keeps its markers in the link part and
      shows only its text, when the HTML conversion leaves the text alone. */
  lemma DelimitedFormatted(marker: string, x: string, options: TocOptions, html: string -> string)
    requires options.includeLinks && html(x) == x
    requires marker == "==" || marker == "~~"
    requires Unmarked(x) && '#' !in x
    ensures var s := marker + x + marker; FormatHeading(s, options, html) == "[[#" + s + "|" + x + "]]"
  {
    DelimitedText(marker, x, html);
    DelimitedLink(marker, x);
  }

  lemma DelimitedText(marker: string, x: string, html: string -> string)
    requires html(x) == x && (marker == "==" || marker == "~~") && Unmarked(x)
    ensures TextPart(marker + x + marker, html) == x
  {
    DelimitedStripped(marker, x);
    StripMarkdownUnmarked(x);
    StripWikilinksUnmarked(x, false);
  }

  lemma DelimitedLink(marker: string, x: string)
    requires (marker == "==" || marker == "~~") && Unmarked(x) && '#' !in x
    ensures LinkPart(marker + x + marker) == marker + x + marker
  {
    var s := marker + x + marker;
    assert '\U{5B}' !in s && '|' !in s && '#' !in s;
    StripWikilinksUnmarked(s, true);
  }

  /** A heading made only of `*` keeps it in the link part and has an empty text part. */
  lemma StarsHeadingFormatted(heading: string, options: TocOptions, html: string -> string)
    requires options.includeLinks && html("") == ""
    requires forall k :: 0 <= k < |heading| ==> heading[k] == '*'
    ensures FormatHeading(heading, options, html) == "[[#" + heading + "|]]"
  {
    StarsTextEmpty(heading, html);
    StarsLinkKept(heading);
    WrapEmptyText(heading);
  }

  lemma WrapEmptyText(link: string)
    ensures "[[#" + link + "|" + "" + "]]" == "[[#" + link + "|]]"
  {
    assert "|" + "" == "|";
  }

  lemma StarsTextEmpty(heading: string, html: string -> string)
    requires html("") == ""
    requires forall k :: 0 <= k < |heading| ==> heading[k] == '*'
    ensures TextPart(heading, html) == ""
  {
    StarsStripped(heading);
    assert Unmarked("");
    StripMarkdownUnmarked("");
    assert StripHtml(StripMarkdown(heading), html) == "";
    StripWikilinksUnmarked("", false);
  }

  lemma StarsStripped(heading: string)
    requires forall k :: 0 <= k < |heading| ==> heading[k] == '*'
    ensures StripMarkdown(heading) == ""
  {
    var noStars := ReplaceAll(heading, "*", "");
    StarsReplaced(heading);
    assert Unmarked("");
    StripMarkdownUnmarked(noStars);
  }

  lemma {:induction false} StarsReplaced(heading: string)
    requires forall k :: 0 <= k < |heading| ==> heading[k] == '*'
    ensures ReplaceAll(heading, "*", "") == ""
    decreases |heading|
  {
    if |heading| > 0 {
      assert "*" == ['*'];
      ReplaceAllAtSeparator(heading, '*', "");
      StarsReplaced(heading[1..]);
    }
  }

  lemma StarsLinkKept(heading: string)
    requires forall k :: 0 <= k < |heading| ==> heading[k] == '*'
    ensures LinkPart(heading) == heading
  {
    assert '\U{5B}' !in heading && '|' !in heading && '#' !in heading;
    StripWikilinksUnmarked(heading, true);
  }

  // ---------------------------------------------------------------------------
  // Links and wikilinks on their own

  lemma NextIndexIs(s: string, c: char, i: nat, k: nat)
    requires i <= k <= |s|
    requires forall m :: i <= m < k ==> s[m] != c
    requires k < |s| ==> s[k] == c
    ensures NextIndex(s, c, i) == k
    decreases k - i
  {
    if i < k {
      NextIndexIs(s, c, i + 1, k);
    }
  }

  lemma LastBarIs(s: string, lo: nat, bar: nat, hi: nat)
    requires lo <= bar < hi <= |s| && s[bar] == '|'
    requires forall m :: bar < m < hi ==> s[m] != '|'
    ensures LastBar(s, lo, hi) == Some(bar)
    decreases hi - bar
  {
    if bar < hi - 1 {
      LastBarIs(s, lo, bar, hi - 1);
    }
  }

  /** `[text](url)` starts at `p`, its text ends before `k` and its URL before `e`:
      both are non-empty runs without their closing character. */
  predicate MarkdownLinkSpan(s: string, p: nat, k: nat, e: nat) {
    p + 1 < k && k + 2 < e < |s| && s[p] == '\U{5B}'
    && (forall m :: p + 1 <= m < k ==> s[m] != '\U{5D}') && s[k] == '\U{5D}' && s[k + 1] == '\U{28}'
    && (forall m :: k + 2 <= m < e ==> s[m] != '\U{29}') && s[e] == '\U{29}'
  }

  /** At any position, `\[([^\]]+)\]\([^)]+\)` matches exactly when a link starts
      there, and then it consumes the link and leaves its text. */
  lemma MarkdownLinkAtIsLink(s: string, p: nat)
    requires p < |s|
    ensures MarkdownLinkAt(s, p).Some? <==> exists k: nat, e: nat :: MarkdownLinkSpan(s, p, k, e)
    ensures forall k: nat, e: nat :: MarkdownLinkSpan(s, p, k, e) ==> MarkdownLinkAt(s, p) == Some(Hit(e + 1, s[p + 1..k]))
  {
    forall k: nat, e: nat | MarkdownLinkSpan(s, p, k, e) ensures MarkdownLinkAt(s, p) == Some(Hit(e + 1, s[p + 1..k])) {
      NextIndexIs(s, '\U{5D}', p + 1, k);
      NextIndexIs(s, '\U{29}', k + 2, e);
    }
    if MarkdownLinkAt(s, p).Some? {
      var k := NextIndex(s, '\U{5D}', p + 1);
      var e := NextIndex(s, '\U{29}', k + 2);
      assert MarkdownLinkSpan(s, p, k, e);
    }
  }

  /** `[[target]]` starts at `p` and its non-empty target ends before `k`. */
  predicate WikilinkSpan(s: string, p: nat, k: nat) {
    OpensAt(s, p) && p + 2 < k && k + 1 < |s|
    && (forall m :: p + 2 <= m < k ==> s[m] != '\U{5D}') && s[k] == '\U{5D}' && s[k + 1] == '\U{5D}'
  }

  /** At any position, `\[\[([^\]]+)\]\]` matches exactly when a wikilink starts there,
      and then it consumes the wikilink and leaves its target. */
  lemma WikilinkAtIsWikilink(s: string, p: nat)
    requires p < |s|
    ensures WikilinkAt(s, p).Some? <==> exists k: nat :: WikilinkSpan(s, p, k)
    ensures forall k: nat :: WikilinkSpan(s, p, k) ==> WikilinkAt(s, p) == Some(Hit(k + 2, s[p + 2..k]))
  {
    forall k: nat | WikilinkSpan(s, p, k) ensures WikilinkAt(s, p) == Some(Hit(k + 2, s[p + 2..k])) {
      NextIndexIs(s, '\U{5D}', p + 2, k);
    }
    if WikilinkAt(s, p).Some? {
      assert WikilinkSpan(s, p, NextIndex(s, '\U{5D}', p + 2));
    }
  }

  /** `[[target|alias]]` starts at `p`, closes at `k`, and `bar` is the last `|` that
      leaves both the target and the alias non-empty: the split the greedy first
      group settles on. */
  predicate AliasedSpan(s: string, p: nat, bar: nat, k: nat) {
    WikilinkSpan(s, p, k) && p + 2 < bar && bar + 1 < k && s[bar] == '|'
    && forall m :: bar < m < k - 1 ==> s[m] != '|'
  }

  /** At any position, `\[\[([^\]]+)\|([^\]]+)\]\]` matches exactly when an aliased
      wikilink starts there, and then it consumes it and leaves `target alias` for
      the link or `alias` for the text. */
  lemma AliasedWikilinkAtIsAliased(s: string, p: nat, forLink: bool)
    requires p < |s|
    ensures AliasedWikilinkAt(s, p, forLink).Some? <==> exists bar: nat, k: nat :: AliasedSpan(s, p, bar, k)
    ensures forall bar: nat, k: nat :: AliasedSpan(s, p, bar, k) ==>
      AliasedWikilinkAt(s, p, forLink) == Some(Hit(k + 2, AliasedOut(s, p, bar, k, forLink)))
  {
    forall bar: nat, k: nat | AliasedSpan(s, p, bar, k)
      ensures AliasedWikilinkAt(s, p, forLink) == Some(Hit(k + 2, AliasedOut(s, p, bar, k, forLink)))
    {
      NextIndexIs(s, '\U{5D}', p + 2, k);
      LastBarIs(s, p + 3, bar, k - 1);
    }
    if AliasedWikilinkAt(s, p, forLink).Some? {
      var k := NextIndex(s, '\U{5D}', p + 2);
      var bar := LastBar(s, p + 3, k - 1).value;
      assert AliasedSpan(s, p, bar, k);
    }
  }

  /** A match that covers the whole text. */
  lemma ReplaceRxWhole(rx: Rx, s: string, h: Hit)
    requires |s| > 0 && MatchAt(rx, s, 0) == Some(h) && h.end == |s|
    ensures ReplaceRx(rx, s) == h.out
  {
    ReplaceFromHit(rx, s, 0, h);
  }

  /** The positions of `[[target|alias]]`. */
  lemma AliasedIndices(target: string, alias: string)
    ensures var s := "[[" + target + "|" + alias + "]]";
      && |s| == |target| + |alias| + 5
      && OpensAt(s, 0)
      && (forall m :: 0 <= m < |target| ==> s[2 + m] == target[m])
      && s[2 + |target|] == '|'
      && (forall m :: 0 <= m < |alias| ==> s[3 + |target| + m] == alias[m])
      && s[|s| - 2] == '\U{5D}' && s[|s| - 1] == '\U{5D}'
  {
  }

  /** The aliased wikilink expression matches the whole of `[[target|alias]]`. */
  lemma AliasedMatch(target: string, alias: string, isForLink: bool)
    requires |target| > 0 && |alias| > 0
    requires '\U{5D}' !in target && '\U{5D}' !in alias && '|' !in alias
    ensures var s := "[[" + target + "|" + alias + "]]";
      MatchAt(AliasedWikilink(isForLink), s, 0) ==
        Some(Hit(|s|, if isForLink then target + " " + alias else alias))
  {
    AliasedIndices(target, alias);
    AliasedMatchAt("[[" + target + "|" + alias + "]]", target, alias, isForLink);
  }

  lemma AliasedMatchAt(s: string, target: string, alias: string, isForLink: bool)
    requires |target| > 0 && |alias| > 0
    requires '\U{5D}' !in target && '\U{5D}' !in alias && '|' !in alias
    requires |s| == |target| + |alias| + 5 && OpensAt(s, 0)
    requires forall m :: 0 <= m < |target| ==> s[2 + m] == target[m]
    requires s[2 + |target|] == '|'
    requires forall m :: 0 <= m < |alias| ==> s[3 + |target| + m] == alias[m]
    requires s[|s| - 2] == '\U{5D}' && s[|s| - 1] == '\U{5D}'
    ensures MatchAt(AliasedWikilink(isForLink), s, 0) ==
      Some(Hit(|s|, if isForLink then target + " " + alias else alias))
  {
    var bar := 2 + |target|;
    var k := |s| - 2;
    assert forall m :: 2 <= m < k ==> s[m] != '\U{5D}' by {
      forall m | 2 <= m < k ensures s[m] != '\U{5D}' {
        if m < bar {
          assert s[m] == target[m - 2];
        } else if bar < m {
          assert s[m] == alias[m - bar - 1];
        }
      }
    }
    NextIndexIs(s, '\U{5D}', 2, k);
    assert forall m :: bar < m < k - 1 ==> s[m] != '|' by {
      forall m | bar < m < k - 1 ensures s[m] != '|' {
        assert s[m] == alias[m - bar - 1];
      }
    }
    LastBarIs(s, 3, bar, k - 1);
    assert s[2..bar] == target;
    assert s[bar + 1..k] == alias;
  }

  /** `[[target|alias]]` becomes `target alias` for the link and `alias` for the text. */
  lemma AliasedWikilinkStripped(target: string, alias: string, isForLink: bool)
    requires |target| > 0 && |alias| > 0
    requires '\U{5D}' !in target && '\U{5B}' !in target && '|' !in target
    requires '\U{5D}' !in alias && '\U{5B}' !in alias && '|' !in alias
    ensures StripWikilinks("[[" + target + "|" + alias + "]]", isForLink) ==
      if isForLink then target + " " + alias else alias
  {
    var s := "[[" + target + "|" + alias + "]]";
    var out := if isForLink then target + " " + alias else alias;
    AliasedMatch(target, alias, isForLink);
    ReplaceRxWhole(AliasedWikilink(isForLink), s, Hit(|s|, out));
    StripWikilinksTail(out, isForLink);
  }

  /** With no `[` and no `|` left, the rest of `stripWikilinks` keeps the text. */
  lemma StripWikilinksTail(out: string, isForLink: bool)
    requires '\U{5B}' !in out && '|' !in out
    ensures ReplaceAll(ReplaceAll(ReplaceAll(ReplaceRx(Wikilink, out), "[[", ""), "| ", if isForLink then "" else "- "),
                       "|", if isForLink then " " else "-") == out
  {
    NoBracketKept(Wikilink, out);
  }

  /** `[[target]]` becomes `target`. */
  lemma WikilinkStripped(target: string, isForLink: bool)
    requires |target| > 0 && '\U{5D}' !in target && '\U{5B}' !in target && '|' !in target
    ensures StripWikilinks("[[" + target + "]]", isForLink) == target
  {
    var s := "[[" + target + "]]";
    WikilinkIndices(target);
    WikilinkNotAliased(s, target, isForLink);
    ReplaceFromNoMatch(AliasedWikilink(isForLink), s, 0);
    WikilinkMatchAt(s, target);
    ReplaceRxWhole(Wikilink, s, Hit(|s|, target));
  }

  /** The positions of `[[target]]`. */
  lemma WikilinkIndices(target: string)
    ensures var s := "[[" + target + "]]";
      && |s| == |target| + 4 && OpensAt(s, 0)
      && (forall m :: 0 <= m < |target| ==> s[2 + m] == target[m])
      && s[|s| - 2] == '\U{5D}' && s[|s| - 1] == '\U{5D}'
  {
  }

  /** In `[[target]]` without a bar the aliased form matches nowhere. */
  lemma WikilinkNotAliased(s: string, target: string, isForLink: bool)
    requires |target| > 0 && '\U{5D}' !in target && '\U{5B}' !in target && '|' !in target
    requires |s| == |target| + 4 && OpensAt(s, 0)
    requires forall m :: 0 <= m < |target| ==> s[2 + m] == target[m]
    requires s[|s| - 2] == '\U{5D}' && s[|s| - 1] == '\U{5D}'
    ensures forall p :: 0 <= p < |s| ==> MatchAt(AliasedWikilink(isForLink), s, p).None?
  {
    var k := |s| - 2;
    assert forall m :: 2 <= m < k ==> s[m] != '\U{5D}' && s[m] != '|' && s[m] != '\U{5B}' by {
      forall m | 2 <= m < k ensures s[m] != '\U{5D}' && s[m] != '|' && s[m] != '\U{5B}' {
        assert s[m] == target[m - 2];
      }
    }
    NextIndexIs(s, '\U{5D}', 2, k);
    assert AliasedWikilinkAt(s, 0, isForLink).None? by {
      if k >= 5 {
        assert LastBar(s, 3, k - 1).None?;
      }
    }
    forall p | 0 < p < |s| ensures !OpensAt(s, p) {
      if p + 1 < |s| {
        assert s[p + 1] != '\U{5B}';
      }
    }
  }

  /** The wikilink expression matches the whole of `[[target]]`. */
  lemma WikilinkMatchAt(s: string, target: string)
    requires |target| > 0 && '\U{5D}' !in target
    requires |s| == |target| + 4 && OpensAt(s, 0)
    requires forall m :: 0 <= m < |target| ==> s[2 + m] == target[m]
    requires s[|s| - 2] == '\U{5D}' && s[|s| - 1] == '\U{5D}'
    ensures MatchAt(Wikilink, s, 0) == Some(Hit(|s|, target))
  {
    var k := |s| - 2;
    assert forall m :: 2 <= m < k ==> s[m] != '\U{5D}' by {
      forall m | 2 <= m < k ensures s[m] != '\U{5D}' {
        assert s[m] == target[m - 2];
      }
    }
    NextIndexIs(s, '\U{5D}', 2, k);
    assert s[2..k] == target;
  }

  /** A text none of whose characters are link brackets or marks of `stripMarkdown`;
      it may hold `|`. */
  predicate Inner(t: string) {
    '*' !in t && '_' !in t && '`' !in t && '=' !in t && '~' !in t && '\U{5B}' !in t && '\U{5D}' !in t
  }

  /** `stripMarkdown` keeps a wikilink whose inside is `Inner`. */
  lemma WikilinkUnmarked(s: string, inner: string)
    requires s == "[[" + inner + "]]" && Inner(inner)
    ensures StripMarkdown(s) == s
  {
    assert forall m :: 2 <= m < |s| - 2 ==> s[m] == inner[m - 2];
    assert '*' !in s && '_' !in s && '`' !in s && '=' !in s && '~' !in s;
    NoUnderscoreKept(s);
    forall p | 0 <= p < |s| ensures MatchAt(MarkdownLink, s, p).None? {
      if p < 2 {
        NextIndexIs(s, '\U{5D}', p + 1, |s| - 2);
      } else if p < |s| - 2 {
        assert s[p] == inner[p - 2];
      }
    }
    ReplaceFromNoMatch(MarkdownLink, s, 0);
  }

  /** `[[target|alias]]` as a whole heading links to `target alias`, with `#` turned
      into spaces, and shows `alias`, when the HTML conversion leaves it alone. */
  lemma AliasedWikilinkFormatted(target: string, alias: string, options: TocOptions, html: string -> string)
    requires options.includeLinks && html("[[" + target + "|" + alias + "]]") == "[[" + target + "|" + alias + "]]"
    requires |target| > 0 && |alias| > 0 && Inner(target) && Inner(alias) && '|' !in target && '|' !in alias
    ensures FormatHeading("[[" + target + "|" + alias + "]]", options, html) ==
      "[[#" + StripTags(target + " " + alias) + "|" + alias + "]]"
  {
    var s := "[[" + target + "|" + alias + "]]";
    assert s == "[[" + (target + "|" + alias) + "]]";
    WikilinkUnmarked(s, target + "|" + alias);
    AliasedWikilinkStripped(target, alias, true);
    AliasedWikilinkStripped(target, alias, false);
  }

  /** `[[target]]` as a whole heading links to `target`, with `#` turned into spaces,
      and shows `target`, when the HTML conversion leaves it alone. */
  lemma WikilinkFormatted(target: string, options: TocOptions, html: string -> string)
    requires options.includeLinks && html("[[" + target + "]]") == "[[" + target + "]]"
    requires |target| > 0 && Inner(target) && '|' !in target
    ensures FormatHeading("[[" + target + "]]", options, html) == "[[#" + StripTags(target) + "|" + target + "]]"
  {
    WikilinkUnmarked("[[" + target + "]]", target);
    WikilinkStripped(target, true);
    WikilinkStripped(target, false);
  }

  // ---------------------------------------------------------------------------
  // Wikilinks inside a longer label

  /** Where the text holds no `[`, no bracket expression matches. */
  lemma NoBracketBetween(rx: Rx, s: string, i: nat, j: nat)
    requires !rx.Italic? && i <= j <= |s|
    requires forall m :: i <= m < j ==> s[m] != '\U{5B}'
    ensures forall m :: i <= m < j ==> MatchAt(rx, s, m).None?
  {
  }

  /** A scan that meets exactly one match keeps the text on either side of it. */
  lemma ReplaceRxOnce(rx: Rx, s: string, p: nat, h: Hit)
    requires p < |s| && MatchAt(rx, s, p) == Some(h)
    requires forall m :: 0 <= m < p ==> MatchAt(rx, s, m).None?
    requires forall m :: h.end <= m < |s| ==> MatchAt(rx, s, m).None?
    ensures ReplaceRx(rx, s) == s[..p] + h.out + s[h.end..]
  {
    ReplaceFromNext(rx, s, 0, p, h);
    ReplaceFromNoMatch(rx, s, h.end);
    assert s[0..p] == s[..p];
  }

  /** `s` is `pre[[inner]]post`, position by position. */
  predicate LabelLayout(s: string, pre: string, inner: string, post: string) {
    var p := |pre|;
    var k := p + 2 + |inner|;
    && |s| == k + 2 + |post|
    && (forall m :: 0 <= m < p ==> s[m] == pre[m])
    && OpensAt(s, p)
    && (forall m :: p + 2 <= m < k ==> s[m] == inner[m - p - 2])
    && s[k] == '\U{5D}' && s[k + 1] == '\U{5D}'
    && (forall m :: k + 2 <= m < |s| ==> s[m] == post[m - k - 2])
    && s[..p] == pre && s[p + 2..k] == inner && s[k + 2..] == post
  }

  lemma LabelIndices(pre: string, inner: string, post: string)
    ensures LabelLayout(pre + "[[" + inner + "]]" + post, pre, inner, post)
  {
  }

  /** `stripMarkdown` keeps a label with a wikilink when none of its parts has markup
      or stray brackets. */
  lemma LabelUnmarked(pre: string, inner: string, post: string)
    requires Inner(pre) && Inner(inner) && Inner(post)
    ensures StripMarkdown(pre + "[[" + inner + "]]" + post) == pre + "[[" + inner + "]]" + post
  {
    var s := pre + "[[" + inner + "]]" + post;
    LabelIndices(pre, inner, post);
    LayoutUnmarked(s, pre, inner, post);
  }

  lemma LayoutUnmarked(s: string, pre: string, inner: string, post: string)
    requires LabelLayout(s, pre, inner, post) && Inner(pre) && Inner(inner) && Inner(post)
    ensures StripMarkdown(s) == s
  {
    LayoutNoMarks(s, pre, inner, post);
    NoUnderscoreKept(s);
    LayoutNoMarkdownLink(s, pre, inner, post);
    ReplaceFromNoMatch(MarkdownLink, s, 0);
  }

  lemma LayoutNoMarks(s: string, pre: string, inner: string, post: string)
    requires LabelLayout(s, pre, inner, post) && Inner(pre) && Inner(inner) && Inner(post)
    ensures '*' !in s && '_' !in s && '`' !in s && '=' !in s && '~' !in s
  {
    var p := |pre|;
    var k := p + 2 + |inner|;
    forall m | 0 <= m < |s| ensures s[m] !in "*_`=~" {
      if m < p {
        assert s[m] == pre[m];
      } else if p + 2 <= m < k {
        assert s[m] == inner[m - p - 2];
      } else if k + 2 <= m {
        assert s[m] == post[m - k - 2];
      }
    }
  }

  /** The markdown-link expression needs `](` after its text; the layout's only `]`
      is followed by another. */
  lemma LayoutNoMarkdownLink(s: string, pre: string, inner: string, post: string)
    requires LabelLayout(s, pre, inner, post) && Inner(pre) && Inner(inner) && Inner(post)
    ensures forall j :: 0 <= j < |s| ==> MatchAt(MarkdownLink, s, j).None?
  {
    var p := |pre|;
    var k := p + 2 + |inner|;
    forall j | 0 <= j < |s| ensures MatchAt(MarkdownLink, s, j).None? {
      if j == p || j == p + 1 {
        forall m | j + 1 <= m < k ensures s[m] != '\U{5D}' {
          if m >= p + 2 {
            assert s[m] == inner[m - p - 2];
          }
        }
        NextIndexIs(s, '\U{5D}', j + 1, k);
      } else if j < p {
        assert s[j] == pre[j];
      } else if j < k {
        assert s[j] == inner[j - p - 2];
      } else if j >= k + 2 {
        assert s[j] == post[j - k - 2];
      }
    }
  }

  /** Inside a longer label, `[[target|alias]]` becomes `target alias` for the link and
      `alias` for the text, and the text around it is kept. */
  lemma AliasedWikilinkInLabel(pre: string, target: string, alias: string, post: string, isForLink: bool)
    requires |target| > 0 && |alias| > 0
    requires '\U{5B}' !in pre && '|' !in pre && '\U{5B}' !in post && '|' !in post
    requires '\U{5D}' !in target && '\U{5B}' !in target && '|' !in target
    requires '\U{5D}' !in alias && '\U{5B}' !in alias && '|' !in alias
    ensures StripWikilinks(pre + "[[" + target + "|" + alias + "]]" + post, isForLink) ==
      pre + (if isForLink then target + " " + alias else alias) + post
  {
    var s := pre + "[[" + (target + "|" + alias) + "]]" + post;
    assert s == pre + "[[" + target + "|" + alias + "]]" + post;
    LabelIndices(pre, target + "|" + alias, post);
    var out := if isForLink then target + " " + alias else alias;
    AliasedLayoutReplaced(s, pre, target, alias, post, isForLink);
    StripWikilinksTail(pre + out + post, isForLink);
  }

  lemma AliasedLayoutReplaced(s: string, pre: string, target: string, alias: string, post: string, isForLink: bool)
    requires LabelLayout(s, pre, target + "|" + alias, post)
    requires |target| > 0 && |alias| > 0 && '\U{5B}' !in pre && '\U{5B}' !in post
    requires '\U{5D}' !in target && '\U{5D}' !in alias && '|' !in alias
    ensures ReplaceRx(AliasedWikilink(isForLink), s) ==
      pre + (if isForLink then target + " " + alias else alias) + post
  {
    var p := |pre|;
    var bar := p + 2 + |target|;
    var k := bar + 1 + |alias|;
    LayoutOutside(s, pre, target + "|" + alias, post, '\U{5B}');
    AliasedLayoutSpan(s, pre, target, alias, post);
    AliasedScan(s, p, bar, k, isForLink);
  }

  /** Where the layout's text around the wikilink lacks `c`, so does `s` there. */
  lemma LayoutOutside(s: string, pre: string, inner: string, post: string, c: char)
    requires LabelLayout(s, pre, inner, post) && c !in pre && c !in post
    ensures forall m :: 0 <= m < |pre| ==> s[m] != c
    ensures forall m :: |pre| + |inner| + 4 <= m < |s| ==> s[m] != c
  {
    var k := |pre| + 2 + |inner|;
    forall m | 0 <= m < |pre| ensures s[m] != c {
      assert s[m] == pre[m];
    }
    forall m | k + 2 <= m < |s| ensures s[m] != c {
      assert s[m] == post[m - k - 2];
    }
  }

  /** An aliased wikilink with no `[` around it is the one match of the scan. */
  lemma AliasedScan(s: string, p: nat, bar: nat, k: nat, isForLink: bool)
    requires AliasedSpan(s, p, bar, k)
    requires forall m :: 0 <= m < p ==> s[m] != '\U{5B}'
    requires forall m :: k + 2 <= m < |s| ==> s[m] != '\U{5B}'
    ensures ReplaceRx(AliasedWikilink(isForLink), s) == s[..p] + AliasedOut(s, p, bar, k, isForLink) + s[k + 2..]
  {
    var rx := AliasedWikilink(isForLink);
    NoBracketBetween(rx, s, 0, p);
    AliasedWikilinkAtIsAliased(s, p, isForLink);
    NoBracketBetween(rx, s, k + 2, |s|);
    ReplaceRxOnce(rx, s, p, Hit(k + 2, AliasedOut(s, p, bar, k, isForLink)));
  }

  /** The aliased wikilink of the layout is a span whose groups are `target` and
      `alias`. */
  lemma AliasedLayoutSpan(s: string, pre: string, target: string, alias: string, post: string)
    requires LabelLayout(s, pre, target + "|" + alias, post)
    requires |target| > 0 && |alias| > 0
    requires '\U{5D}' !in target && '\U{5D}' !in alias && '|' !in alias
    ensures var p := |pre|; var bar := p + 2 + |target|; var k := bar + 1 + |alias|;
      AliasedSpan(s, p, bar, k) && s[p + 2..bar] == target && s[bar + 1..k] == alias
  {
    var inner := target + "|" + alias;
    var p := |pre|;
    var bar := p + 2 + |target|;
    var k := bar + 1 + |alias|;
    AliasedInner(target, alias);
    assert s[bar] == inner[|target|];
    forall m | p + 2 <= m < k ensures s[m] != '\U{5D}' {
      assert s[m] == inner[m - p - 2];
    }
    forall m | bar < m < k - 1 ensures s[m] != '|' {
      assert s[m] == inner[m - p - 2];
    }
    assert s[p + 2..bar] == s[p + 2..k][..|target|];
    assert s[bar + 1..k] == s[p + 2..k][|target| + 1..];
  }

  /** The positions of `target|alias`. */
  lemma AliasedInner(target: string, alias: string)
    ensures var inner := target + "|" + alias;
      && |inner| == |target| + 1 + |alias|
      && (forall m :: 0 <= m < |target| ==> inner[m] == target[m])
      && inner[|target|] == '|'
      && (forall m :: |target| < m < |inner| ==> inner[m] == alias[m - |target| - 1])
      && inner[..|target|] == target && inner[|target| + 1..] == alias
  {
  }

  /** Inside a longer label, `[[target]]` becomes `target`, and the text around it is
      kept. */
  lemma WikilinkInLabel(pre: string, target: string, post: string, isForLink: bool)
    requires |target| > 0 && '\U{5D}' !in target && '\U{5B}' !in target && '|' !in target
    requires '\U{5B}' !in pre && '|' !in pre && '\U{5B}' !in post && '|' !in post
    ensures StripWikilinks(pre + "[[" + target + "]]" + post, isForLink) == pre + target + post
  {
    var s := pre + "[[" + target + "]]" + post;
    LabelIndices(pre, target, post);
    WikilinkLayoutReplaced(s, pre, target, post, isForLink);
    var r := pre + target + post;
    assert '\U{5B}' !in r && '|' !in r;
  }

  lemma WikilinkLayoutReplaced(s: string, pre: string, target: string, post: string, isForLink: bool)
    requires LabelLayout(s, pre, target, post)
    requires |target| > 0 && '\U{5D}' !in target && '|' !in target
    requires '\U{5B}' !in pre && '|' !in pre && '\U{5B}' !in post && '|' !in post
    ensures ReplaceRx(AliasedWikilink(isForLink), s) == s
    ensures ReplaceRx(Wikilink, s) == pre + target + post
  {
    var p := |pre|;
    var k := p + 2 + |target|;
    LayoutOutside(s, pre, target, post, '|');
    forall m | p + 2 <= m < k ensures s[m] != '\U{5D}' && s[m] != '|' {
      assert s[m] == target[m - p - 2];
    }
    forall j | 0 <= j < |s| ensures MatchAt(AliasedWikilink(isForLink), s, j).None? {
      AliasedWikilinkAtIsAliased(s, j, isForLink);
    }
    ReplaceFromNoMatch(AliasedWikilink(isForLink), s, 0);
    LayoutOutside(s, pre, target, post, '\U{5B}');
    NoBracketBetween(Wikilink, s, 0, p);
    assert WikilinkSpan(s, p, k);
    WikilinkAtIsWikilink(s, p);
    NoBracketBetween(Wikilink, s, k + 2, |s|);
    ReplaceRxOnce(Wikilink, s, p, Hit(k + 2, target));
  }

  /** An aliased wikilink inside a longer label links to `target alias` and shows
      `alias`, with the text on both sides kept, when the HTML conversion leaves the
      label alone. */
  lemma AliasedWikilinkInLabelFormatted(pre: string, target: string, alias: string, post: string,
                                        options: TocOptions, html: string -> string)
    requires options.includeLinks
    requires html(pre + "[[" + target + "|" + alias + "]]" + post) == pre + "[[" + target + "|" + alias + "]]" + post
    requires |target| > 0 && |alias| > 0
    requires Inner(pre) && Inner(target) && Inner(alias) && Inner(post)
    requires '|' !in pre && '|' !in target && '|' !in alias && '|' !in post
    ensures var s := pre + "[[" + target + "|" + alias + "]]" + post;
      FormatHeading(s, options, html) ==
        "[[#" + StripTags(pre + (target + " " + alias) + post) + "|" + (pre + alias + post) + "]]"
  {
    var s := pre + "[[" + target + "|" + alias + "]]" + post;
    assert s == pre + "[[" + (target + "|" + alias) + "]]" + post;
    LabelUnmarked(pre, target + "|" + alias, post);
    AliasedWikilinkInLabel(pre, target, alias, post, true);
    AliasedWikilinkInLabel(pre, target, alias, post, false);
  }

  /** A wikilink inside a longer label links to, and shows, the label with the
      wikilink's target in its place, when the HTML conversion leaves the label
      alone. */
  lemma WikilinkInLabelFormatted(pre: string, target: string, post: string,
                                 options: TocOptions, html: string -> string)
    requires options.includeLinks
    requires html(pre + "[[" + target + "]]" + post) == pre + "[[" + target + "]]" + post
    requires |target| > 0 && Inner(pre) && Inner(target) && Inner(post)
    requires '|' !in pre && '|' !in target && '|' !in post
    ensures var s := pre + "[[" + target + "]]" + post;
      FormatHeading(s, options, html) == "[[#" + StripTags(pre + target + post) + "|" + (pre + target + post) + "]]"
  {
    LabelUnmarked(pre, target, post);
    WikilinkInLabel(pre, target, post, true);
    WikilinkInLabel(pre, target, post, false);
  }

  /** A markdown link `[text](url)` keeps its text. */
  lemma MarkdownLinkStripped(text: string, url: string)
    requires |text| > 0 && |url| > 0
    requires '\U{5D}' !in text && '\U{29}' !in url
    requires var s := "[" + text + "](" + url + ")";
      '*' !in s && '_' !in s && '`' !in s && '=' !in s && '~' !in s
    ensures StripMarkdown("[" + text + "](" + url + ")") == text
  {
    var s := "[" + text + "](" + url + ")";
    NoUnderscoreKept(s);
    MarkdownLinkIndices(text, url);
    MarkdownLinkMatchAt(s, text, url);
    ReplaceRxWhole(MarkdownLink, s, Hit(|s|, text));
  }

  /** The positions of `[text](url)`. */
  lemma MarkdownLinkIndices(text: string, url: string)
    ensures var s := "[" + text + "](" + url + ")";
      && |s| == |text| + |url| + 4 && s[0] == '\U{5B}'
      && (forall m :: 0 <= m < |text| ==> s[1 + m] == text[m])
      && s[1 + |text|] == '\U{5D}' && s[2 + |text|] == '\U{28}'
      && (forall m :: 0 <= m < |url| ==> s[3 + |text| + m] == url[m])
      && s[|s| - 1] == '\U{29}'
  {
  }

  lemma MarkdownLinkMatchAt(s: string, text: string, url: string)
    requires |text| > 0 && |url| > 0 && '\U{5D}' !in text && '\U{29}' !in url
    requires |s| == |text| + |url| + 4 && s[0] == '\U{5B}'
    requires forall m :: 0 <= m < |text| ==> s[1 + m] == text[m]
    requires s[1 + |text|] == '\U{5D}' && s[2 + |text|] == '\U{28}'
    requires forall m :: 0 <= m < |url| ==> s[3 + |text| + m] == url[m]
    requires s[|s| - 1] == '\U{29}'
    ensures MatchAt(MarkdownLink, s, 0) == Some(Hit(|s|, text))
  {
    var k := 1 + |text|;
    var e := |s| - 1;
    assert forall m :: 1 <= m < k ==> s[m] != '\U{5D}' by {
      forall m | 1 <= m < k ensures s[m] != '\U{5D}' {
        assert s[m] == text[m - 1];
      }
    }
    assert forall m :: k + 2 <= m < e ==> s[m] != '\U{29}' by {
      forall m | k + 2 <= m < e ensures s[m] != '\U{29}' {
        assert s[m] == url[m - k - 2];
      }
    }
    NextIndexIs(s, '\U{5D}', 1, k);
    NextIndexIs(s, '\U{29}', k + 2, e);
    assert s[1..k] == text;
  }

  /** `[text](url)` as a whole heading: the link part keeps it as it is, and the text
      part keeps only `text`, when the HTML conversion leaves `text` alone. */
  lemma MarkdownLinkFormatted(text: string, url: string, options: TocOptions, html: string -> string)
    requires options.includeLinks && html(text) == text
    requires |text| > 0 && |url| > 0 && Unmarked(text) && '#' !in text && '\U{5D}' !in text
    requires '*' !in url && '_' !in url && '`' !in url && '=' !in url && '~' !in url
    requires '\U{5B}' !in url && '|' !in url && '#' !in url && '\U{29}' !in url
    ensures var s := "[" + text + "](" + url + ")";
      FormatHeading(s, options, html) == "[[#" + s + "|" + text + "]]"
  {
    var s := "[" + text + "](" + url + ")";
    MarkdownLinkStripped(text, url);
    StripMarkdownUnmarked(text);
    StripWikilinksUnmarked(text, false);
    MarkdownLinkKeptInLink(s, text, url);
  }

  /** The link part of `[text](url)` is the heading itself. */
  lemma MarkdownLinkKeptInLink(s: string, text: string, url: string)
    requires s == "[" + text + "](" + url + ")"
    requires |text| > 0 && '\U{5B}' !in text && '|' !in text && '#' !in text
    requires '\U{5B}' !in url && '|' !in url && '#' !in url
    ensures LinkPart(s) == s
  {
    SingleBracket(s, text, url);
    NoOpeningKept(AliasedWikilink(true), s);
    NoOpeningKept(Wikilink, s);
    ReplaceAllAbsent(s, "[[", "");
  }

  /** `[text](url)` has its only `[` in front. */
  lemma SingleBracket(s: string, text: string, url: string)
    requires s == "[" + text + "](" + url + ")"
    requires |text| > 0 && '\U{5B}' !in text && '\U{5B}' !in url
    ensures forall p :: 0 <= p < |s| ==> !OpensAt(s, p)
    ensures forall k: nat :: !OccursAt(s, "[[", k)
  {
    assert s[1..] == text + "](" + url + ")";
    assert '\U{5B}' !in s[1..];
    assert s[1] == text[0];
    forall p | 0 <= p < |s| ensures !OpensAt(s, p) {
      if p > 0 {
        assert s[p] == s[1..][p - 1];
      }
    }
    forall k: nat ensures !OccursAt(s, "[[", k) {
      if k + 2 <= |s| {
        assert !OpensAt(s, k);
        assert s[k..k + 2][0] == s[k] && s[k..k + 2][1] == s[k + 1];
      }
    }
  }
}
