/** The options documentation block `getOptionsDocs` inserts into a new table-of-contents
    block: one `name: default # comment` line per option, and the proof that it parses
    back to the hard-coded defaults. */
module OptionDocs {

  import opened Wrappers
  import opened Text
  import opened Options

  // ---------------------------------------------------------------------------
  // The option docs

  /** How a default is written in the docs: `null` as nothing, the rest as JavaScript
      template literals print them. */
  function DefaultText(d: DefaultValue): string {
    match d
    case TextDefault(t) => t
    case NumberDefault(n) => IntToString(n)
    case BooleanDefault(b) => if b then "true" else "false"
    case NullDefault => ""
  }

  /** The text after the colon of an option's docs line. */
  function DocRest(name: OptionName): string {
    " " + DefaultText(DefaultOf(name)) + (if |Comment(name)| > 0 then " # " + Comment(name) else "")
  }

  /** `${optionName}: ${default}${comment}`. */
  function DocLine(name: OptionName): string {
    Key(name) + ":" + DocRest(name)
  }

  /** `getOptionsDocs` as a function: one docs line per option, in table order. */
  function OptionsDocs(): string {
    Join(Map(DocLine, OptionNames), "\n")
  }

  lemma DocLineShape(key: string, def: string, comment: string)
    ensures key + ": " + def + comment == key + ":" + (" " + def + comment)
  {
    assert ": " == ":" + " ";
  }

  /** `getOptionsDocs`. */
  method GetOptionsDocs() returns (docs: string)
    ensures docs == OptionsDocs()
  {
    var markdown: seq<string> := [];
    var i := 0;
    while i < |OptionNames|
      invariant 0 <= i <= |OptionNames|
      invariant markdown == Map(DocLine, OptionNames[..i])
    {
      var name := OptionNames[i];
      var comment := if |Comment(name)| > 0 then " # " + Comment(name) else "";
      var def := DefaultText(DefaultOf(name));
      DocLineShape(Key(name), def, comment);
      assert OptionNames[..i + 1][..i] == OptionNames[..i];
      markdown := markdown + [Key(name) + ": " + def + comment];
      i := i + 1;
    }
    assert OptionNames[..i] == OptionNames;
    docs := Join(markdown, "\n");
  }

  /** No `#` and no line break in `s`. */
  predicate Plain(s: string) {
    forall k :: 0 <= k < |s| ==> s[k] != '#' && s[k] != '\n'
  }

  lemma PlainLacks(s: string)
    requires Plain(s)
    ensures '#' !in s && '\n' !in s
  {
  }

  /** The comments hold no `#` and no line break. */
  lemma CommentPlain(name: OptionName)
    ensures '#' !in Comment(name) && '\n' !in Comment(name)
  {
    match name
    case Style => StyleCommentPlain();
    case MinLevel => MinLevelCommentPlain(); PlainLacks(MinLevelComment);
    case MaxLevel => MaxLevelCommentPlain(); PlainLacks(MaxLevelComment);
    case IncludeLinks => IncludeLinksCommentPlain(); PlainLacks(IncludeLinksComment);
    case HideWhenEmpty => HideWhenEmptyCommentPlain(); PlainLacks(HideWhenEmptyComment);
    case DebugInConsole => DebugInConsoleCommentPlain(); PlainLacks(DebugInConsoleComment);
    case Title | Include | Exclude =>
  }

  lemma StyleCommentPlain()
    ensures '#' !in StyleComment && '\n' !in StyleComment
  {
    StyleValuesPlain();
    forall k | 0 <= k < |StyleValues| ensures '#' !in StyleValues[k] && '\n' !in StyleValues[k] {
      PlainLacks(StyleValues[k]);
    }
    JoinExcludes(StyleValues, "|", '#');
    JoinExcludes(StyleValues, "|", '\n');
    StylePartsPlain();
    PlainLacks("TOC style (");
  }

  lemma StylePartsPlain()
    ensures Plain("TOC style (")
  {
  }

  lemma StyleValuesPlain()
    ensures forall k :: 0 <= k < |StyleValues| ==> Plain(StyleValues[k])
  {
    NestedListPlain();
    NestedOrderedListPlain();
    NestedDetailedOrderedListPlain();
    InlineFirstLevelPlain();
  }

  lemma NestedListPlain() ensures Plain(StyleValues[0]) {}
  lemma NestedOrderedListPlain() ensures Plain(StyleValues[1]) {}
  lemma NestedDetailedOrderedListPlain() ensures Plain(StyleValues[2]) {}
  lemma InlineFirstLevelPlain() ensures Plain(StyleValues[3]) {}

  lemma MinLevelCommentPlain() ensures Plain(MinLevelComment) {}
  lemma MaxLevelCommentPlain() ensures Plain(MaxLevelComment) {}
  lemma IncludeLinksCommentPlain() ensures Plain(IncludeLinksComment) {}
  lemma HideWhenEmptyCommentPlain() ensures Plain(HideWhenEmptyComment) {}
  lemma DebugInConsoleCommentPlain() ensures Plain(DebugInConsoleComment) {}

  /** The written defaults are one-line words, and only options with a written
      default have a comment. */
  lemma DefaultPlain(name: OptionName)
    ensures var t := DefaultText(DefaultOf(name));
      && (forall k :: 0 <= k < |t| ==> !IsLineTerminator(t[k]) && !IsSpace(t[k]) && t[k] != '#')
      && (|Comment(name)| > 0 <==> |t| > 0)
      && (|Comment(name)| > 0 <==> !Kind(name).StringType? && !Kind(name).RegexpType?)
  {
    assert DefaultText(NumberDefault(0)) == "0";
  }

  /** A word padded with one space on each side trims back to the word. */
  lemma PaddedWord(t: string)
    requires forall k :: 0 <= k < |t| ==> !IsSpace(t[k])
    ensures Trim(" " + t + " ") == t
  {
    TrimPadded(" ", t, " ");
    TrimOfTrimmed(t);
  }

  lemma WordOneLine(t: string)
    requires forall k :: 0 <= k < |t| ==> !IsLineTerminator(t[k])
    ensures var a := " " + t + " #"; forall k :: 0 <= k < |a| ==> !IsLineTerminator(a[k])
  {
    var a := " " + t + " #";
    forall k | 0 <= k < |a| ensures !IsLineTerminator(a[k]) {
      if 0 < k <= |t| {
        assert a[k] == t[k - 1];
      } else if k == 0 {
        assert a[k] == ' ';
      } else {
        assert a[k] == ' ' || a[k] == '#';
      }
    }
  }

  lemma DocLineParts(t: string, comment: string, reach: string)
    ensures " " + t + " # " + comment == (" " + t + " #") + (" " + comment)
    ensures (" " + t + " #") + reach == (" " + t + " ") + "#" + reach
  {
    assert " # " == " #" + " ";
    assert " #" == " " + "#";
  }

  /** `.` runs through a one-line word and its ` #` up to the comment's line end. */
  lemma DocReach(t: string, comment: string)
    requires forall k :: 0 <= k < |t| ==> !IsLineTerminator(t[k])
    ensures UpToLineTerminator(" " + t + " # " + comment)
         == (" " + t + " ") + "#" + UpToLineTerminator(" " + comment)
  {
    WordOneLine(t);
    DocLineParts(t, comment, UpToLineTerminator(" " + comment));
    UpToLineTerminatorAppend(" " + t + " #", " " + comment);
  }

  /** The value a docs line hands to the type-specific parser is the default it shows,
      for a default and a comment of the shape the table has. */
  lemma DocRestValue(kind: OptionType, t: string, comment: string)
    requires forall k :: 0 <= k < |t| ==> !IsLineTerminator(t[k]) && !IsSpace(t[k]) && t[k] != '#'
    requires '#' !in comment
    requires |comment| > 0 <==> |t| > 0
    requires |comment| > 0 <==> !kind.StringType? && !kind.RegexpType?
    ensures ValueText(kind, Trim(UpToLineTerminator(" " + t + (if |comment| > 0 then " # " + comment else "")))) == t
  {
    if |comment| > 0 {
      assert " " + t + (" # " + comment) == " " + t + " # " + comment;
      DocReach(t, comment);
      var c := " " + comment;
      var c' := UpToLineTerminator(c);
      assert '#' !in c' by {
        assert forall k :: 0 <= k < |c'| ==> c'[k] == c[k];
        assert forall k :: 0 < k < |c| ==> c[k] == comment[k - 1];
      }
      CommentStripOfTrim(" " + t + " ", c');
      PaddedWord(t);
    } else {
      assert " " + t + "" == " ";
    }
  }

  /** What each docs line assigns: the option's default, or nothing for a `null` default. */
  function DocAssignment(name: OptionName): Option<ParsedOption> {
    if Kind(name).RegexpType? then None else Some(ParsedOption(name, Get(DefaultOptions, name)))
  }

  /** The default each docs line shows parses back to that default. */
  lemma DefaultParses(name: OptionName, compiles: (string, string) -> bool)
    ensures ParseValue(name, Key(name), DefaultText(DefaultOf(name)), compiles) == Success(DocAssignment(name))
  {
    match name
    case MinLevel | MaxLevel =>
      assert DefaultText(DefaultOf(name)) == IntToString(0);
      ParseIntOfIntToString(0);
    case _ =>
  }

  lemma DocLineParses(name: OptionName, compiles: (string, string) -> bool)
    ensures ParseOptionFromSourceLine(DocLine(name), compiles) == Success(DocAssignment(name))
  {
    var t := DefaultText(DefaultOf(name));
    var c := Comment(name);
    DefaultPlain(name);
    CommentPlain(name);
    assert DocRest(name) == " " + t + (if |c| > 0 then " # " + c else "");
    ParseKeyLine(name, DocRest(name), compiles);
    DocRestValue(Kind(name), t, c);
    DefaultParses(name, compiles);
  }

  /** The docs lines, one per option in the order of the table. */
  function DocLines(): (lines: seq<string>)
    ensures |lines| == |OptionNames|
    ensures forall k :: 0 <= k < |lines| ==> lines[k] == DocLine(OptionNames[k])
  {
    Map(DocLine, OptionNames)
  }

  /** No docs line runs over a line break, so the block splits back into them. */
  lemma DocLinesSplit()
    ensures Split(OptionsDocs(), '\n') == DocLines()
  {
    var lines := DocLines();
    forall k | 0 <= k < |lines| ensures '\n' !in lines[k] {
      DocLineOneLine(OptionNames[k]);
    }
    SplitOfJoin(lines, '\n');
  }

  lemma DocLineOneLine(name: OptionName)
    ensures '\n' !in DocLine(name)
  {
    var t := DefaultText(DefaultOf(name));
    var c := Comment(name);
    KeyShape(name);
    DefaultPlain(name);
    CommentPlain(name);
    assert DocLine(name) == Key(name) + ":" + " " + t + (if |c| > 0 then " # " + c else "");
    PiecesOneLine(Key(name), t, c);
  }

  lemma PiecesOneLine(key: string, t: string, c: string)
    requires '\n' !in key && '\n' !in t && '\n' !in c
    ensures '\n' !in key + ":" + " " + t + (if |c| > 0 then " # " + c else "")
  {
  }

  /** What the docs lines assign, one entry per option: the four of the heading
      options, then the five others. */
  function DocAssignments(): seq<Option<ParsedOption>> {
    HeadAssignments() + TailAssignments()
  }

  function HeadAssignments(): seq<Option<ParsedOption>> {
    [Some(ParsedOption(Title, StringValue(""))), Some(ParsedOption(Style, StyleValue(NestedList))),
     Some(ParsedOption(MinLevel, NumberValue(Finite(0)))), Some(ParsedOption(MaxLevel, NumberValue(Finite(0))))]
  }

  function TailAssignments(): seq<Option<ParsedOption>> {
    [None, None, Some(ParsedOption(IncludeLinks, BooleanValue(true))),
     Some(ParsedOption(HideWhenEmpty, BooleanValue(false))), Some(ParsedOption(DebugInConsole, BooleanValue(false)))]
  }

  /** Entry `k` is what the line of the `k`-th option assigns: its default, or nothing
      for a `null` default. */
  lemma DocAssignmentsAreDefaults()
    ensures |DocAssignments()| == |OptionNames|
    ensures forall k :: 0 <= k < |OptionNames| ==> DocAssignments()[k] == DocAssignment(OptionNames[k])
  {
  }

  /** Each docs line parses to its option's default. */
  lemma DocLinesParse(compiles: (string, string) -> bool)
    ensures forall k :: 0 <= k < |DocLines()| ==> LineParser(compiles)(DocLines()[k]) == Success(DocAssignments()[k])
  {
    DocAssignmentsAreDefaults();
    forall k | 0 <= k < |DocLines()|
      ensures LineParser(compiles)(DocLines()[k]) == Success(DocAssignments()[k])
    {
      DocLineParses(OptionNames[k], compiles);
    }
  }

  /** Assigning the defaults the docs show, over options whose pattern and debug
      fields are unset, gives the defaults. */
  lemma DocAssignmentsGiveDefaults(o: TocOptions)
    requires o.includePattern.None? && o.excludePattern.None? && !o.debugInConsole
    ensures AssignAll(o, DocAssignments()) == DefaultOptions
  {
    AssignAllConcat(o, HeadAssignments(), TailAssignments());
    AssignHead(o);
    AssignTail(o.(title := "", style := NestedList, minLevel := Finite(0), maxLevel := Finite(0)));
  }

  lemma AssignHead(o: TocOptions)
    ensures AssignAll(o, HeadAssignments()) == o.(title := "", style := NestedList, minLevel := Finite(0), maxLevel := Finite(0))
  {
  }

  lemma AssignTail(o: TocOptions)
    ensures AssignAll(o, TailAssignments()) == o.(includeLinks := true, hideWhenEmpty := false, debugInConsole := false)
  {
  }

  /** The inserted docs block parses back to the hard-coded defaults, whatever the
      plugin settings are. */
  lemma DocsParseToDefaults(settings: Option<PluginSettings>, compiles: (string, string) -> bool)
    ensures ParseOptions(OptionsDocs(), settings, compiles) == Success(DefaultOptions)
  {
    DocLinesSplit();
    DocLinesParse(compiles);
    DocAssignmentsAreDefaults();
    ApplyParsedLines(Base(settings), DocLines(), DocAssignments(), LineParser(compiles));
    DocAssignmentsGiveDefaults(Base(settings));
  }
}
