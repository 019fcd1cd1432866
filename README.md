# Automatic table of contents — a verified model

This project models the core of the Obsidian plugin *automatic-table-of-contents*. The plugin renders a table of contents for a note from a `table-of-contents` code block. The model has three parts.

- **Options** (`options.dfy`, `option_docs.dfy`). A code block such as `style: nestedOrderedList` or `maxLevel: 3 # comment` becomes a fully populated options record. The record starts from the defaults. The plugin settings are laid over six of its fields. Then each line of the block assigns one option, in order. An invalid value aborts the parse with an `Invalid value for \`name\`` error. The inserted template of all options (`getOptionsDocs`) is modelled and proved to parse back to the defaults.
- **Label formatting and filtering** (`markdown.dfy`). This covers the include/exclude filter of a heading and the clickable wikilink `[[#link|text]]` built from a heading label. The label goes through chains of literal `replaceAll` steps and four global regular-expression replacements: markdown links, aliased wikilinks, plain wikilinks and underscore italics. Each replacement has an exact matcher that follows the backtracking order of ECMAScript regular expressions.
- **Heading renderer** (`headings.dfy`). This covers the nested list and the nested ordered list, produced by one walk in which a filtered heading suppresses its subtree. It also covers the inline first-level list, the title prefix, the "no headings found" notice and the dispatch on the style.

`wrappers.dfy` holds `Option` and `Result`. `text.dfy` holds the JavaScript string operations the core relies on: `trim` with the ECMAScript white-space set, `split`, `join`, literal `replaceAll`, `repeat` and `lastIndexOf`.

The host is represented by parameters:
- `compiles(body, flags)` says whether `new RegExp(body, flags)` succeeds.
- `test(pattern, text)` is the `RegExp.prototype.test` of a compiled pattern.
- `html(text)` is Obsidian's `htmlToMarkdown`.

Every property is proved for all such functions. The end-to-end formatting lemmas (the `...Formatted` lemmas of `markdown.dfy`) assume that `html` returns the label unchanged, as `htmlToMarkdown` does for text without HTML.

Where the code and its design description differ, the model follows the code:
- There is no `startAt` option.
- The style `nestedDetailedOrderedList` is accepted by the parser, but the renderer has no handler for it, so rendering with it fails (`RenderError.MissingHandler`) instead of numbering the headings `1.1.`.
- The inline style ignores `maxLevel` and does no subtree suppression.
- `Number.parseInt` is modelled with its hexadecimal `0x` prefix and its NaN result. A NaN is not negative, so it is stored without an error.
- Trimming uses the full ECMAScript white-space and line-terminator set.

## Model

| member | source | states |
|---|---|---|
| Options.StyleNamed | src/options.ts:20-25 | a style name denotes exactly one of the four styles, and every other text denotes none |
| Options.KeyLookup | src/options.ts:144-145 | looking up the key of an option finds that option |
| Options.KeyInjective | src/options.ts:14-61 | two options with the same key are the same option |
| Options.Lookup | src/options.ts:145 | a key found in the table belongs to that option; a key not found belongs to no option |
| Options.Assign | src/options.ts:124 | assigning a value of the field's type sets that field and leaves every other field as it was |
| Options.FieldsDetermineRecord | src/defaults.ts:4-14 | two records that agree on all nine fields are equal |
| Options.DigitRun | src/options.ts:153 | the leading digit run that `parseInt` reads: a prefix of digits followed by a non-digit or the end |
| Options.NatToStringValue | src/options.ts:81-82 | the decimal text of a number reads back, as digits, to that number |
| Options.ParseInt | src/options.ts:153 | `Number.parseInt`; its contract is carried by `DigitRun` and `ParseIntOfIntToString` |
| Options.ParseIntOfIntToString | src/options.ts:81-82 | `parseInt` of the decimal text of any integer gives that integer back |
| Options.FindNameMatch | src/options.ts:142 | the leftmost position where `[a-zA-Z0-9._ ]+:` matches, with its maximal name run; no match exists before it, and none at all when absent |
| Options.NameMatchUnique | src/options.ts:142 | at a given start the name run that precedes the colon is unique |
| Options.SplitLine | src/options.ts:142-146 | a line splits into key and value exactly when the line regex matches |
| Options.StripTrailingComment | src/options.ts:149 | without `#` the value is kept; otherwise it is cut at its last `#`, with no `#` after the cut |
| Options.RegexpLiteral | src/options.ts:175 | the body is the text between the leading `/` and the last `/` reachable before a line terminator, and the flags are the lower-case run right after it; absent when there is no such slash |
| Options.ParseValue | src/options.ts:151-182 | the value parsing of each option type: a negative number, a boolean other than `true`/`false`, a style outside the four names, and a regexp that is malformed or does not compile all fail with the option's name; NaN numbers pass; the title sentinels `null`, `""` and `''` give the empty title; an empty or `null` pattern assigns nothing |
| Options.ParseNamed | src/options.ts:144-183 | an error names a known option, and an assignment fits its field |
| Options.ParseOptionFromSourceLine | src/options.ts:141-184 | a line starting with `#` or without a `name:` match assigns nothing; an error names an option; an assigned value fits its field |
| Options.UnknownKeyIgnored | src/options.ts:143-145 | a line whose key names no option assigns nothing |
| Options.ParseKeyLine | src/options.ts:142-150 | a `key:rest` line of a known option parses the trimmed rest, with comments stripped except for strings and patterns |
| Options.KeyShape | src/options.ts:14-61 | every key is a non-empty run of line-regex name characters without spaces |
| Options.TrailingCommentIgnored | src/options.ts:147-150 | a trailing `# comment` on a number, boolean or style option changes nothing |
| Options.TitleKeepsHash | src/options.ts:147-150 | a title keeps a `#` and everything after it |
| Options.PatternKeepsHash | src/options.ts:147-150 | an include or exclude value keeps a `#` and everything after it |
| Options.CommentStripOfTrim | src/options.ts:146-149 | the text from the last `#` on is dropped, whatever white space surrounds the value |
| Options.Base | src/options.ts:98-118 | without settings the defaults; with settings the six overlaid fields, and include, exclude and debugInConsole keep their defaults |
| Options.ParseOptions | src/options.ts:93-128 | `parseOptionsFromSourceText` as a function; its contract is carried by `ParseOptionsFromSourceText`, `EmptyBlockGivesBase`, `LastLineWins` and `FirstErrorAborts` |
| Options.ApplyLines | src/options.ts:121-126 | the fold of the line parser over the lines; its contract is carried by `ApplyLinesConcat`, `UnwrittenFieldKept`, `LastWriteWins`, `FirstErrorAborts`, `InertLinesKeepOptions` and `ApplyParsedLines` |
| Options.ParseOptionsFromSourceText | src/options.ts:93-128 | the loop over the lines computes the fold of the line parser over the split block, stopping at the first error |
| Options.ApplyLinesConcat | src/options.ts:121-126 | applying two runs of lines is applying the first, then the second to its result |
| Options.UnwrittenFieldKept | src/options.ts:121-126 | a field no line writes keeps its default or settings value |
| Options.LastWriteWins | src/options.ts:121-126 | for any line parser, the last line writing an option decides its value |
| Options.LastLineWins | src/options.ts:121-126 | for the source's line parser, the last line writing an option decides its value |
| Options.FirstErrorAborts | src/options.ts:121-126 | the block fails exactly when a line fails, with the error of the first failing line |
| Options.InertLinesKeepOptions | src/options.ts:121-126 | lines that assign nothing leave the options unchanged |
| Options.AssignAllConcat | src/options.ts:121-126 | assigning two runs of values is assigning one after the other |
| Options.ApplyParsedLines | src/options.ts:121-126 | lines that all parse give the assignments they stand for, in order |
| Options.EmptyBlockGivesBase | src/options.ts:93-128 | an empty block gives the defaults field for field, or the six settings fields over them |
| OptionDocs.GetOptionsDocs | src/options.ts:76-85 | the loop builds one `name: default[ # comment]` line per option, in table order, joined by newlines |
| OptionDocs.DocLinesSplit | src/options.ts:84 | splitting the template at newlines gives back its lines |
| OptionDocs.DocLineParses | src/options.ts:80-82 | each template line parses to its option's default, or to nothing for the patterns |
| OptionDocs.DocsParseToDefaults | src/options.ts:76-128 | the template parses back to the defaults, whatever the plugin settings |
| Markdown.FilterPrecedence | src/markdown.ts:10-18 | an include pattern decides alone; otherwise an exclude pattern rejects what it matches; with neither, every heading is allowed |
| Markdown.IncludeIgnoresExclude | src/markdown.ts:11-13 | with an include pattern the exclude pattern is never consulted |
| Markdown.FilterReadsOnlyPatterns | src/markdown.ts:10-18 | only the two patterns of the options decide the filter |
| Markdown.MarkdownLinkAt | src/markdown.ts:65 | a markdown-link match starts at `[`, ends after it, and its replacement takes its characters from the match |
| Markdown.MarkdownLinkAtIsLink | src/markdown.ts:65 | at any position of any text, the expression matches exactly when a link `[text](url)` with non-empty text and URL starts there, and then it consumes through the first `)` and leaves `text` (`$1`) |
| Markdown.AliasedWikilinkAt | src/markdown.ts:79 | an aliased-wikilink match starts at `[[`, ends after it, and its replacement takes its characters from the match, plus a space for the link |
| Markdown.AliasedWikilinkAtIsAliased | src/markdown.ts:79 | at any position of any text, the expression matches exactly when `[[target\|alias]]` starts there, split at the last `\|` that leaves both parts non-empty, and then it consumes through `]]` and leaves `target alias` (`$1 $2`) for the link or `alias` (`$2`) for the text |
| Markdown.WikilinkAt | src/markdown.ts:80 | a wikilink match starts at `[[`, ends after it, and its replacement takes its characters from the match |
| Markdown.WikilinkAtIsWikilink | src/markdown.ts:80 | at any position of any text, the expression matches exactly when `[[target]]` with a non-empty target starts there, and then it consumes through `]]` and leaves `target` (`$1`) |
| Markdown.ItalicAt | src/markdown.ts:61 | the italic match removes only underscores from the text it covers |
| Markdown.ReplaceRxChars | src/markdown.ts:65-80 | a bracket replacement adds no character, except a space for the aliased link form |
| Markdown.ReplaceFromNext | src/markdown.ts:65-80 | a global replacement copies the text up to the leftmost match, puts the match's output in its place and resumes where the match ended |
| Markdown.ReplaceFromUpTo | src/markdown.ts:65-80 | where the expression matches nowhere in a stretch of the text, the replacement copies that stretch |
| Markdown.ReplaceRxOnce | src/markdown.ts:65-80 | a replacement that meets a single match keeps the text on both sides of it |
| Markdown.ItalicRemovesOnlyUnderscores | src/markdown.ts:61 | the italic replacement keeps all characters but `_`, in order |
| Markdown.NoBracketKept | src/markdown.ts:65-80 | a text without `[` is untouched by the bracket replacements |
| Markdown.NoUnderscoreKept | src/markdown.ts:61 | a text without `_` is untouched by the italic replacement |
| Markdown.PlainLabelKept | src/markdown.ts:30-55 | without links, the label is returned unchanged |
| Markdown.LinkPartPlain | src/markdown.ts:37-39 | the link part holds neither `#` nor `\|` |
| Markdown.StripMarkdownPlain | src/markdown.ts:58-66 | `stripMarkdown` leaves no `*` and no backtick |
| Markdown.WikilinkStripChars | src/markdown.ts:72-86 | `stripWikilinks` keeps the characters of its text, adding only spaces and dashes |
| Markdown.TextPartPlain | src/markdown.ts:32-35 | the text part holds no `\|`, no `*` and no backtick, whatever the HTML conversion returns |
| Markdown.FormattedHeadingShape | src/markdown.ts:30-42 | with links, the result is a wikilink `[[#...]]` holding exactly one `\|`, whatever the label holds |
| Markdown.UnmarkedHeadingFormatted | src/markdown.ts:30-42 | a label without markup gives `[[#label\|label]]`, with `#` turned into spaces in the link part |
| Markdown.EmptyHeadingFormatted | src/markdown.ts:30-42 | the empty label gives `[[#\|]]` |
| Markdown.StarsHeadingFormatted | src/markdown.ts:30-42 | a label of only `*` keeps them in the link part and has an empty text part |
| Markdown.AliasedWikilinkStripped | src/markdown.ts:72-86 | `[[target\|alias]]` becomes `target alias` for the link and `alias` for the text |
| Markdown.WikilinkStripped | src/markdown.ts:72-86 | `[[target]]` becomes `target` for both parts |
| Markdown.MarkdownLinkStripped | src/markdown.ts:58-66 | `[text](url)` becomes `text` in `stripMarkdown` |
| Markdown.MarkdownLinkKeptInLink | src/markdown.ts:37-39 | the link part keeps `[text](url)` as it is |
| Markdown.MarkdownLinkFormatted | src/markdown.ts:30-42 | a markdown-link label gives `[[#[text](url)\|text]]` |
| Markdown.WikilinkUnmarked | src/markdown.ts:58-66 | `stripMarkdown` keeps a wikilink whose inside has no markup and no brackets |
| Markdown.AliasedWikilinkFormatted | src/markdown.ts:30-42 | an aliased-wikilink label `[[target\|alias]]` gives `[[#target alias\|alias]]`, with `#` turned into spaces in the link part |
| Markdown.WikilinkFormatted | src/markdown.ts:30-42 | a wikilink label `[[target]]` gives `[[#target\|target]]`, with `#` turned into spaces in the link part |
| Markdown.AliasedWikilinkInLabelFormatted | src/markdown.ts:30-42 | a label `pre + "[[" + target + "\|" + alias + "]]" + post` gives `"[[#" + pre + target + " " + alias + post + "\|" + pre + alias + post + "]]"`, with `#` turned into spaces in the link part, when `pre`, `post`, `target` and `alias` have no markup, brackets or `\|` |
| Markdown.WikilinkInLabelFormatted | src/markdown.ts:30-42 | a label `pre + "[[" + target + "]]" + post` gives `"[[#" + pre + target + post + "\|" + pre + target + post + "]]"`, with `#` turned into spaces in the link part, when `pre`, `post` and `target` have no markup, brackets or `\|` |
| Markdown.StripTagsReplacesHashes | src/markdown.ts:88-90 | `stripTags` turns each `#` into a space and keeps every other character in its place |
| Markdown.IsHeadingAllowed | src/markdown.ts:10-18 | `isHeadingAllowed`; its contract is carried by `FilterPrecedence`, `IncludeIgnoresExclude` and `FilterReadsOnlyPatterns` |
| Markdown.FormatHeading | src/markdown.ts:26-56 | `getFormattedMarkdownHeading`; its contract is carried by `PlainLabelKept`, `FormattedHeadingShape` and the `...Formatted` lemmas |
| Markdown.StripMarkdown | src/markdown.ts:58-66 | `stripMarkdown`; its contract is carried by `StripMarkdownPlain`, `StripMarkdownUnmarked`, `DelimitedStripped`, `MarkdownLinkStripped`, `WikilinkUnmarked` and `LabelUnmarked` |
| Markdown.StripMarkdownUnmarked | src/markdown.ts:58-66 | a text without `*`, `_`, backtick, `=`, `~`, `[` or `\|` passes `stripMarkdown` unchanged |
| Markdown.ReplaceAllDelimited | src/markdown.ts:63-64 | removing a doubled marker deletes both markers around a text that lacks the marker character |
| Markdown.DelimitedStripped | src/markdown.ts:58-66 | `stripMarkdown("==x==") == x` and `stripMarkdown("~~x~~") == x` for a text `x` without markup |
| Markdown.DelimitedFormatted | src/markdown.ts:30-42 | a highlighted or struck-through label `==x==` or `~~x~~`, with `x` free of markup and `#`, keeps its markers in the link part and shows `x` |
| Markdown.LabelUnmarked | src/markdown.ts:58-66 | `stripMarkdown` keeps a label `pre[[inner]]post` whose parts have no markup and no brackets |
| Markdown.StripHtml | src/markdown.ts:68-70 | `stripHtml`: `stripMarkdown` after the HTML conversion; its contract is carried by `TextPartPlain` and the `...Formatted` lemmas |
| Markdown.StripWikilinks | src/markdown.ts:72-86 | `stripWikilinks`; its contract is carried by `WikilinkStripChars`, `AliasedWikilinkStripped`, `WikilinkStripped`, `AliasedWikilinkInLabel`, `WikilinkInLabel` and `StripWikilinksUnmarked` |
| Markdown.StripWikilinksUnmarked | src/markdown.ts:72-86 | a text without `[` and `\|` passes `stripWikilinks` unchanged, for the link and for the text |
| Markdown.AliasedWikilinkInLabel | src/markdown.ts:72-86 | inside a longer label, `[[target\|alias]]` becomes `target alias` for the link and `alias` for the text, and the text on both sides is kept |
| Markdown.WikilinkInLabel | src/markdown.ts:72-86 | inside a longer label, `[[target]]` becomes `target`, and the text on both sides is kept |
| Markdown.StripTags | src/markdown.ts:88-90 | `stripTags`; its contract is carried by `StripTagsReplacesHashes` |
| Headings.MinLevelOf | src/headings.ts:56-57 | `Math.min` of the levels: no level is smaller, and some heading has it |
| Headings.EffectiveMinLevel | src/headings.ts:56-57 | the minimum level shared by the list walker and, at src/headings.ts:82-83, the inline style; its contract is carried by `EffectiveMinLevelIsShallowest` |
| Headings.EffectiveMinLevelIsShallowest | src/headings.ts:56-57 | a positive `minLevel` option is the minimum; otherwise the shallowest heading's level is |
| Headings.VisitKeeps | src/headings.ts:59-73 | a heading gives a line exactly when it is not below a suppressed heading, passes the filter, lies in the level range and has a text; a filtered heading starts suppression at its level |
| Headings.Visit | src/headings.ts:59-73 | one step of the walk; its contract is carried by `VisitKeeps` and `SuppressionEnds` |
| Headings.ListFrom | src/headings.ts:58-74 | the walk over the headings; its contract is carried by `LinesOfKept`, `KeptIndices` and `EveryHeadingListed` |
| Headings.SuppressionEnds | src/headings.ts:60-63 | a heading at or above the suppressed level is treated as if nothing were suppressed |
| Headings.KeptFrom | src/headings.ts:59-74 | the kept heading indices lie in the list and increase strictly |
| Headings.LinesOfKept | src/headings.ts:59-75 | the lines are the lines of the kept headings, in input order |
| Headings.KeptIndices | src/headings.ts:58-74 | a heading is kept exactly when the walk reaches it unsuppressed and it passes every check |
| Headings.KeptMeetsConditions | src/headings.ts:64-70 | every listed heading passes the filter, lies within `minLevel` and `maxLevel`, and has a text |
| Headings.ListAtMostHeadings | src/headings.ts:59-75 | there are no more lines than headings |
| Headings.SubtreeSuppressed | src/headings.ts:58-67 | after a filtered heading, each following deeper heading is skipped untested |
| Headings.FilterBeforeRange | src/headings.ts:64-69 | the filter runs before the level checks, so a filtered heading suppresses its subtree even when it lies outside the range |
| Headings.LineIndent | src/headings.ts:72 | a line is indented by one tab per level below the minimum, followed by the list marker and a space |
| Headings.ListLineShape | src/headings.ts:54-72 | a line of either list is its indent, then `1. ` for the ordered list or `- ` otherwise, then the formatted heading and nothing else |
| Headings.ListPrefix | src/headings.ts:54 | the list marker; its contract is carried by `ListLineShape` |
| Headings.LineOf | src/headings.ts:72 | the pushed line; its contract is carried by `LineIndent` and `ListLineShape` |
| Headings.ShallowestUnindented | src/headings.ts:56-57 | without `minLevel`, the shallowest heading's line has no indent |
| Headings.EveryHeadingListed | src/headings.ts:59-74 | without filters and with every heading in range, each heading gives its line, in order |
| Headings.UnfilteredListIsComplete | src/headings.ts:49-75 | a list without filters and level bounds lists every heading that has a text |
| Headings.ListMarkdown | src/headings.ts:75 | the lines joined by newlines, or nothing; its contract is carried by `ListMarkdownAbsent`, `LinesOfKept` and `GetMarkdownListFromHeadings` |
| Headings.ListMarkdownAbsent | src/headings.ts:75 | the list is absent exactly when no heading is kept |
| Headings.GetMarkdownListFromHeadings | src/headings.ts:49-76 | the loop with its suppression level computes the specified list: the kept lines joined by newlines, or nothing |
| Headings.InlineShows | src/headings.ts:82-87 | the three filters in a row keep the same headings, in the same order and as often, as one filter by all three conditions: the non-empty, allowed headings at the minimum level, each judged on its own with no subtree suppression |
| Headings.InlineItems | src/headings.ts:82-91 | the inline style is the formatted shown headings, in order, joined by ` \| `, or nothing when no heading is shown |
| Headings.InlineMarkdown | src/headings.ts:78-92 | `getMarkdownInlineFirstLevelFromHeadings`; its contract is carried by `InlineShows`, `InlineItems`, `InlineAbsent` and `InlineIgnoresMaxLevel` |
| Headings.InlineAbsent | src/headings.ts:91 | the inline style is absent exactly when no heading qualifies |
| Headings.InlineIgnoresMaxLevel | src/headings.ts:78-92 | the inline style does not depend on `maxLevel` |
| Headings.StyleHandler | src/headings.ts:15-25 | the handler of each style; its contract is carried by `RenderFailsOnlyWithoutHandler` |
| Headings.TitlePrefix | src/headings.ts:20-24 | the title and its separator; its contract is carried by `ListRender`, `RenderStartsWithTitle` and `EmptyRender` |
| Headings.GetMarkdownFromHeadings | src/headings.ts:11-33 | `getMarkdownFromHeadings`; its contract is carried by `RenderFailsOnlyWithoutHandler`, `ListRender`, `RenderStartsWithTitle`, `EmptyRender` and `NoHeadingsRender` |
| Headings.ListRender | src/headings.ts:20-32 | when the handler gives a list, the render is that list alone for an empty title, and otherwise the title, a space for the inline style or a newline for the others, then the list |
| Headings.RenderFailsOnlyWithoutHandler | src/headings.ts:15-25 | rendering fails exactly for the detailed ordered list, which has no handler |
| Headings.RenderStartsWithTitle | src/headings.ts:20-32 | a non-empty title comes first, followed by a space in the inline style and a newline otherwise |
| Headings.EmptyRender | src/headings.ts:26-31 | with no line left, the result is empty under `hideWhenEmpty`, and otherwise the title and the no-headings notice |
| Headings.NoHeadingsRender | src/headings.ts:26-31 | a note without headings gives the empty case in every style that has a handler |
| Headings.AllAboveMinLevel | src/headings.ts:56-68 | headings all shallower than a positive `minLevel` leave no line in any style |
| Text.Trim | src/options.ts:144-146 | `trim` removes exactly the white space at both ends, keeping a slice of the input |
| Text.Split | src/options.ts:121 | `split('\n')` yields at least one piece, none holds the separator, and joining them with it gives the text back |
| Text.SplitOfJoin | src/options.ts:84 | splitting a join of separator-free pieces gives the pieces back |
| Text.ReplaceAll | src/markdown.ts:60-89 | the literal `replaceAll` takes its characters from the text and the replacement, and a one-character pattern disappears when the replacement lacks it; `ReplaceAllLeftmost` and `ReplaceAllAbsent` fix its result for patterns of any length |
| Text.ReplaceAllIsSplitJoin | src/markdown.ts:60-89 | a one-character `replaceAll` is split on the character and join with the replacement |
| Text.ReplaceAllAbsent | src/markdown.ts:82 | a pattern that occurs nowhere leaves the text unchanged |
| Text.ReplaceAllLeftmost | src/markdown.ts:63-64 | for a pattern of any length, the leftmost occurrence is replaced, the text before it is kept, and the scan goes on after it |
| Text.Map | src/headings.ts:88-90 | `map` gives one result per element, each the function of the element at the same position |
| Text.Filter | src/headings.ts:84-87 | `filter` keeps no more elements than it is given, and keeps an element exactly when it is given and satisfies the condition |
| Text.FilterSingleton | src/headings.ts:84-87 | a filter keeps one element exactly when the element satisfies it |
| Text.FilterConcat | src/headings.ts:84-87 | a filter works piece by piece, so it keeps the order and the repetitions of what it keeps |
| Text.FilterFilter | src/headings.ts:84-87 | two filters in a row are one filter by both conditions |
| Text.FilterCongruent | src/headings.ts:84-87 | filters by conditions that agree on every element agree |

## Left out

- Regular expressions supplied by the user are not interpreted. `new RegExp(body, flags)` is the parameter `compiles`, and `.test` is the parameter `test`. The `lastIndex` state that `.test` keeps under the `g` and `y` flags is not modelled, so a pattern is treated as giving the same answer every time.
- `htmlToMarkdown` is a host call and is the parameter `html`.
- Numbers are unbounded integers. The double precision of `Number.parseInt` for very long digit runs is not modelled, and `-0` is the integer 0.
- Headings.EffectiveMinLevel: for an empty heading list, `Math.min` is `Infinity`; the model returns 0 there, which no walk ever compares with a level.
- Heading levels are unbounded integers; Obsidian only produces 1 to 6.
- Markdown.FormatHeading: end to end, the model follows a markdown link only as the whole label, and a wikilink as the whole label or with plain text around it (`AliasedWikilinkInLabelFormatted`, `WikilinkInLabelFormatted`). A label with several links, or with a markdown link and other text, is covered by the matchers at every position and by `ReplaceFromNext`, but no lemma states its formatted result.
- Plugin lifecycle, settings UI, the debug console output and the error display of the host are outside the core.
- Earlier JavaScript copies of the same functions, and the `1.1.`-style numbering expected by older tests, are not modelled; the TypeScript code is.
