# TfTruncate in Dafny

A model of the PHP class `TfTruncate` (`src/Tf/String/TfTruncate.php`).
The class shortens text to a maximum number of characters, `lmax`, and
appends a completion marker `cplt` (default `...`) when it cuts. It has two
entry points.

- **`truncateText(text, lmax, unhtmlize)`** works on plain text. With
  `unhtmlize`, it first removes the markup and collapses every white-space run
  to one space. It then trims the text. When the text is longer than `lmax`
  and the effective budget `l = lmax - |cplt|` is not negative, it takes the
  first `l + 1` characters and appends the marker. Where the pattern at line
  92 matches, it first drops their trailing white space, or, if they end
  inside a word, that last partial word and the white space before it
  (line 98). A slice that is a single word, is all white space, or has a line
  feed before its last non-space character is kept whole.
  The two regular expressions that find the word boundary are modelled
  on the PCRE meaning of their parts: `\s` as PCRE2 defines it when the
  `u` modifier turns on Unicode properties (category Z, `\h` and `\v`), `.`
  without the `s` modifier (no line feed), and `$` without the `D` modifier
  (also before a final line feed). Each has a declarative description of
  what the pattern matches, and the function that computes the match is
  proved to agree with it.
- **`truncateHTML(html, lmax, stripTags)`** works on markup. It walks the
  node stream of an XML reader over `<root>html</root>` and rebuilds the
  markup as it goes.
  - It counts the visible text: normalised text nodes outside ignore-content
    elements such as `script`, plus one separator between counted texts.
  - It can strip the tags that are not on the keep list.
  - When the count passes the budget, it returns the markup so far, the
    current text cut by `truncateText`, and closing tags for the elements on
    its pile.
  - When the reader cannot open the input, or reports diagnostics after
    reading every node without the count passing the budget, it falls back
    to `truncateText` on the whole input and records the error kind. A cut
    returns first, so markup with diagnostics that passes the budget is cut
    and records no error.

## Modules

- `Options`: the `Option` type.
- `TextUtil`: PHP `trim`, the PCRE `\s` classes with and without the `u`
  modifier, white-space collapsing (`preg_replace('#\s+#', ' ', …)`),
  `strtolower` and `implode`.
- `WordRegex`: the patterns `^(.*\S)(\s*)$` (line 92) and `\s+\S+$`
  (line 98).
- `Instance`: the object's state, its two tag lists and the two tag
  decisions.
- `TextTruncation`: `truncateText`.
- `HtmlWalk`: the loop body of `truncateHTML` as a step function over a
  state record, and the loop as a fold over the node stream.
- `Nesting`: the loop's bookkeeping stated against the nesting of a
  well-formed stream.
- `HtmlTruncation`: `truncateHTML` with its error handling, and the loop as
  a method.

## Behaviour worth knowing

Some of what the code does is easy to misread. The model keeps each of
these behaviours as the code has it.

- **Closing tags at the cut.** The closers are
  `'</' . implode('></', $pile) . '>'`. That puts them in push order, so the
  first-opened element is closed first, not the innermost one. See
  `HtmlWalk.ClosingTagsInPushOrder` and `HtmlWalk.ClosersExample`. For
  nested elements the result is therefore not well-nested.
- **A single word longer than the budget.** The code keeps all `l + 1`
  characters of the slice, the lookahead character included, because the
  pattern at line 98 finds nothing to drop. The result is `lmax + 1` characters long.
  `"onewordthatiswaytoolongforthebudget"` cut to 10 gives `"onewordt..."`
  (`TextTruncation.SingleWordExample`).
- **The length bound.** The result of `truncateText` can exceed `lmax` by
  one character. This happens for a single word, for a slice with a line
  feed before its last word (`.` does not match a line feed), and for an
  all-white-space slice. In `truncateHTML` the text node at the cut is given
  the sub-limit `c + lmax - count`. That sub-limit can be smaller than the
  marker, in which case the text node is returned uncut.
- **When text is copied.** The TEXT case has no `break`, so it falls through
  to `default`. The text node's raw value is therefore copied whenever no
  *stripped* ignore-content element is open. Text inside a kept `script`
  element is copied but not counted.
- **The separator.** One separator is counted whenever the count is already
  non-zero (`if ($count) $count++`). Texts that normalise to the empty string
  add nothing while the count is still 0. Once the count is non-zero they add
  one. So the count is the length of the visible texts joined by single
  spaces, with the empty texts before the first non-empty one left out
  (`Nesting.Joined`).

## Model

| member | source | states |
|---|---|---|
| `TextUtil.TrimStartSpec` | src/Tf/String/TfTruncate.php:87 | the leading part `trim` removes is made of trim characters only, and what is left is a suffix that does not start with one |
| `TextUtil.TrimEndSpec` | src/Tf/String/TfTruncate.php:87 | the trailing part removed is made of trim characters only, and what is left is a prefix that does not end with one |
| `TextUtil.TrimIsSlice` | src/Tf/String/TfTruncate.php:87 | `trim` returns the contiguous slice of its input starting after the removed leading characters |
| `TextUtil.TrimSpec` | src/Tf/String/TfTruncate.php:87 | `trim` leaves neither end on a trim character, returns a contiguous slice of its input, and leaves an already trimmed string unchanged |
| `TextUtil.TrimKeepsContent` | src/Tf/String/TfTruncate.php:87 | every character of the input that is not a trim character is still in the trimmed text |
| `TextUtil.SkipAsciiSpacesSpec` | src/Tf/String/TfTruncate.php:85 | skipping removes exactly the leading run of white space |
| `TextUtil.CollapseSpacesSingleSpaces` | src/Tf/String/TfTruncate.php:85 | after collapsing, the only white space left is the plain space, and no two white-space characters are adjacent |
| `TextUtil.CollapsedUnchanged` | src/Tf/String/TfTruncate.php:85 | a string that is already collapsed is left unchanged |
| `TextUtil.CollapseSpacesIdempotent` | src/Tf/String/TfTruncate.php:85 | collapsing twice gives the same result as collapsing once |
| `TextUtil.CollapseSpacesKeepsContent` | src/Tf/String/TfTruncate.php:85 | collapsing keeps every non-space character, in order |
| `TextUtil.CollapseSpacesHead` | src/Tf/String/TfTruncate.php:85 | the collapsed text is empty only for an empty input, and it starts with white space exactly when the input does |
| `TextUtil.Trim` | src/Tf/String/TfTruncate.php:87 | PHP `trim`; its contract is given by `TextUtil.TrimSpec` and `TextUtil.TrimKeepsContent`: a contiguous slice of the input with no trim character at either end, losing nothing else |
| `TextUtil.CollapseSpaces` | src/Tf/String/TfTruncate.php:85 | never longer than its input; with `TextUtil.CollapseSpacesRun` and `TextUtil.CollapsedUnchanged` it is determined: each maximal white-space run becomes one space and text without such runs is kept |
| `TextUtil.IsSpace` | src/Tf/String/TfTruncate.php:92-98 | `\s` under the `u` modifier: category Z, `\h` and `\v`, so NEL and U+180E included; `TextTruncation.NextLineExample` shows NEL acting as white space at the cut |
| `TextUtil.Lower` | src/Tf/String/TfTruncate.php:132 | ASCII `strtolower`, also at lines 160 and 207; `Instance.LowerOfLowercase` and `Instance.TagDecisionsIgnoreCase` state what the tag decisions rely on |
| `TextUtil.Implode` | src/Tf/String/TfTruncate.php:183 | PHP `implode`; `HtmlWalk.ClosingTagsInPushOrder` gives the closers it builds, and `Nesting.CountFromPositive` the length of texts joined by one space |
| `TextUtil.CollapseSpacesRun` | src/Tf/String/TfTruncate.php:85 | a maximal white-space run between `a` and `b` becomes exactly one space: collapsing `a + w + b` is collapsing `a`, one space, collapsing `b` |
| `TextUtil.CollapseAppend` | src/Tf/String/TfTruncate.php:85 | no white-space run crosses a point just after a non-space character, so collapsing splits there |
| `TextUtil.CollapseRunFirst` | src/Tf/String/TfTruncate.php:85 | a leading white-space run becomes a single space |
| `TextUtil.CollapseExample` | src/Tf/String/TfTruncate.php:85 | `"a \t b"` collapses to `"a b"` |
| `TextUtil.SkipAsciiSpacesAppend` | src/Tf/String/TfTruncate.php:85 | skipping the leading white space of `x + y` stays inside `x` when `x` has a non-space character |
| `TextUtil.SkipWhiteRun` | src/Tf/String/TfTruncate.php:85 | a white-space run in front of a non-space character is skipped entirely |
| `WordRegex.EndOfLastNonSpaceSpec` | src/Tf/String/TfTruncate.php:92 | the computed split point follows a non-space character and has only white space after it |
| `WordRegex.EndOfLastNonSpaceUnique` | src/Tf/String/TfTruncate.php:92 | any split point with those two properties is the computed one |
| `WordRegex.TailSplitUnique` | src/Tf/String/TfTruncate.php:92 | the pattern `^(.*\S)(\s*)$` can split the subject at one place only |
| `WordRegex.MatchTailSpec` | src/Tf/String/TfTruncate.php:92-93 | the reported groups form a match of `^(.*\S)(\s*)$` and are the only match; no match is reported exactly when no split matches, that is, when the subject is all white space or has a line feed before its last non-space character |
| `WordRegex.StartOfSpaceRunSpec` | src/Tf/String/TfTruncate.php:98 | the computed start of the trailing white-space run has only white space after it and a non-space character before it |
| `WordRegex.SpaceRunStartUnique` | src/Tf/String/TfTruncate.php:98 | any position with those properties is the computed start of the run |
| `WordRegex.StartOfWordSpec` | src/Tf/String/TfTruncate.php:98 | the computed start of the last word has no white space after it and white space before it |
| `WordRegex.WordStartUnique` | src/Tf/String/TfTruncate.php:98 | any position with those properties is the computed start of the word |
| `WordRegex.DropLastWordMatched` | src/Tf/String/TfTruncate.php:98 | when `\s+\S+$` matches with its leftmost start at `i`, the replacement removes everything from `i` up to the end, or up to a final line feed |
| `WordRegex.DropLastWordUnmatched` | src/Tf/String/TfTruncate.php:98 | when `\s+\S+$` matches nowhere, the subject comes back unchanged |
| `WordRegex.CutWordIsPrefix` | src/Tf/String/TfTruncate.php:91-100 | the word-boundary step only ever keeps a prefix of the `l + 1` character slice |
| `WordRegex.MatchTail` | src/Tf/String/TfTruncate.php:92 | the outcome of `preg_match` at line 92; `WordRegex.MatchTailSpec` proves it is the unique match of `^(.*\S)(\s*)$`, and None exactly when there is none |
| `WordRegex.DropLastWord` | src/Tf/String/TfTruncate.php:98 | the outcome of `preg_replace` at line 98, never longer than its subject; `WordRegex.DropLastWordMatched` and `WordRegex.DropLastWordUnmatched` tie it to the declarative match in both cases |
| `WordRegex.CutWord` | src/Tf/String/TfTruncate.php:91-100 | lines 92-99 on the slice; `WordRegex.CutWordIsPrefix` and the `TextTruncation` case lemmas give its result in each case |
| `Instance.IgnoreContentIsCaseInsensitiveMembership` | src/Tf/String/TfTruncate.php:205-208 | `ignoreContentOfTag` holds exactly when the name equals one of the eight listed tags, ignoring ASCII case |
| `Instance.TagDecisionsIgnoreCase` | src/Tf/String/TfTruncate.php:132 | names that differ only in ASCII case get the same ignore-content and strip decisions |
| `Instance.UpperCaseScriptIsIgnored` | src/Tf/String/TfTruncate.php:27 | `SCRIPT` and `Style` are ignore-content tags and `p` is not |
| `Instance.LowerOfLowercase` | src/Tf/String/TfTruncate.php:207 | lower-casing a name made of lower-case letters leaves it unchanged, so the listed tag names are their own lower-case forms |
| `Instance.IgnoreContentOfTag` | src/Tf/String/TfTruncate.php:205-208 | `ignoreContentOfTag`; characterised by `Instance.IgnoreContentIsCaseInsensitiveMembership` |
| `Instance.StripTag` | src/Tf/String/TfTruncate.php:132 | the strip decision of lines 132 and 160; `Instance.TagDecisionsIgnoreCase` shows it ignores ASCII case, and `Nesting.KeptIsFilter` that stripped names never reach the pile |
| `Instance.FreshHasNoError` | src/Tf/String/TfTruncate.php:30-37 | a new truncator has the marker `...` and no error, and the two error kinds carry the distinct values 1 and 2 |
| `TextTruncation.CutPreparedBounds` | src/Tf/String/TfTruncate.php:88-103 | a text that fits, or any text when the marker alone exceeds the limit, is returned as is; a longer text becomes a prefix of its first `l + 1` characters followed by the marker, at most `lmax + 1` characters long |
| `TextTruncation.TruncateTextUncut` | src/Tf/String/TfTruncate.php:87-89 | a text whose trimmed (and, with `unhtmlize`, cleaned) form fits the limit comes back in that form, uncut |
| `TextTruncation.CutBeforeTrailingSpace` | src/Tf/String/TfTruncate.php:92-95 | a slice ending in white space after a word, with no line feed before it, is cut just before that white space |
| `TextTruncation.LookaheadOnSpace` | src/Tf/String/TfTruncate.php:91-95 | when the character after the budget is white space and the kept text before the white space has no line feed, the cut falls after the last word within the budget, and the result fits `lmax` |
| `TextTruncation.SpaceRunThroughLookahead` | src/Tf/String/TfTruncate.php:91 | a white-space run that reaches the lookahead character is still a trailing run of the `l + 1` character slice |
| `TextTruncation.PartialWordDropped` | src/Tf/String/TfTruncate.php:96-98 | when the lookahead falls inside a word, that partial word and the white space before it are dropped; the result is shorter than `lmax`, and the kept text is empty only when the text starts with white space; all this provided no line feed comes before the lookahead character |
| `TextTruncation.CutDropsLastWord` | src/Tf/String/TfTruncate.php:92-98 | a slice with no line feed in it, ending in a word preceded by white space, loses both |
| `TextTruncation.PartialWordSlices` | src/Tf/String/TfTruncate.php:91 | the word and white-space runs of the text are runs of the `l + 1` character slice at the same positions |
| `TextTruncation.SingleWordKept` | src/Tf/String/TfTruncate.php:96-101 | a slice without white space is kept whole, so the result is `lmax + 1` characters long |
| `TextTruncation.UncutWhenPatternFails` | src/Tf/String/TfTruncate.php:92-101 | when the pattern at line 92 does not match, the whole slice is kept, so the result is `lmax + 1` characters long |
| `TextTruncation.LineFeedDefeatsCut` | src/Tf/String/TfTruncate.php:92 | a line feed before any later non-space character of the slice prevents the word-boundary cut |
| `TextTruncation.LineFeedExample` | src/Tf/String/TfTruncate.php:92 | `"ab\ncd efgh"` cut to 8 gives `"ab\ncd ..."`, 9 characters |
| `TextTruncation.NextLineExample` | src/Tf/String/TfTruncate.php:92-95 | NEL (U+0085) counts as white space for the `u` patterns: `"abc\u{85}defgh"` cut to 6 gives `"abc..."` |
| `TextTruncation.LineFeedInRunExample` | src/Tf/String/TfTruncate.php:91-95 | a line feed inside the white space before the budget does not stop the cut: `"abc\n defgh"` cut to 7 gives `"abc..."` |
| `TextTruncation.SingleWordExample` | src/Tf/String/TfTruncate.php:96-101 | a 35-character word cut to 10 gives `"onewordt..."`, 11 characters |
| `TextTruncation.TruncateTextIdempotent` | src/Tf/String/TfTruncate.php:69-104 | truncating a result again, without the markup pre-pass, changes nothing, provided the marker is non-empty and has no trim character at either end |
| `TextTruncation.CutPreparedIdempotent` | src/Tf/String/TfTruncate.php:87-103 | for a non-empty marker with no trim character at either end, on trimmed text the cut yields trimmed text and is idempotent |
| `TextTruncation.CutPrepared` | src/Tf/String/TfTruncate.php:88-103 | lines 88-103 on the prepared text; `TextTruncation.CutPreparedBounds` gives its shape and the case lemmas below give its exact result in each case |
| `TextTruncation.TruncateText` | src/Tf/String/TfTruncate.php:69-104 | `truncateText`; `TextTruncation.TruncateTextUncut` and `TextTruncation.TruncateTextIdempotent` state its contract, through `CutPrepared` |
| `TextTruncation.Unhtmlize` | src/Tf/String/TfTruncate.php:77-86 | the markup pre-pass, then the collapsing of line 85, whose contract `TextUtil.CollapseSpacesSingleSpaces` and `TextUtil.CollapseSpacesRun` give |
| `TextTruncation.Prepared` | src/Tf/String/TfTruncate.php:77-87 | the optional pre-pass then `trim`; `TextUtil.TrimSpec` gives the result's ends, and `TextTruncation.TruncateTextUncut` shows it is what a short text comes back as |
| `TextTruncation.Budget` | src/Tf/String/TfTruncate.php:88 | the limit less the marker's length, also at line 116; `TextTruncation.CutPreparedBounds` shows a cut happens only when it is not negative |
| `HtmlWalk.ClosingTagsInPushOrder` | src/Tf/String/TfTruncate.php:183 | the closers appended at the cut are one closing tag per pile entry, in push order |
| `HtmlWalk.ClosersExample` | src/Tf/String/TfTruncate.php:183 | with `p` pushed before `b`, the cut closes `</p></b>` |
| `HtmlWalk.StepStopsOnlyOverBudget` | src/Tf/String/TfTruncate.php:172-184 | a node ends the loop exactly when it is a text node, no ignore-content element is open, and its length plus the separator takes the count past `lmax` less the marker length |
| `HtmlWalk.StopResult` | src/Tf/String/TfTruncate.php:181-183 | at the stop, the loop returns the markup so far, then the node's normalised text truncated to `c + lmax - count`, then the closers |
| `HtmlWalk.CutAtShape` | src/Tf/String/TfTruncate.php:183 | the returned string is the markup so far, the truncated text, and one closing tag per open copied element, in push order |
| `HtmlWalk.StepCounting` | src/Tf/String/TfTruncate.php:174-180 | only text outside ignore-content elements is counted, by its length plus one separator when the count is non-zero; the count never decreases and the markup is only ever extended |
| `HtmlWalk.StepPile` | src/Tf/String/TfTruncate.php:144-169 | a name is pushed only for a non-empty start tag that is not stripped, and popped only for an end tag that is not stripped; an end tag leaves an empty pile empty; no other node touches the pile |
| `HtmlWalk.StrippedTagsInert` | src/Tf/String/TfTruncate.php:131-170 | the root tag and stripped tags produce no output and leave the pile and the count unchanged |
| `HtmlWalk.StepCounters` | src/Tf/String/TfTruncate.php:147-165 | `dontCount` rises at a non-empty ignore-content start tag and falls at its end tag; `stripContent` does the same for stripped ones; nothing else changes either counter |
| `HtmlWalk.ValuesCopiedUnlessStripping` | src/Tf/String/TfTruncate.php:172-191 | a text or other node's raw value is appended exactly when no stripped ignore-content element is open |
| `HtmlWalk.WalkSnoc` | src/Tf/String/TfTruncate.php:128-193 | running the loop over one more node is running it over the rest, then one more step if it has not returned |
| `HtmlWalk.WalkCutIsFinal` | src/Tf/String/TfTruncate.php:183 | once the loop has returned, the nodes after that point do not matter |
| `HtmlWalk.StopIsTheResult` | src/Tf/String/TfTruncate.php:128-184 | the loop's result is that of the node at which it stops |
| `HtmlWalk.WalkCutPoint` | src/Tf/String/TfTruncate.php:128-184 | the loop returns a cut exactly when some node stops it after all earlier nodes were consumed, and the result is that node's |
| `HtmlWalk.FirstStop` | src/Tf/String/TfTruncate.php:128-184 | a loop that returns a cut has a node at which it stops |
| `HtmlWalk.WalkCountWithinBudget` | src/Tf/String/TfTruncate.php:179-181 | while the loop runs, the count never decreases and stays either 0 or within the budget |
| `HtmlWalk.NormalizeText` | src/Tf/String/TfTruncate.php:175-178 | the text the loop counts; its length is what `HtmlWalk.StepCounting` adds to the count |
| `HtmlWalk.ClosingTags` | src/Tf/String/TfTruncate.php:183 | the closers of line 183; `HtmlWalk.ClosingTagsInPushOrder` equates them with one closing tag per pile entry, in push order |
| `HtmlWalk.CutAt` | src/Tf/String/TfTruncate.php:183 | the string line 183 returns; `HtmlWalk.CutAtShape` states it with the independent closers |
| `HtmlWalk.Step` | src/Tf/String/TfTruncate.php:129-192 | one pass of the loop body; `HtmlWalk.StepStopsOnlyOverBudget`, `HtmlWalk.StopResult`, `HtmlWalk.StepCounting`, `HtmlWalk.StepPile`, `HtmlWalk.StepCounters` and `HtmlWalk.ValuesCopiedUnlessStripping` state its contract |
| `HtmlWalk.Walk` | src/Tf/String/TfTruncate.php:128-193 | the loop; `HtmlWalk.WalkCutPoint` and `Nesting.WalkTracks` state when it returns and what it leaves |
| `HtmlWalk.SerializeAttrs` | src/Tf/String/TfTruncate.php:138-142 | each attribute printed as ` name="value"`, in order; `HtmlWalk.SerializeAttrsAppend` states this |
| `HtmlWalk.SerializeAttrsAppend` | src/Tf/String/TfTruncate.php:138-142 | a single attribute prints as ` name="value"`, and the attributes of a concatenation print as those of each part in turn |
| `HtmlWalk.Pop` | src/Tf/String/TfTruncate.php:168 | `array_pop` with no check of the name popped; `HtmlWalk.StepPile` states what an end tag does to the pile, including an empty one |
| `HtmlWalk.AddCounted` | src/Tf/String/TfTruncate.php:179-180 | the separator rule: one more only when something was counted already; `HtmlWalk.StepCounting` and `Nesting.CountIsJoinedLength` state its effect |
| `HtmlWalk.CopyValue` | src/Tf/String/TfTruncate.php:187-191 | the `default` branch, reached also from the text case; `HtmlWalk.ValuesCopiedUnlessStripping` states when it copies |
| `Nesting.StrippedIgnoredAtMostIgnored` | src/Tf/String/TfTruncate.php:147-150 | there are never more stripped ignore-content elements open than ignore-content elements open |
| `Nesting.NoIgnoredOpen` | src/Tf/String/TfTruncate.php:174 | the ignore counter is 0 exactly when no open element is an ignore-content one |
| `Nesting.KeptIsFilter` | src/Tf/String/TfTruncate.php:151-154 | the pile never holds a stripped name, holds only open names, and, without stripping, holds all open elements |
| `Nesting.KeptNotStripped` | src/Tf/String/TfTruncate.php:151-154 | no stripped name is ever kept on the pile |
| `Nesting.KeptAreOpen` | src/Tf/String/TfTruncate.php:151-154 | every name kept on the pile is an open element |
| `Nesting.KeptAllWithoutStripping` | src/Tf/String/TfTruncate.php:151-154 | without tag stripping, the pile is exactly the open elements |
| `Nesting.OpenOneMore` | src/Tf/String/TfTruncate.php:147-154 | opening an element adds it to the pile unless it is stripped, and to the counters when it is an ignore-content element |
| `Nesting.StepTracks` | src/Tf/String/TfTruncate.php:130-170 | on well-nested input, each step keeps the pile and both counters in line with the elements left open |
| `Nesting.StartTagTracks` | src/Tf/String/TfTruncate.php:130-156 | a start tag keeps the pile and counters in line with the open elements |
| `Nesting.EndTagTracks` | src/Tf/String/TfTruncate.php:158-170 | an end tag that closes the innermost element keeps the pile and counters in line with the open elements |
| `Nesting.StepCount` | src/Tf/String/TfTruncate.php:174-185 | a step that does not return raises the count by what its visible text adds |
| `Nesting.CountFromAppend` | src/Tf/String/TfTruncate.php:179-180 | counting two runs of text is counting the first, then the second from there |
| `Nesting.OverflowsAppend` | src/Tf/String/TfTruncate.php:181 | two runs of text overflow exactly when the first does, or the second does from the first's final count |
| `Nesting.WalkTracks` | src/Tf/String/TfTruncate.php:128-193 | on a well-nested stream, the loop cuts exactly when some visible text takes the count past the budget; otherwise the pile and counters match the elements left open, and the count is that of all the visible text |
| `Nesting.WellNestedPrefix` | src/Tf/String/TfTruncate.php:128 | every prefix of a well-nested stream is well-nested |
| `Nesting.CountFromPositive` | src/Tf/String/TfTruncate.php:179-180 | from a non-zero count, each text adds its length plus a separator |
| `Nesting.CountIsJoinedLength` | src/Tf/String/TfTruncate.php:179-180 | counted from 0, the count is the length of the visible texts joined by single spaces |
| `Nesting.OverflowsIffFinalCount` | src/Tf/String/TfTruncate.php:181 | from within the budget, some text overflows exactly when the final count is over the budget |
| `Nesting.CountFromAtLeast` | src/Tf/String/TfTruncate.php:179-180 | counting never lowers the count |
| `Nesting.WalkCutsExactlyWhenTooLong` | src/Tf/String/TfTruncate.php:116-193 | on a well-nested stream with a non-negative budget, the loop truncates exactly when the joined visible text is longer than `lmax` less the marker length |
| `Nesting.WalkCutsAtFirstTextWhenBudgetNegative` | src/Tf/String/TfTruncate.php:174-183 | with a negative budget, the loop over a well-nested stream returns exactly when there is some visible text, whatever its length |
| `Nesting.WalkEndState` | src/Tf/String/TfTruncate.php:128-193 | on a well-nested stream, a loop that runs out of nodes leaves on the pile the unclosed copied elements; `dontCount` counts the unclosed ignore-content elements, with `0 <= stripContent <= dontCount`; the count is the joined visible length, within the budget or 0 |
| `Nesting.CutClosesCopiedElements` | src/Tf/String/TfTruncate.php:181-183 | on a well-nested stream, at the node where the loop returns, the result is that node's cut, and the pile holds exactly the open elements whose tags were copied |
| `Nesting.TracksAtPrefix` | src/Tf/String/TfTruncate.php:128-170 | on a well-nested stream, after any prefix consumed without a return, the pile and counters match the elements the prefix leaves open |
| `Nesting.CutResultAt` | src/Tf/String/TfTruncate.php:181-183 | the node at which the loop stops is a text node, and the loop returns its cut |
| `HtmlTruncation.TruncateHtml` | src/Tf/String/TfTruncate.php:106-203 | the marker and collaborators are unchanged; any recorded error means the plain-text fallback was returned; the opening error is recorded exactly when the reader cannot open the input; the parsing error exactly when diagnostics were recorded; recorded diagnostics are the reader's; a stream read to the end without diagnostics returns the input unchanged with no error |
| `HtmlTruncation.Cleared` | src/Tf/String/TfTruncate.php:120-121 | the reset of both error fields; `HtmlTruncation.PriorErrorsIrrelevant` states its effect |
| `HtmlTruncation.PriorErrorsIrrelevant` | src/Tf/String/TfTruncate.php:120-121 | the outcome does not depend on the errors left by an earlier call |
| `HtmlTruncation.WalkIgnoresErrors` | src/Tf/String/TfTruncate.php:128-193 | the loop reads only the marker and the collaborators, never the error fields |
| `HtmlTruncation.CleanMarkupTruncatedExactlyWhenTooLong` | src/Tf/String/TfTruncate.php:194-201 | with a non-negative budget, well-nested markup without diagnostics comes back unchanged, with an empty diagnostics list, exactly when its joined visible text fits the budget; otherwise the loop's cut is returned; neither case records an error |
| `HtmlTruncation.CleanMarkupWithNegativeBudget` | src/Tf/String/TfTruncate.php:181-201 | with a marker longer than the limit, well-nested markup without diagnostics comes back unchanged, with an empty diagnostics list, exactly when it has no visible text; otherwise the loop's cut at the first visible text is returned; neither case records an error |
| `HtmlTruncation.TruncateHtmlLoop` | src/Tf/String/TfTruncate.php:120-201 | the imperative loop with its early return computes the same outcome as the fold |
| `HtmlTruncation.ParagraphExample` | src/Tf/String/TfTruncate.php:172-183 | `<p>Hello world</p>` cut to 8 gives `<p>Hello...</p>` with no error |

## Left out

- Character encodings are left out: `mb_detect_encoding`, `setEncoding` and
  `getEncoding`, and `mb_convert_encoding`. Every string is a sequence of code
  points, and every length is what `mb_strlen` counts in the resolved
  encoding. Conversion is the identity.
- XMLReader and libxml are left out because they are external code. The
  reader's outcome is an input, the `Parse` datatype: either it could not
  open the input, or it gives the node stream with depths, self-closing flags
  and attributes, plus the diagnostics. This also covers the wrapping in
  `<root>` and the `&` to `&amp;` escaping at line 117, which only feed the
  reader. A read error that stops the loop early is modelled as a shorter
  stream. Diagnostics are opaque strings.
- `TfTruncate.stripMarkup`: lines 78-84 (removal of ignore-content elements
  by a regular expression, `strip_tags`, `html_entity_decode`) are left out
  because they are PHP library behaviour. They are modelled as an
  uninterpreted function field of the object. No property depends on their
  content.
- `TfTruncate.decodeEntities`: lines 175-176 (`&amp;` restored and
  `html_entity_decode`) are left out for the same reason, also as an
  uninterpreted function field.
- The getters and `setCplt` (lines 39-67) are left out because they are
  plain field accesses. The marker is the `cplt` field of the state, and
  `Instance.Fresh` is the default-constructed object.
- The error constants 1 and 2 are the values of `XmlError.Code`.
- The PCRE newline convention is taken to be LF only, the library's default.
- The `i` modifier on both patterns changes nothing, since they contain no
  letters. Category Z is taken as Unicode has defined it since version 6.3.
- `strtolower` is modelled as ASCII-only, as in PHP 8.2 and later.
- `in_array`'s loose comparison is modelled as string equality. No listed
  tag name is numeric, so the two agree.
- Attribute values are copied verbatim, as the code does (no escaping).
- HtmlWalk.WalkCountWithinBudget: stated only from a state whose count is
  0 or within the budget, which holds for the initial state.
- Nesting.WalkTracks: stated only for a well-nested stream, in which every
  end tag closes the innermost open element. The step function itself
  handles any stream, including an end tag that `array_pop` applies to an
  empty pile.
- Nesting.WalkCutsExactlyWhenTooLong: stated only for a well-nested stream
  and a non-negative budget. With a negative budget the first counted text
  cuts, whatever its length, as `Nesting.WalkCutsAtFirstTextWhenBudgetNegative`
  states.
- HtmlTruncation.CleanMarkupTruncatedExactlyWhenTooLong: stated only for a
  well-nested stream and a non-negative budget. With a negative budget,
  markup with no counted text is returned unchanged, and otherwise the first
  counted text cuts, as `HtmlTruncation.CleanMarkupWithNegativeBudget` states.
- TextTruncation.TruncateTextIdempotent: stated only for a marker that is
  non-empty and has no trim character at either end. With any other marker
  a second truncation can change the text.
