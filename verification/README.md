# Malemon editor core in Dafny

Malemon is a Tk Markdown editor built around one class, `MarkdownEditor`. Its
window has an editor pane, a live preview, a status line and a window title.
This project models the logic behind that window:

- **the syntax highlighter.** It makes eleven regular-expression passes over the
  widget text and tags each match. Each pattern is written out as a matcher
  (`Patterns.MatchAt`). `Scanner.Scan` runs the matcher with the semantics of
  `re.finditer`: leftmost match, lazy bodies, no overlap, and each search
  resumes where the previous match ended.
- **the theme palette.** This maps a theme name to the tag colours and the
  editor colours.
- **the debounced refresh.** An edit re-arms a timer. When the timer fires, the
  preview is rendered again, the status line recounted and the text
  re-highlighted, but only if the content changed.
- **the handlers that act on the same state:** new, open, save, save as, the
  "save changes?" prompt, theme change, close, and undo and redo from the
  Edit menu.
- **format insertion** from the format menu, and select-all.
- **find**, which tags every case-insensitive, non-overlapping occurrence.
- **the window title.**

Tk is modelled through its observable effects:

- The widget text is the buffer plus one final newline (`Text.WidgetText`).
  A selection may take in that newline; select-all does, and so does a
  triple-click on the last line.
- A delete never removes the final newline. A delete that runs to "end" from
  the start of a line other than the first removes the newline before that
  line instead (`Format.DeleteStart`).
- Undo and redo from the Edit menu replace the buffer with the text the
  widget's undo stack gives (`Editor.Event.MenuEdit`).
- Tags are a set of (tag, character) marks (`Tags.Mark`).
- Timers are ids handed out in order. A cancelled timer never fires.

The Markdown converter is a parameter `convert`. The answers of the message
boxes and the file dialogs, and the results of file reads and writes, are
inputs of the events (`Editor.Event`). The events run either with the handlers
as written or with the corrected forms from the findings (`Editor.Handlers`).

Modules and files:

- `wrappers.dfy`: `Option`.
- `text.dfy`: character classes and line structure.
- `tags.dfy`: tags, spans and marks.
- `patterns.dfy`: the matchers.
- `scanner.dfy`: the scan and its characterisation.
- `highlight.dfy`: the highlight pass.
- `rule_facts.dfy`: what a match of each rule looks like.
- `emphasis_example.dfy`: emphasis layering worked out on one line.
- `palette.dfy`: theme colours.
- `status.dfy`: the status line and the word count.
- `find.dfy`: search.
- `title.dfy`: the window title.
- `format.dfy`: `insert_format` and `select_all`.
- `editor.dfy`: the editor state, the handlers, the event loop and the findings.

## Model

| member | source | states |
|---|---|---|
| Text.WidgetText | malemon.py:250 | What `get("1.0", END)` reads: one character more than the buffer, the last being Tk's final newline. |
| Text.StripUndoesWidgetNewline | malemon.py:362-366 | Stripping one trailing newline from the widget text gives back the buffer exactly, even when the buffer itself ends in newlines. |
| Text.RunEnd | malemon.py:253 | A greedy repetition of a character class ends at the first character outside the class, and every character before it is inside the class. |
| Text.LastNonNewline | malemon.py:253 | The backtracking point of the header pattern: the last character in a range that is not a newline, with only newlines after it. |
| Patterns.HeaderAt | malemon.py:253 | A header match starts a line with `#` and ends on a character that is not a newline, at a line end or the end of the text. |
| Patterns.ListAt | malemon.py:308 | A list match starts a line and ends on whitespace, just before a non-space character or the end of the text. |
| Patterns.MatchAt | malemon.py:253-314 | A match tried at an offset is non-empty and stays inside the text. |
| Patterns.LazyClose | malemon.py:260-287 | A lazy body `.*?` ends at the first offset where its closer matches. No earlier offset admits the closer, and only `[\s\S]*?` may cross a newline. |
| Scanner.FirstIn | malemon.py:585 | The search from an offset returns the leftmost match at or after it. There is no match between the offset and the result. |
| Scanner.Scan | malemon.py:253-317 | `re.finditer` from an offset: every range starts at or after the offset, is non-empty and inside the text, and ranges come in order without overlap. |
| Scanner.ScanTable | malemon.py:253-317 | Every range reported by `re.finditer` is a match at its start. Ranges come in order and do not overlap. |
| Scanner.ScanRangeIsMatch | malemon.py:253-317 | Each range a scan reports is the match the pattern makes at that range's start. |
| Scanner.ScanTableIsScan | malemon.py:253-317 | The scan has the three defining properties of a left-to-right, non-overlapping finditer. Every match start it skips lies inside a reported range. |
| Scanner.ScanUnique | malemon.py:253-317 | Two sequences of ranges with these properties are equal, so the properties determine the scan. |
| Scanner.FirstRangeIsFirstMatch | malemon.py:253-317 | A scan is empty exactly when nothing matches; otherwise it begins with the leftmost match. |
| Scanner.TailIsScan | malemon.py:253-317 | What follows the first range is the scan resumed at that range's end. |
| Scanner.EndBeforeLater | malemon.py:253-317 | Any range ends before every later range starts. |
| Scanner.ScanCharacterized | malemon.py:253-317 | `Scan` equals a sequence of ranges exactly when that sequence is a left-to-right non-overlapping scan of the matches. |
| Scanner.ScanEmptyIff | malemon.py:253-317 | A scan finds nothing exactly when the pattern matches at no offset. |
| Scanner.CountSome | malemon.py:375 | A range holds at most as many match offsets as it has offsets. |
| Scanner.CountSomeSplit | malemon.py:375 | The number of match offsets in a range is the sum over any split of that range. |
| Scanner.CountSomeNone | malemon.py:375 | A range without match offsets counts zero. |
| Scanner.ScanCountsMatches | malemon.py:375 | When no match can start inside another, the scan reports every match, so its length is the number of match offsets. |
| Highlight.TagEach | malemon.py:260-264 | One `tag_add` per tag of the rule, all over the same range. |
| Highlight.RangeSpans | malemon.py:253-317 | A rule's spans are exactly its tags over its matches. |
| Highlight.RulesSpans | malemon.py:253-317 | A span is added exactly when some rule carries its tag and scanned its range. |
| Highlight.RulesAreSyntax | malemon.py:246-317 | No rule adds the search tag. |
| Highlight.Highlight | malemon.py:243-317 | Every span the highlighter adds carries one of the eight syntax tags, never the search tag. |
| Highlight.HighlightPass | malemon.py:243-317 | A pass keeps the search marks exactly. Its syntax marks are exactly the marks of the spans the rules add, whatever was tagged before. |
| Highlight.CoverHasRule | malemon.py:253-317 | A span of tag t over a position comes from a rule with t that matched over that position. |
| Highlight.RuleHasCover | malemon.py:253-317 | A rule with tag t that matched over a position adds a span of t over that position. |
| Highlight.RulesSpansCover | malemon.py:253-317 | Both directions together: a position is covered by tag t exactly when a rule with t matched over it. |
| Highlight.PassMarks | malemon.py:243-317 | A syntax mark is set after a pass exactly when a rule with that tag matched over its character. |
| Highlight.MatchMarksPass | malemon.py:260-264 | A match marks every character of its range with every tag of its rule, so `***x***` gets bold and italic over the whole match. |
| Highlight.SpansAreMatches | malemon.py:253-317 | Every added span is a regex match inside the text, with a syntax tag. |
| Highlight.NoMatchNoSpans | malemon.py:253-317 | Text on which no rule matches anywhere gets no span. |
| Highlight.NothingScannedNoSpans | malemon.py:253-317 | Rules whose scans are all empty add no span. |
| Highlight.PassSyntaxMarks | malemon.py:246-250 | After a pass, the marks other than search are those of the highlighter's spans over the text. |
| Highlight.PassDependsOnTextOnly | malemon.py:246-250 | The syntax marks after a pass depend on the text alone. |
| Highlight.PassIdempotent | malemon.py:243-317 | A second pass over the same text changes nothing. |
| RuleFacts.TripleStarMatch | malemon.py:260 | `***x***`: three stars, a body with no newline and no `***`, then three stars. |
| RuleFacts.DoubleStarMatch | malemon.py:267 | `**x**` never uses a star that touches a third one. Its body is non-empty and stays on one line. |
| RuleFacts.SingleStarMatch | malemon.py:273 | `*x*` only uses stars with no star beside them. Its body is non-empty and stays on one line. |
| RuleFacts.DoubleUnderscoreMatch | malemon.py:279 | `__x__` stays on one line, and its body may be empty. |
| RuleFacts.SingleUnderscoreMatch | malemon.py:284 | `_x_` stays on one line and ends at the first underscore after the opening one. |
| RuleFacts.FenceMatch | malemon.py:290 | A fenced block may span lines and stops at the first closing fence. |
| RuleFacts.InlineCodeMatch | malemon.py:296 | Inline code has a non-empty body with no backtick and no newline. |
| RuleFacts.LinkMatch | malemon.py:302 | The link text stays on its line; the target runs to the first `)`. |
| RuleFacts.HeaderMatch | malemon.py:253 | A header starts a line with one to six `#` and whitespace, and ends at a line end. |
| RuleFacts.ListMatch | malemon.py:308 | A list marker starts a line; its match ends where the whitespace after it ends. |
| RuleFacts.QuoteMatch | malemon.py:314 | A quote starts a line with `>` and runs to the end of that line. |
| RuleFacts.HeaderWhitespaceCrossesLines | malemon.py:253 | The `\s+` of the header pattern crosses a newline: a lone `#` takes the next line as its title. |
| RuleFacts.FenceSpansLines | malemon.py:290 | A fenced block runs over several lines. |
| RuleFacts.WrappedNewlineBreaksBold | malemon.py:267 | Bold markup around a newline, `**hello\n**`, is not a bold match anywhere. |
| RuleFacts.LinkTargetSpansLines | malemon.py:302 | A link target runs over a newline up to the first `)`. |
| EmphasisExample.OneMatchScan | malemon.py:253-317 | A pattern that matches at one offset and nowhere outside that match gives a one-range scan. |
| EmphasisExample.ExampleTripleStar | malemon.py:260 | In `**bold** and *italic* and ***both***`, the triple-star rule matches only `***both***`. |
| EmphasisExample.ExampleDoubleStar | malemon.py:267 | The double-star rule matches only `**bold**`; the stars of `***both***` are refused by the lookarounds. |
| EmphasisExample.ExampleSingleStar | malemon.py:273 | The single-star rule matches only `*italic*`. |
| EmphasisExample.ExampleNoDoubleUnderscore | malemon.py:279 | The `__` rule matches nowhere in the example. |
| EmphasisExample.ExampleNoSingleUnderscore | malemon.py:284 | The `_` rule matches nowhere in the example. |
| EmphasisExample.EmphasisRules | malemon.py:260-287 | Bold comes from the triple-star, double-star and `__` rules; italic from the triple-star, single-star and `_` rules. |
| EmphasisExample.EmphasisRanges | malemon.py:260-287 | In the example, the bold rules match only `**bold**` and `***both***`, and the italic rules only `*italic*` and `***both***`. |
| EmphasisExample.ExampleMarkBounded | malemon.py:260-287 | A bold or italic mark of the example lies inside one of those runs. |
| EmphasisExample.ExampleMarksBounded | malemon.py:260-287 | The same for all marks at once. |
| EmphasisExample.BoldRun | malemon.py:267-270 | Every character of `**bold**` is bold. |
| EmphasisExample.ItalicRun | malemon.py:273-276 | Every character of `*italic*` is italic. |
| EmphasisExample.BothRun | malemon.py:260-264 | Every character of `***both***` is bold and italic. |
| EmphasisExample.BoldOnly | malemon.py:260-276 | `**bold**` is bold and not italic. |
| EmphasisExample.ItalicOnly | malemon.py:260-276 | `*italic*` is italic and not bold. |
| EmphasisExample.ExampleLayering | malemon.py:260-276 | `**bold**` is bold only, `*italic*` italic only, and `***both***` both, throughout. |
| Palette.Style | malemon.py:324-343 | The style of one tag in the dark or the light palette: only the two code tags and the search tag get a background, and the search tag is black on yellow in both. |
| Palette.TagStyles | malemon.py:320-343 | A theme configures exactly the eight syntax tags, each with the dark or the light style. Only the two code tags get a background. |
| Palette.EditorColorsFor | malemon.py:544-547 | The editor foreground is white for the dark family and black otherwise. |
| Palette.PalettesDiffer | malemon.py:324-343 | The dark and the light palette differ on every syntax tag. |
| Palette.SamePaletteIff | malemon.py:324-343 | Two theme names get the same tag colours exactly when both or neither is one of vapor, darkly, cyborg and superhero. |
| Palette.EditorFollowsPalette | malemon.py:324-343 | The editor colours of two themes agree exactly when their tag colours agree. |
| Palette.CodeStandsOut | malemon.py:327-340 | Code uses the editor's text colour on a background different from the editor's, in either palette. |
| Palette.UnknownIsLight | malemon.py:333-343 | Every name outside the dark family, unknown names included, gets the colours of `litera`. |
| Status.WordCount | malemon.py:375 | `len(re.findall(r'\b\w+\b', content))`: never more words than characters. |
| Status.StatusOf | malemon.py:372-376 | The status after a refresh counts every character. The word count is zero exactly when there is no word character. |
| Status.WordMatchAt | malemon.py:375 | `\b\w+\b` matches exactly where a run of word characters starts. |
| Status.WordMatchesDoNotNest | malemon.py:375 | A word match never starts inside another. |
| Status.CountIsRunStarts | malemon.py:375 | The match offsets of `\b\w+\b` are the run starts. |
| Status.WordCountIsRunStarts | malemon.py:375 | The word count is the number of maximal runs of word characters. |
| Status.RunStartsZeroIff | malemon.py:375 | There are no run starts exactly when no offset starts a run. |
| Status.RunStartBefore | malemon.py:375 | Every word character belongs to a run that starts at or before it. |
| Status.WordsIffWordChar | malemon.py:375 | The word count is zero exactly when no character is a word character; this covers the empty content. |
| Status.RunStartsSplit | malemon.py:375 | Run starts over a range add up over any split of that range. |
| Status.RunStartsPrefix | malemon.py:375 | Run starts inside a prefix do not depend on what follows it. |
| Status.RunStartsSuffix | malemon.py:375 | After a non-word character, run starts are those of the text that follows. |
| Status.WordCountJoin | malemon.py:375 | Two texts joined by a non-word character have as many words as both together. |
| Status.HyphenSeparatesWords | malemon.py:375 | `a-b` counts as two words: a hyphen ends a word. |
| Find.Hits | malemon.py:582-592 | The occurrences a search tags are non-empty ranges inside the buffer, in order, without overlap. |
| Find.SearchFrom | malemon.py:585 | A case-insensitive search from an offset returns the leftmost occurrence at or after it. |
| Find.DoSearch | malemon.py:572-602 | An empty query changes nothing and only warns. Otherwise the other tags are kept, and a character is tagged search exactly when an occurrence found left to right covers it. The count reported is the number of occurrences. |
| Find.CollectHits | malemon.py:582-592 | The search loop collects exactly the non-overlapping occurrences, left to right, and counts them. |
| Find.ScanStep | malemon.py:585-591 | An occurrence found at i is reported, and the search resumes at its end. |
| Find.ScanAdvance | malemon.py:585-592 | Reporting an occurrence keeps the loop's invariant and moves the start forward, so the loop ends. |
| Find.ScanStop | malemon.py:586-587 | A search that finds nothing more ends the scan. |
| Find.SearchMarks | malemon.py:579-590 | The old search marks go; search marks are set exactly over the occurrences found; other tags stay. |
| Find.SearchSpans | malemon.py:590 | One search span per occurrence found, and no other. |
| Find.CloseSearch | malemon.py:604-607 | Closing the dialog removes every search mark and nothing else. |
| Find.HitIsOccurrence | malemon.py:585-589 | Each tagged range is an occurrence of the query, ignoring case, exactly as long as the query. |
| Find.HitsDisjoint | malemon.py:589-591 | Tagged ranges come in increasing order and never overlap. |
| Find.MissedOccurrenceOverlaps | malemon.py:585-591 | An occurrence that is not tagged as a range of its own overlaps a tagged range. |
| Find.FoundIff | malemon.py:597-602 | The search reports found exactly when the query occurs somewhere, ignoring case. |
| Find.SearchThenClose | malemon.py:579-607 | A search followed by a close leaves the tags a close alone leaves. |
| Title.Basename | malemon.py:622 | The base name is the part of the path after its last `/`, and contains no `/`. |
| Title.Title | malemon.py:618-625 | The title ends with the application name. It is marked `* ` when modified, and is the bare name for an unmodified document without a file. |
| Title.ParseTitle | malemon.py:618-625 | Reading a title back yields the modified flag exactly when the title starts with `* `. |
| Title.TitleRoundTrip | malemon.py:618-625 | The title gives back the shown file name and the modified flag, except when an unmodified title already starts with `* `. |
| Title.TitleCollision | malemon.py:618-625 | An unmodified file named `* x` has the title of a modified file named `x`. |
| Title.DirectoriesHidden | malemon.py:622 | The directories of the file's path never show in the title. |
| Title.BasenameOfJoin | malemon.py:622 | The base name of `dir/name` is `name`. |
| Title.BasenameOfName | malemon.py:622 | A name without `/` is its own base name. |
| Format.DeleteStart | malemon.py:231 | A delete of a range that runs to "end" from the start of a line other than the first begins one character early, on the newline before it; any other delete begins where the range does. |
| Format.DeleteEnd | malemon.py:231 | A delete up to the end of the widget stops before the final newline, which Tk never removes. |
| Format.Gravity | malemon.py:231-232 | The insertion cursor has right gravity: before the replaced range it stays put, inside it or at its edges it lands after the new text, and after it it moves by the change in length. |
| Format.GravityKeepsText | malemon.py:231-232 | The cursor keeps its neighbours: before the edit the same text precedes it; anywhere else the same text follows it as before. |
| Format.WrapBuffer | malemon.py:228-232 | The text before the delete's start is kept, then come prefix, the selected widget text and suffix, then the text after the delete's end; a selection that takes in the final newline puts that newline just before the suffix. |
| Format.Reselect | malemon.py:235-236 | The new selection runs from the saved start over the markup; after a delete that joined lines, the saved line index names the line after the markup's first newline, and the selection ends at "end". |
| Format.WrapSelection | malemon.py:223-236 | A format with a selection keeps the text before the delete, puts the wrapped selection where the delete started and keeps the text after it. The markup is selected, or, after a join, only its part from the first newline on. A cursor before the edit stays; one inside it lands after the markup. |
| Format.InsertFormat | malemon.py:221-241 | The result is a valid view. Without a selection, prefix and suffix go in at the cursor, the text around the cursor is kept, and the cursor lands between them. |
| Format.InsertBuffer | malemon.py:239 | Prefix and suffix go in together at the cursor: the text before the cursor followed by prefix, then suffix followed by the text after it. |
| Format.FormatShapes | malemon.py:223-236 | A selection joins lines exactly when the delete starts early. Inside the buffer it is wrapped in place; taking in the final newline from the first line or mid-line it carries that newline into the markup; joining lines it also loses the newline before it. |
| Format.ShapeInside | malemon.py:223-236 | A selection inside the buffer gives buffer[..s] + prefix + selection + suffix + buffer[e..]. |
| Format.ShapeFinal | malemon.py:223-236 | A selection that takes in the final newline without joining gives buffer[..s] + prefix + buffer[s..] + newline + suffix. |
| Format.ShapeJoined | malemon.py:223-236 | A selection that joins lines gives buffer[..s-1] + prefix + buffer[s..] + newline + suffix: the newline before the line is gone. |
| Format.RemoveFormat | malemon.py:221-241 | Removing the markup shortens the buffer by exactly the prefix and suffix lengths and moves a cursor back by the prefix length. |
| Format.MarkupOfJoined | malemon.py:223-236 | After a join, the markup starts one before the old selection, where the delete began, and runs to the end of the buffer. |
| Format.RemoveUndoesInsert | malemon.py:221-241 | Removing the prefix and suffix again gives back the selection and the buffer, except that a selection that took in the final newline leaves that newline behind, and one that joined lines leaves the newline before it moved behind it. |
| Format.RemoveUndoesWrap | malemon.py:223-236 | The same, for the selection case. |
| Format.RemoveUndoesWrapInside | malemon.py:223-236 | A selection inside the buffer is given back exactly. |
| Format.RemoveUndoesWrapFinal | malemon.py:223-236 | A selection that took in the final newline, from the first line or mid-line, comes back with one extra newline. |
| Format.RemoveUndoesWrapJoined | malemon.py:223-236 | A selection that joined lines comes back with the newline before it moved to the end. |
| Format.RemoveUndoesInsertAtCursor | malemon.py:237-241 | The same, for the cursor case. |
| Format.OutsideUnchanged | malemon.py:223-236 | Text before the delete's start and after its end is unchanged, and so is all text before the selection unless it joins lines. A cursor before the edit stays put; one after it moves with its text. |
| Format.SelectAll | malemon.py:345-348 | Select-all tags the whole widget text, final newline included, and moves neither text nor cursor. |
| Format.SelectAllTakesNewline | malemon.py:345-348 | A format after select-all wraps the buffer and the final newline, and removing the markup leaves an extra newline. |
| Format.SelectAllBoldExample | malemon.py:345-348 | Bold after select-all on `hello` gives `**hello\n**`. |
| Format.SelectAllIntended | malemon.py:345-348 | The corrected select-all selects exactly the buffer, and nothing when it is empty. |
| Format.SelectAllIntendedWraps | malemon.py:345-348 | A format after the corrected select-all wraps exactly the buffer, and removing the markup gives it back. |
| Format.LastLineBoldExample | malemon.py:223-236 | Bold on the last line of `a\nb`, selected to "end", gives `a**b\n**`, with the cursor and selection after the newline. |
| Format.ClampToBuffer | malemon.py:223-225 | The corrected selection stops at "end-1c": it never takes in the final newline and never joins lines, is unchanged when it stays inside the buffer, and is dropped when nothing of it is left. |
| Format.ClampedFormatIsExact | malemon.py:223-241 | A format on the clamped selection keeps all text before the selection, and removing the markup gives back the buffer exactly. |
| Format.LastLineBoldIntended | malemon.py:223-236 | Bold on the clamped last line of `a\nb` gives `a\n**b**`. |
| Format.SelectAllIntendedIsClamped | malemon.py:345-348 | The corrected select-all is select-all clamped to the buffer. |
| Editor.Content | malemon.py:362-366 | The content a refresh reads is exactly the buffer. |
| Editor.Display | malemon.py:368-384 | A refresh that found new content renders it and recounts the status. It re-highlights, keeps the search marks, applies the theme's tag colours and remembers the content. |
| Editor.Refresh | malemon.py:360-387 | A refresh always clears `after_id`. It leaves everything else alone exactly when the content equals `last_content`; otherwise it displays the content and marks the document modified. |
| Editor.CancelPending | malemon.py:354-355 | Cancelling removes exactly the timer `after_id` names and changes nothing else. |
| Editor.Init | malemon.py:11-43 | The editor starts empty, unmodified, titled `Malemon`, with nothing pending and the placeholder shown. |
| Editor.Edit | malemon.py:350-358 | An edit cancels the pending timer and arms exactly one new one. The preview, tags and status wait for it. |
| Editor.Fire | malemon.py:358 | A cancelled or fired timer does nothing. A live one runs the refresh and leaves nothing pending. |
| Editor.Write | malemon.py:470-488 | A successful write marks the document saved and remembers the content. A failed write changes nothing. |
| Editor.SaveAs | malemon.py:490-505 | An empty path cancels. Otherwise the path becomes the current file and is written. |
| Editor.SaveFile | malemon.py:465-488 | Without a file it goes through save-as and returns nothing. With one it writes and returns a value whether or not the write succeeded. |
| Editor.AskSaveChanges | malemon.py:507-522 | Unmodified documents proceed. Cancel refuses and No proceeds. Yes proceeds exactly when `save_file` returned a value. |
| Editor.AskSaveIntended | malemon.py:507-522 | The corrected prompt goes on only if nothing unsaved is lost. Yes goes on exactly when the save left the document unmodified. |
| Editor.New | malemon.py:407-425 | A new document is empty and unmodified, with no file. Nothing is pending, the placeholder is shown, there are no tags, and the counts are zero. |
| Editor.OpenLoaded | malemon.py:442-459 | Open as written: the text becomes the buffer and `last_content`, the document is unmodified, nothing is pending, and the status names the file. |
| Editor.OpenLoadedIntended | malemon.py:442-459 | The corrected open also displays the opened text. |
| Editor.ChangeTheme | malemon.py:529-555 | A theme change renders the buffer, sets the editor and syntax tag colours of the new theme and re-highlights. The search tag's colours and the refresh state are left alone. |
| Editor.Render | malemon.py:389-405 | Empty content shows the placeholder heading; other content shows the converter's HTML. |
| Editor.AskSave | malemon.py:507-522 | In either form, the prompt goes on without asking for an unmodified document, Cancel refuses and No goes on, and nothing about the buffer or the timers changes. |
| Editor.Load | malemon.py:442-459 | In either form, the opened text becomes the buffer and `last_content`, under the new path, unmodified, with nothing pending. |
| Editor.Close | malemon.py:627-637 | Close cancels the pending timer and keeps its id. An unmodified document always closes; a cancelled prompt keeps the window. As written, Yes with a file closes even when the write fails; corrected, a close never drops unsaved changes after Yes. |
| Editor.OnNew | malemon.py:407-425 | New goes straight to an empty document when nothing is unsaved or the answer is No, and Cancel changes nothing. As written, Yes with a file discards the document whether or not the write succeeded, and Yes without one stays after the save-as. Corrected, Yes either keeps the unsaved text or starts fresh after the save. |
| Editor.OnOpen | malemon.py:427-463 | Open loads the chosen file once the prompt lets it; a cancelled dialog or a failed read changes nothing. The buffer is either kept or becomes the file's text under its path, unmodified. Corrected, a failed save keeps the unsaved text. |
| Editor.OnFormat | malemon.py:221-241 | A format from the menu changes only the buffer and arms no refresh. As written the buffer is what `insert_format` leaves, and the text before the selection is kept unless the selection joins lines; corrected, the selection is first clamped to the buffer and the text before it is always kept. |
| Editor.OnFind | malemon.py:572-602 | A search changes only the search marks and the search tag's colours. The marks cover exactly the occurrences; the search tag becomes black on yellow whatever the theme, and every other tag keeps its colours. An empty query changes nothing. |
| Editor.Step | malemon.py:350-637 | Timer ids never go backwards. A key release sets the text and arms the next timer; a stale timer does nothing; a theme event sets the theme; a search changes only the search marks and sets the search tag to black on yellow, and closing the find dialog changes only the search marks; a format changes only the buffer; undo or redo from the menu sets the buffer to the text it gives and changes nothing else. |
| Editor.Run | malemon.py:350-637 | Across a sequence of events, the next timer id never goes backwards. With the invariant's `after_id` below the next id (`Editor.RunKeepsInv`), this means a new timer never reuses the id of the pending one. |
| Editor.StatusOfEmpty | malemon.py:424 | The empty document's status shows zero characters and zero words. |
| Editor.AtMostOnePending | malemon.py:352-358 | Under the invariant, at most one refresh is pending, and it is the one `after_id` names. |
| Editor.EditArmsOne | malemon.py:352-358 | After an edit exactly one refresh is pending. |
| Editor.WriteKeepsInv | malemon.py:465-488 | A write keeps the invariant. |
| Editor.SaveKeepsInv | malemon.py:465-505 | Save and save-as keep the invariant. |
| Editor.AskKeepsInv | malemon.py:507-522 | Both forms of the prompt keep the invariant. |
| Editor.OpenKeepsInv | malemon.py:442-459 | Open keeps the invariant and arms no timer. |
| Editor.FireKeepsInv | malemon.py:358-387 | A fired timer keeps the invariant; firing the pending one leaves none. |
| Editor.NewKeepsInv | malemon.py:407-425 | New keeps the invariant. |
| Editor.ThemeKeepsInv | malemon.py:529-555 | A theme change keeps the invariant. |
| Editor.NewEventKeepsInv | malemon.py:407-425 | The new-file event, prompt included, keeps the invariant. |
| Editor.OpenEventKeepsInv | malemon.py:427-463 | The open event, prompt and failed reads included, keeps the invariant. |
| Editor.AskSaveKeepsInv | malemon.py:507-522 | Both forms of the prompt keep the invariant. |
| Editor.CloseKeepsInv | malemon.py:627-637 | A close, in either form and whatever the answer, keeps the invariant and leaves no timer that can fire. |
| Editor.StepKeepsInv | malemon.py:350-637 | Every event keeps the invariant, with the handlers as written and corrected: edit, timer, new, open, save, save-as, theme, format, find, close of find, close, undo and redo from the menu. |
| Editor.RunKeepsInv | malemon.py:350-637 | Every sequence of those events, with either form of the handlers, keeps the invariant, so at most one refresh is ever pending. |
| Editor.RunStopsAtClose | malemon.py:627-637 | Once a close goes through, the window is gone and later events have no effect. |
| Editor.RefreshGuard | malemon.py:368 | A refresh that finds the content unchanged changes nothing but `after_id`. |
| Editor.RefreshShowsBuffer | malemon.py:360-387 | A refresh over a displayed state displays the buffer. |
| Editor.EditKeepsShown | malemon.py:350-358 | Edits leave the display of `last_content` in place. |
| Editor.EditsArmOne | malemon.py:350-358 | After a burst of edits exactly one timer is pending. Nothing was rendered, and the buffer is the last text. |
| Editor.BurstThenFire | malemon.py:350-387 | Debouncing: after a burst of edits, the one pending timer renders once and displays the last text. |
| Editor.InitHasNoTags | malemon.py:36-40 | The initial document has no syntax tags and shows the placeholder. |
| Editor.EmptyHasNoTags | malemon.py:243-317 | The widget text of an empty buffer matches no rule. |
| Editor.NewShown | malemon.py:407-425 | A new document is displayed in step with `last_content`. |
| Editor.FireKeepsShown | malemon.py:358-387 | Timers keep the display in step with `last_content`. |
| Editor.NewEventKeepsShown | malemon.py:407-425 | The new-file event keeps the display in step. |
| Editor.OpenEventKeepsShown | malemon.py:427-463 | The corrected open event keeps the display in step. |
| Editor.StepKeepsShown | malemon.py:350-463 | Edits, timers, formats, searches, menu undo and redo, new and the corrected open keep the display in step with `last_content`. |
| Editor.ThemeKeepsShown | malemon.py:529-555 | A theme change over a settled document keeps it displayed, in the new colours. |
| Editor.ThemeColoursAgree | malemon.py:544-550 | The dark tag colours and the dark editor colours come together. |
| Editor.OpenLeavesPreviewStale | malemon.py:455-457 | Open as written leaves the previous preview and no tags, and a later refresh does not repair them. |
| Editor.OpenLosesHighlighting | malemon.py:455-457 | An opened document with syntax elements shows without highlighting; the corrected open shows it highlighted. |
| Editor.SaveDuringDebounceSkipsRefresh | malemon.py:481-483 | A save while a refresh is pending makes that refresh a no-op, so the preview never shows the saved text. |
| Editor.WriteIntended | malemon.py:481-483 | The corrected save renders what it saves, so the display stays in step. |
| Editor.AskSaveFailedWriteProceeds | malemon.py:485-488 | As written, Yes with a failed write still proceeds and the unsaved changes are dropped. |
| Editor.AskSaveUntitledRefuses | malemon.py:467-469 | As written, Yes on an untitled document refuses even after a successful save-as. |
| Editor.AskSaveIntendedSafe | malemon.py:507-522 | The corrected prompt never drops unsaved changes, and it goes on after every successful save. |
| Editor.CancelledCloseDropsRefresh | malemon.py:629-635 | A close cancelled at the prompt, in either form, has already cancelled the pending refresh. `after_id` still names it, but it never fires. |

## Left out

- Widget construction, menus, the toolbar, key bindings, `show_about` and the
  scrolling of the find dialog are pure interface (malemon.py:45-219, 599,
  639-666). The menu commands and key bindings are the events of
  `Editor.Event`.
- Dialogs and file I/O are inputs of the events: the message-box answer, the
  chosen paths, the text read and whether the write succeeded. Error message
  boxes have no state effect and are not modelled.
- `markdown.markdown` and its extensions are the parameter `convert`; only the
  empty-input branch of `render_markdown` is modelled.
- Time is not modelled. The 300 ms delay, `after` and `after_cancel` become
  timer ids; any live timer may fire at any point of an event sequence.
- `auto_preview_enabled` is always true in the source, so the model has no flag.
- Text.IsWordChar: `\w` and `\d` are limited to ASCII, where Python's `re`
  takes in every Unicode letter and digit. A word of non-ASCII letters counts
  no words: `你好` counts 0, where the editor counts 1. `\s` is the set of
  characters `str.isspace` accepts.
- Text.Fold: Tk's `-nocase` is modelled as an ASCII case fold. Non-ASCII
  letters therefore match case-sensitively in find, where Tk would fold
  their case too.
- `os.path.basename` follows POSIX: the text after the last `/`.
- How Tk shifts tags when the user types is not modelled. An edit leaves the
  tag marks unchanged until the next highlight pass.
- `Find.SearchFrom` searches the buffer, not the widget text with Tk's final
  newline. A query can only differ between the two when it ends in a newline.
- Editor.Step: save and save-as use `save_file` as written in both forms of
  the handlers; `Editor.WriteIntended` is stated beside it, with the findings.
  Undo and redo from the Edit menu (malemon.py:152-153) change the buffer
  without arming a refresh; they are the `MenuEdit` event, which carries the
  text the undo stack gives. The undo stack itself is not modelled. Undo and
  redo from the keyboard end in a key release, so they are the `KeyRelease`
  event. Select-all is `Format.SelectAll`; a selection is an input of the
  format event.
- Editor.StepKeepsShown: holds for the corrected handlers only. As written,
  open leaves the display stale (see the findings).
- Format.InsertFormat: the result selection is the range the code tags. A
  selection tag Tk may keep on the final newline after a select-all, or on
  text before a joined line, is not modelled.
- `change_theme` (malemon.py:524-527) only reads the combo box and calls
  `change_theme_directly`, which is `Editor.ChangeTheme`. The theme label text
  is not modelled.
- The `search` tag's colours (malemon.py:595) are `Palette.Style(_, Search)`,
  the same in both palettes. `Editor.OnFind` configures them on every
  non-empty search; a theme change leaves them alone.
- Words are `\b\w+\b` matches, that is maximal runs of word characters, so
  `a-b` counts as two words (`Status.HyphenSeparatesWords`).

## Findings

| source | as written | input that shows it | evidently intended | confidence | as-written member | corrected member |
|---|---|---|---|---|---|---|
| malemon.py:455-457 | `open_file` sets `last_content` to the opened text before calling the refresh, so the refresh finds nothing new | open any file whose rendering differs from the current preview | the opened text is rendered and highlighted at once, as the comment at line 457 says | high; not executed | Editor.OpenLeavesPreviewStale, Editor.OpenLosesHighlighting (on Editor.OpenLoaded) | Editor.OpenLoadedIntended |
| malemon.py:481-483 | `save_file` sets `last_content` without rendering; a refresh still pending then finds nothing new | edit to text T, save within 300 ms, let the timer fire: the preview never shows T | saving does not hide edits from the preview | high; not executed | Editor.SaveDuringDebounceSkipsRefresh (on Editor.Write) | Editor.WriteIntended |
| malemon.py:485-488, 520 | `save_file` returns "break" even when the write raised, and `ask_save_changes` treats any value as success | a modified document with a file, answer Yes, the write fails: new/open/close go on and the changes are lost | proceed only when the save succeeded | high; not executed | Editor.AskSaveFailedWriteProceeds (on Editor.AskSaveChanges) | Editor.AskSaveIntended, Editor.AskSaveIntendedSafe |
| malemon.py:345-348, 221-236 | `select_all` tags "1.0" to "end", which takes in Tk's final newline, and `insert_format` reads that newline into the markup | select-all on `hello`, then bold: the buffer becomes `**hello\n**`, which the bold pattern does not match; removing the markup leaves `hello\n` | select-all selects the text only ("end-1c"), so formatting wraps exactly the buffer | medium; not executed | Format.SelectAllTakesNewline, Format.SelectAllBoldExample, RuleFacts.WrappedNewlineBreaksBold (on Format.SelectAll) | Format.SelectAllIntended, Format.SelectAllIntendedWraps |
| malemon.py:223-236 | a selection that runs to "end" from the start of a later line, as a triple-click on the last line makes, is deleted by Tk from the newline before it, and the markup takes in the final newline | `a\nb`, triple-click on `b`, then bold: the buffer becomes `a**b\n**`, the two lines are joined and the bold pattern no longer matches | the selection stops at "end-1c", so bold gives `a\n**b**` | medium; not executed | Format.LastLineBoldExample (on Format.InsertFormat) | Format.ClampToBuffer, Format.ClampedFormatIsExact, Format.LastLineBoldIntended |
| malemon.py:467-469, 520 | without a current file `save_file` returns None after a save-as, so `ask_save_changes` refuses | a modified untitled document, answer Yes, a successful save-as: new/open/close do not go on | proceed after a successful save-as | high; not executed | Editor.AskSaveUntitledRefuses (on Editor.AskSaveChanges) | Editor.AskSaveIntended, Editor.AskSaveIntendedSafe |
