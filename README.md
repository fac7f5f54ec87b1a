# CleanHTML in Dafny

A verified model of the core of the PHP library CleanHTML (timgws/CleanHTML).
The library takes messy HTML, typically pasted from a word processor, and
turns it into a small, clean subset. It does this in three parts:

- **Structural rewrite rules** (`Methods.php`). These work on the parsed
  DOM tree:
  - remove every `script`;
  - turn `h1` into `h2`;
  - promote a short `p>strong` to an `h2`;
  - collapse `h2>strong`;
  - unwrap `p>span`;
  - unwrap paragraphs inside list items.
- **The paragraph reconstructor "autop"** (`ReplaceParagraphElements.php`,
  plus an older copy in `cleanhtml.php`). This is WordPress's wpautop: a
  chain of regular-expression rewrites that turns blank-line separated text
  into `<p>` paragraphs and line breaks into `<br />`.
- **The CleanHTML object** (`CleanHTML.php`, plus its legacy twin
  `cleanhtml.php`). It holds:
  - the five-key options array and the allow-list string it derives for the
    HTML sanitizer;
  - the trailing-newline strip;
  - the typographic-quote normaliser;
  - the fixed order in which `obscureClean`, `clean` and `finalClean` run
    the rules.

## Files

- `strings.dfy` (module `Strings`): the byte-string helpers. These are
  `strpos`, `str_replace`, `trim`, `\s` runs and concatenation.
- `pcre.dfy` (module `Pcre`): the common shape of every `preg_replace`.
  A left-to-right scan tries a matcher at each position; a match is
  replaced, otherwise one byte is copied.
- `dom.dfy` (module `Dom`): the DOM tree and its queries.
  - The tree is a sequence of top-level nodes, each with an identity.
  - Text nodes, comments and elements are modelled.
  - `textContent` is modelled.
  - The XPath queries `//name`, `//parent/child`, `li/p` and `li//p` are
    modelled.
- `dom_edit.dfy` (modules `DomEdit`, `DomUnwrap`, `DomReplace`): what
  `removeChild`, the `insertBefore` loop of an unwrap, and `replaceChild`
  with a fresh `h2` do to the tree. Each is given as a reference function
  with lemmas about it.
- `methods.dfy` (module `Methods`): the six rules. Each is an imperative
  method over a `Document` class whose node list and identity counter the
  rule updates. Each method is proved against the reference functions.
- `cleanhtml_options.dfy` (module `Options`): the options, the `CleanHTML`
  class, the two allow-lists, `removeLastNewLine` and `changeQuotes`.
- `pipeline.dfy` (module `Pipeline`): `obscureClean`, `clean` and
  `finalClean`, and the legacy `obscureClean` and `Clean`. The parser,
  serialiser, sanitizer and word counter are functions in an `Env`.
- `autop_steps.dfy` (module `AutopSteps`): every regular expression of
  autop, written out as a matcher, and the step functions built from them.
- `autop.dfy` (module `Autop`): the current autop. It covers
  `cleanPeeParts`, `cleanBeforeAutoP`, the wrapping loop, and the whole
  function as a method.
- `autop_legacy.dfy` (module `LegacyAutop`): the older autop. It keeps a
  placeholder table, restores it, and does its fix-ups in its own order.
- `pre_restore.dfy` (module `PreRestore`): why the older autop's restore
  gives back the `<pre>` blocks it swapped for placeholders.
- `paragraph_closing.dfy` (module `ParagraphClosing`): why one pass of the
  pattern that adds a missing `</p>` before `</div>`, `</address>` or
  `</form>` leaves nothing for a second pass.

Where the current autop and the older one differ, the model follows each
copy's own code:

- The current copy builds its placeholder table inside `cleanPeeParts` and
  discards it. Its `$pre_tags` stays empty, so the `<pre>` placeholders are
  never put back. `Autop.AutopResult` therefore has no restore step, while
  `LegacyAutop.LegacyAutopResult` ends with `Restore`.
- The older block list also holds `select`, `option` and `noscript`.
- The older copy adds the missing `</p>` before `div`, `address` and `form`
  first. It does this before it unwraps block tags wrapped in `<p>`. The
  current copy does it last, inside `fixTagsWrappedInP`.
- The older copy's line-break step names its shielding callback by the
  string `CleanHTML::_autop_newline_preservation_helper`. The file declares
  the namespace `timgws\CleanHTML`, and a string callback is not resolved
  against it, so no such class is found. PHP 7 warns and returns the text
  unshielded. `LegacyAutop.UnshieldedLineBreaks` models that: newlines
  inside `<script>` and `<style>` get `<br />` too (see "## Findings").

## Model

| member | source | states |
|---|---|---|
| Dom.FindNode | src/CleanHTML/Methods.php:25 | the node with a given identity is found exactly when that identity occurs in the tree, and what is found has that identity and occurs there |
| Dom.ElementsNamedFound | src/CleanHTML/Methods.php:150 | every identity `//name` returns belongs to an element called `name` in the document |
| Dom.ElementsNamedIds | src/CleanHTML/Methods.php:21 | `//name` returns only identities of the document |
| Dom.ParentChildPairsFound | src/CleanHTML/Methods.php:42 | every pair `//parent/child` returns is a `child` element that sits directly below the `parent` element it names |
| Dom.TextOfAppend | src/CleanHTML/Methods.php:44 | the `textContent` of a list of siblings is the concatenation of the parts' `textContent` |
| Dom.FindUnique | src/CleanHTML/Methods.php:25 | in a tree without repeated identities, a node is found again by its identity |
| Dom.ListItemParagraphsFound | src/CleanHTML/Methods.php:117-126 | every identity `li/p` and `li//p` return, queried from the document element, names a `p` element of the document |
| Methods.RemoveScriptTags | src/CleanHTML/Methods.php:146-155 | the new tree is the old one with every queried `script` removed; the remaining nodes keep their order and nesting; no `script` is left, nested ones included |
| Methods.NoScriptLeft | src/CleanHTML/Methods.php:150-152 | removing every element `//script` found leaves no `script` anywhere |
| DomEdit.RemoveNamed | src/CleanHTML/Methods.php:151 | removing nodes creates no element: every element named `name` afterwards was one before and was not removed |
| DomEdit.RemoveCompose | src/CleanHTML/Methods.php:150-152 | removing one set of nodes and then another equals removing both at once, so the order of the loop does not matter |
| DomEdit.RemoveBag | src/CleanHTML/Methods.php:151 | removal introduces no identity |
| DomEdit.RemoveAbsent | src/CleanHTML/Methods.php:151 | removing nodes that are not in the tree changes nothing |
| Methods.RenameH1TagsToH2 | src/CleanHTML/Methods.php:17-30 | each replaced node was a queried `h1`; every queried `h1` is replaced, or is gone along with an ancestor; each replacement sits at the `h1`'s position and is an `h2` whose only child is a text node with the `h1`'s `textContent`; no `h1` is left; the document's text is unchanged |
| Methods.RenameH1 | src/CleanHTML/Methods.php:21-27 | the loop over the snapshot replaces, one by one, exactly the queried `h1` elements still in the tree |
| Methods.NoneLeftAfterReplace | src/CleanHTML/Methods.php:21-27 | once every queried element is replaced or gone, no element of that name is left |
| DomReplace.Heading | src/CleanHTML/Methods.php:24-26 | the new `h2` has the given text as its `textContent` and uses two fresh identities |
| DomReplace.ReplaceTopText | src/CleanHTML/Methods.php:25-26 | replacing elements by `h2` headings that hold their `textContent` leaves the document's text unchanged |
| DomReplace.ReplaceStep | src/CleanHTML/Methods.php:25 | one `replaceChild` of a found element, on top of earlier replacements, gives the tree with that element added to the replacement map |
| DomReplace.ReplacedGone | src/CleanHTML/Methods.php:25 | a replaced element can no longer be found in the tree |
| DomReplace.FindThroughReplace | src/CleanHTML/Methods.php:43 | a node found after replacements was in the original tree, and is that original node with its own replacements applied |
| DomReplace.ReplaceNamed | src/CleanHTML/Methods.php:24-25 | replacing elements by `h2` creates no element with any other name |
| DomReplace.ReplaceKeepsValid | src/CleanHTML/Methods.php:24-25 | after one replacement, identities stay unrepeated and below the advanced counter |
| DomReplace.ReplaceNodeBag | src/CleanHTML/Methods.php:25 | a replacement brings in no identity except those of the new heading |
| Methods.ChangeShortBoldToH2 | src/CleanHTML/Methods.php:39-55 | only parents that qualify are replaced; every qualifying parent is replaced or gone; the text is unchanged. A parent qualifies when three things hold: its `textContent` equals its strong's, the word count is at most 8, and the strong's first child is a text node |
| Methods.RemoveBoldH2Tags | src/CleanHTML/Methods.php:65-80 | the same rule for `h2>strong` with no word limit |
| Methods.ReplaceBoldParents | src/CleanHTML/Methods.php:42-52 | the loop over the snapshot of pairs replaces exactly the qualifying parents still in the tree, each by an `h2` holding the parent's text |
| Methods.VisitBoldPair | src/CleanHTML/Methods.php:43-51 | one iteration keeps the loop invariant for one more pair; when the pair's parent is still present and qualifies, the new tree is the old one with that parent replaced by an `h2` holding its text, the counter advances by two and the map gains exactly that parent; otherwise tree, counter and map are unchanged |
| Methods.BoldCorrespond | src/CleanHTML/Methods.php:44-46 | the test on the current tree gives the same answer as on the snapshot: the queried parent and its strong child are still the original nodes |
| Methods.QualifyingFound | src/CleanHTML/Methods.php:42-47 | every qualifying parent is a `parent` element of the document |
| Methods.QualifyingBelow | src/CleanHTML/Methods.php:42 | every qualifying parent has an identity older than any new node |
| Methods.StrongNotReplaced | src/CleanHTML/Methods.php:49 | the strong child of a queried pair is never itself replaced |
| Methods.GoneAfterReplace | src/CleanHTML/Methods.php:49 | elements that were replaced, or removed with an ancestor, cannot be found afterwards |
| Methods.RemoveObscureSpanStylings | src/CleanHTML/Methods.php:89-102 | every `span` queried as a `p` child is replaced by its children, in order, at its position; the text is unchanged |
| Methods.UnwrapElement | src/CleanHTML/Methods.php:93-98 | the node is replaced by its children, in order, at its position: the tree becomes the unwrap of that one node |
| Methods.UnwrapNode | src/CleanHTML/Methods.php:93-98 | the do-while over the siblings followed by `removeChild` computes the unwrap of one node |
| Methods.UnwrapAll | src/CleanHTML/Methods.php:92-99 | the loop over the snapshot unwraps exactly the queried nodes |
| Methods.SnapshotKeepsExposedSpan | src/CleanHTML/Methods.php:92 | the match list is fixed before the loop: in `p>span>span`, only the outer span is unwrapped, although the inner one is a `p>span` afterwards |
| DomUnwrap.MoveStep | src/CleanHTML/Methods.php:94-96 | moving the first remaining child in front of the node advances the split by one child |
| DomUnwrap.SplitZero | src/CleanHTML/Methods.php:93 | before any child is moved, the tree is unchanged |
| DomUnwrap.SplitFinish | src/CleanHTML/Methods.php:97-98 | once every child is moved out, removing the emptied node gives the unwrapped tree |
| DomUnwrap.UnwrapNonElement | src/CleanHTML/Methods.php:93 | a matched node that is not an element leaves the tree unchanged when unwrapped |
| DomUnwrap.UnwrapText | src/CleanHTML/Methods.php:93-98 | unwrapping leaves the document's text unchanged |
| DomUnwrap.UnwrapCompose | src/CleanHTML/Methods.php:92-99 | unwrapping one set of nodes and then another equals unwrapping both at once |
| DomUnwrap.UnwrapNamed | src/CleanHTML/Methods.php:93-98 | unwrapping creates no element |
| DomUnwrap.UnwrapBag | src/CleanHTML/Methods.php:93-98 | unwrapping introduces no identity |
| DomUnwrap.UnwrapAbsent | src/CleanHTML/Methods.php:98 | unwrapping nodes that are not in the tree changes nothing |
| Methods.UnwrapKeepsValid | src/CleanHTML/Methods.php:93-98 | unwrapping keeps identities unrepeated and below the counter |
| Methods.UnwrapKeepsAbsent | src/CleanHTML/Methods.php:93-98 | an element name absent before an unwrap is absent after it |
| Methods.ReplaceKeepsAbsent | src/CleanHTML/Methods.php:24-25 | an element name other than `h2` absent before the replacements is absent after them |
| Methods.PathsToClean | src/CleanHTML/Methods.php:117-122 | the paths are `li//p` and `li/p`, plus `//li/p` when it is not the first run |
| Methods.RemoveObscureParagraphsInsideLineItems | src/CleanHTML/Methods.php:115-137 | for each path in turn, every `p` queried from the document element is replaced by its children; the text is unchanged |
| Methods.UnwrapPathsText | src/CleanHTML/Methods.php:124-134 | the paragraph unwrapping over all paths leaves the text unchanged |
| Methods.UnwrapPathsKeepsAbsent | src/CleanHTML/Methods.php:124-134 | an element name absent before the paragraph unwrapping is absent after it |
| Options.DefaultOptions | src/CleanHTML/CleanHTML.php:21-27 | the defaults hold exactly the five keys, each false |
| Options.CleanHTML.constructor | src/CleanHTML/CleanHTML.php:53-60 | a fresh object holds exactly the five keys, each false |
| Options.New | src/CleanHTML/CleanHTML.php:53-60 | the object gets the defaults overlaid with the given settings, or an error naming the first unknown key |
| Options.NewShape | src/CleanHTML/CleanHTML.php:53-60 | with valid keys the options keep exactly the five keys, and keys not named stay false |
| Options.CleanHTML.SetOptions | src/CleanHTML/CleanHTML.php:68-80 | succeeds exactly when every key is one of the five, and then stores each value in order; otherwise it reports the first unknown key, with the keys before it already stored; the legacy `setOptions` (`cleanhtml.php` lines 28-40) is the same loop |
| Options.FirstUnknown | src/CleanHTML/CleanHTML.php:73-76 | the first key outside the five, if any; every key before it is known, and there is none exactly when all keys are known |
| Options.OverlayShape | src/CleanHTML/CleanHTML.php:78 | storing known keys never adds a key, and keys not named keep their value |
| Options.OverlayLast | src/CleanHTML/CleanHTML.php:78 | a key ends up with the value of its last occurrence in the settings |
| Options.OverlayAvoids | src/CleanHTML/CleanHTML.php:78 | a key the settings do not name keeps its value |
| Options.OverlayPrefix | src/CleanHTML/CleanHTML.php:73-79 | storing two lists of settings one after the other equals storing their concatenation |
| Options.CleanHTML.GetOptions | src/CleanHTML/CleanHTML.php:89-92 | the options array always holds exactly the five keys |
| Options.CleanHTML.GetAllowedTags | src/CleanHTML/CleanHTML.php:99-113 | the result is the allow-list of the stored options, and it is empty when `strip` is `=== true` |
| Options.AllowedTagsInOrder | src/CleanHTML/CleanHTML.php:101-110 | the allow-list is empty under `strip`; otherwise it is the default list, then images, italics, links and table in array order, each `=== true` one behind a doubled comma |
| Options.StripDominates | src/CleanHTML/CleanHTML.php:109-110 | `strip` set to true empties both allow-lists, whatever else is set |
| Options.LegacyAllowedTags | src/CleanHTML/cleanhtml.php:74-92 | without options the default list; with `strip` loosely true the empty string; otherwise a list that starts with the defaults |
| Options.AllowListsCompared | src/CleanHTML/cleanhtml.php:77-88 | for boolean options both lists enable the same fragments; the legacy one uses single commas and puts links before italics |
| Options.RemoveLastNewLine | src/CleanHTML/CleanHTML.php:188-195 | one trailing `\n` is dropped when present; otherwise the input is returned unchanged; the strip at the end of the legacy `Clean` (`cleanhtml.php` lines 118-121) is the same |
| Options.RemoveLastNewLineOnce | src/CleanHTML/CleanHTML.php:191-192 | only one newline is dropped: `s\n\n` becomes `s\n` |
| Options.QuoteAt | src/CleanHTML/CleanHTML.php:198-211 | a table entry found at a position starts with byte C2 or E2, is two or three bytes long, and maps to an ASCII quote |
| Options.QuoteAtTable | src/CleanHTML/CleanHTML.php:198-213 | the bytes matched at a position are a key of the twelve-entry strtr table and the replacement is that key's value; nothing is matched exactly when no key starts there |
| Options.ChangeQuotes | src/CleanHTML/CleanHTML.php:197-215 | the output contains none of the twelve sequences; it is empty only for empty input, and its first byte is the input's unless a sequence starts there; the legacy copy in `cleanhtml.php` (lines 126-144) has the same table |
| Options.CopiedByteStartsNoQuote | src/CleanHTML/CleanHTML.php:213 | a byte `strtr` copies cannot start a sequence together with the bytes translated after it |
| Options.ChangeQuotesIdentity | src/CleanHTML/CleanHTML.php:213 | text without any of the sequences is returned unchanged |
| Options.ChangeQuotesIdempotent | src/CleanHTML/CleanHTML.php:213 | applying the normaliser twice equals applying it once |
| Pipeline.Load | src/CleanHTML/CleanHTML.php:137-147 | the document holds the parser's tree and identity counter for the given content |
| Pipeline.ObscureClean | src/CleanHTML/CleanHTML.php:223-246 | the rules run in the fixed order: h1, short bold, h2 bold, spans, then list paragraphs with `first`; the two bold rules replace only the parents they target and leave none of those in the tree; the export of the result is returned; the text is unchanged; no `h1` is left; an absent `script` stays absent |
| Pipeline.RulesKeepAbsent | src/CleanHTML/CleanHTML.php:229-239 | a name other than `h2` absent before the rules stays absent through them |
| Pipeline.Clean | src/CleanHTML/CleanHTML.php:171-186 | scripts are removed and the first run's tree keeps the text of the script-free parse, with no `h1` and no `script`; the sanitizer gets the object's allow-list; the final tree has no `h1` and the output is its export less one trailing newline |
| Pipeline.FinalClean | src/CleanHTML/CleanHTML.php:284-294 | the final tree keeps the text of the parse of the blank head followed by the input and has no `h1`; the output is its export less one trailing newline |
| Pipeline.LegacyObscureClean | src/CleanHTML/cleanhtml.php:146-209 | the same first four rules in the same order and no list-paragraph rule, so `first` is ignored; the same guarantees about the bold stages, text, `h1` and `script` |
| Pipeline.LegacyClean | src/CleanHTML/cleanhtml.php:46-124 | the same sequence as `clean`, with two differences: the allow-list comes from the options passed to `Clean`, and the sanitizer runs only when its library is present |
| Strings.ReplaceAllAbsent | src/CleanHTML/ReplaceParagraphElements.php:69 | `str_replace` leaves a string without the search text unchanged |
| Strings.TrimEmpty | src/CleanHTML/ReplaceParagraphElements.php:167 | a string of trimmed characters only trims to the empty string |
| Pcre.ReplaceFromNoHit | src/CleanHTML/ReplaceParagraphElements.php:63 | `preg_replace` with a pattern that matches nowhere returns the subject |
| Pcre.ReplaceFromKeepsOut | src/CleanHTML/ReplaceParagraphElements.php:74 | a character in neither the subject nor any replacement does not appear in the result |
| Autop.Explode | src/CleanHTML/ReplaceParagraphElements.php:174 | `explode` always gives at least one piece |
| Autop.ImplodeExplode | src/CleanHTML/ReplaceParagraphElements.php:174-175 | joining the pieces with the separator gives back the subject |
| Autop.ExplodePiecesLackSeparator | src/CleanHTML/ReplaceParagraphElements.php:174 | no piece contains `</pre>` |
| Autop.CleanPeeParts | src/CleanHTML/ReplaceParagraphElements.php:15-37 | the loop builds, part by part, the text of the reference function: each part copied, or cut at `<pre` and followed by the next placeholder |
| Autop.PeePartsWithoutPre | src/CleanHTML/ReplaceParagraphElements.php:21-27 | parts without `<pre` are concatenated as they are, so the removed `</pre>` separators stay removed, and no placeholder is numbered |
| Autop.PeePartsNumbering | src/CleanHTML/ReplaceParagraphElements.php:29-33 | a part containing `<pre` keeps its text before the first `<pre`; the rest becomes the next placeholder `<pre wp-pre-tag-N></pre>`, numbered over such parts only |
| Autop.CountPre | src/CleanHTML/ReplaceParagraphElements.php:33 | the placeholder count never exceeds the number of parts |
| Autop.PeePartsPlaceholder | src/CleanHTML/ReplaceParagraphElements.php:20-33 | each part holding `<pre` leaves in the built text the placeholder numbered by the `<pre` parts before it |
| Autop.CleanBeforeAutoPPlaceholder | src/CleanHTML/ReplaceParagraphElements.php:165-181 | every part of the padded input that holds `<pre` and is closed by a later `</pre>` has its numbered placeholder in the text `cleanBeforeAutoP` returns |
| Autop.WrapParagraphs | src/CleanHTML/ReplaceParagraphElements.php:121-124 | each piece, in order, becomes `<p>`, the piece trimmed of `\n`, then `</p>` and a newline |
| Autop.Autop | src/CleanHTML/ReplaceParagraphElements.php:111-156 | autop computes the composition of its steps; the placeholders are never restored |
| Autop.AutopWhitespaceOnly | src/CleanHTML/ReplaceParagraphElements.php:167-169 | white-space-only input gives the empty string |
| Autop.StepsKeepEmpty | src/CleanHTML/ReplaceParagraphElements.php:116-149 | every step after the first maps the empty text to the empty text |
| AutopSteps.SpaceOutBlocksNormalForm | src/CleanHTML/ReplaceParagraphElements.php:61-77 | after `spaceOutBlocks` there is no `\r` and no run of three newlines |
| AutopSteps.NormalizeNewlinesNoCR | src/CleanHTML/ReplaceParagraphElements.php:69 | the newline standardisation leaves no `\r` |
| AutopSteps.CleanUpObjectTagNoCR | src/CleanHTML/ReplaceParagraphElements.php:86-92 | the object clean-up brings no `\r` back |
| AutopSteps.CollapseFromShape | src/CleanHTML/ReplaceParagraphElements.php:74 | collapsing `\n\n+` leaves no three newlines in a row |
| AutopSteps.NewlineRun | src/CleanHTML/ReplaceParagraphElements.php:74 | the newline run is maximal: all newlines, and followed by the end or a non-newline |
| AutopSteps.BlockTagEnd | src/CleanHTML/ReplaceParagraphElements.php:130 | a block tag match runs from `<` to the first `>` |
| AutopSteps.OpenBlockAt | src/CleanHTML/ReplaceParagraphElements.php:194 | an opening tag matches when its name merely begins with a listed name, and gets a newline in front |
| AutopSteps.CloseBlockAt | src/CleanHTML/ReplaceParagraphElements.php:197 | a closing tag matches only when its whole name is listed, and gets a blank line after it |
| AutopSteps.ParamOpensBlock | src/CleanHTML/ReplaceParagraphElements.php:194 | `<param>` counts as an opening `p` block tag |
| AutopSteps.ParamDoesNotCloseBlock | src/CleanHTML/ReplaceParagraphElements.php:197 | `</param>` is not a closing block tag |
| AutopSteps.ParagraphClosesBlock | src/CleanHTML/ReplaceParagraphElements.php:197 | `</p>` is a closing block tag and gets a blank line after it |
| AutopSteps.LegacyBlockNames | src/CleanHTML/cleanhtml.php:285 | the older block list is the current one plus `select`, `option` and `noscript` |
| AutopSteps.LegacyClosesSelect | src/CleanHTML/cleanhtml.php:287 | `</select>` closes a block in the older copy |
| AutopSteps.CurrentKeepsSelectOpen | src/CleanHTML/ReplaceParagraphElements.php:197 | `</select>` closes no block in the current copy |
| AutopSteps.BlankLineEnd | src/CleanHTML/ReplaceParagraphElements.php:120 | a separator match runs from a newline to a later newline over white space only |
| AutopSteps.BlankLineEndExact | src/CleanHTML/ReplaceParagraphElements.php:120 | a newline followed by white space that holds another newline starts a separator |
| AutopSteps.SplitParagraphsPieces | src/CleanHTML/ReplaceParagraphElements.php:120 | `preg_split` with no empty pieces: every piece is non-empty and holds no `\n\s*\n` |
| AutopSteps.SplitFromNoBlankLine | src/CleanHTML/ReplaceParagraphElements.php:120 | the pieces cut after a stretch without a separator hold no separator |
| AutopSteps.AddLineBreaksAfterBreaks | src/CleanHTML/ReplaceParagraphElements.php:235 | when every newline already follows `<br />`, no break is added |
| AutopSteps.AddLineBreaksNoNewline | src/CleanHTML/ReplaceParagraphElements.php:235 | text without a newline gets no break |
| AutopSteps.AddLineBreaksBreaksEveryNewline | src/CleanHTML/ReplaceParagraphElements.php:235 | after the break pattern every newline of the text follows `<br />` |
| AutopSteps.AddLineBreaksIdempotent | src/CleanHTML/ReplaceParagraphElements.php:235 | a second pass of the break pattern changes nothing |
| AutopSteps.ShieldRemovesNewlines | src/CleanHTML/ReplaceParagraphElements.php:230-232 | a shielded element holds no newline |
| AutopSteps.UnshieldShielded | src/CleanHTML/ReplaceParagraphElements.php:231-238 | putting newlines back for the markers undoes the shielding of a text that held no marker |
| AutopSteps.ScriptElementKept | src/CleanHTML/ReplaceParagraphElements.php:227-241 | a text that is one whole script or style element, without a marker, comes out of `insertLineBreaks` unchanged: its newlines get no `<br />` |
| AutopSteps.InsertLineBreaksOutsideScripts | src/CleanHTML/ReplaceParagraphElements.php:227-241 | a text with no script or style element and no `W` gets exactly the plain break pattern, so every newline then follows `<br />` |
| AutopSteps.MoveBlockquotesSinglePass | src/CleanHTML/ReplaceParagraphElements.php:213-214 | the blockquote fix-up is a single left-to-right pass: `</blockquote></p></p>` becomes `</p></blockquote></p>`, which again holds `</blockquote></p>` |
| ParagraphClosing.CloseParagraphsComplete | src/CleanHTML/ReplaceParagraphElements.php:217 | after the pass that adds the missing `</p>`, no `<p>`, run of bytes other than `<`, and `</div>`, `</address>` or `</form>` is left for the pattern to match |
| ParagraphClosing.CloseParagraphsIdempotent | src/CleanHTML/ReplaceParagraphElements.php:217 | a second such pass changes nothing |
| ParagraphClosing.FixTagsWrappedInPClosed | src/CleanHTML/ReplaceParagraphElements.php:207-220 | the text `fixTagsWrappedInP` returns has no paragraph left that the closing pattern would match |
| LegacyAutop.ExtractPre | src/CleanHTML/cleanhtml.php:258-281 | the loop builds the same text as `cleanPeeParts` and also the table of placeholders |
| LegacyAutop.PreTags | src/CleanHTML/cleanhtml.php:264-278 | one table entry per part containing `<pre` |
| LegacyAutop.PreTagsRecord | src/CleanHTML/cleanhtml.php:273-277 | each such part records the next placeholder against its text from `<pre` on, followed by `</pre>` |
| LegacyAutop.PreTagsWithoutPre | src/CleanHTML/cleanhtml.php:268-270 | parts without `<pre` record nothing |
| LegacyAutop.UnshieldedBreaksChange | src/CleanHTML/cleanhtml.php:308-310 | with the callback unresolved, a text without a marker that has a newline not after `<br />` is changed, and afterwards every newline follows `<br />` |
| LegacyAutop.ScriptNewlineBroken | src/CleanHTML/cleanhtml.php:308 | on a whole script or style element with a newline not after `<br />`, the intended step returns the text unchanged while the as-written step changes it |
| PreRestore.PreNamesDistinct | src/CleanHTML/cleanhtml.php:273 | no placeholder occurs inside a placeholder with another number |
| PreRestore.RestoreUndoesExtraction | src/CleanHTML/cleanhtml.php:258-317 | when every `</pre>` closes a part that holds `<pre` and no part holds placeholder text already, restoring the recorded table over the extracted text gives back the padded input: each block returns verbatim in its place |
| LegacyAutop.LegacyAutop | src/CleanHTML/cleanhtml.php:250-320 | the older autop computes its step composition, with the unshielded line-break step when `br` is set; the placeholder table is restored at the end |
| LegacyAutop.LegacyAutopWhitespaceOnly | src/CleanHTML/cleanhtml.php:253-254 | white-space-only input gives the empty string |

## Left out

- HTML parsing and serialisation are parameters of `Pipeline.Env`. These
  are `DOMDocument::loadHTML` with its error recovery and implied
  `html`/`body`, and the `saveXML` export with its clean-up regexes. The
  model only assumes that the parser gives every node its own identity.
- The regular-expression pre-clean of `preCleanHTML` (and of the legacy
  `Clean`) is a parameter as well.
- The sanitizer HTMLPurifier and its configuration are a parameter. It
  receives the allow-list string and the text.
- The `file_exists` test of the legacy `Clean` is the parameter
  `purifierPresent`; `require_once` is not modelled.
- `$this->html`, set by the legacy `CleanHTML($contents)`, is the `html`
  parameter of `LegacyClean`.
- `str_word_count` is the parameter `wordCount`. Its locale rules are not
  modelled.
- The `$doc->encoding` assignments change nothing the model observes.
- `cleanDOMNode` recurses without changing anything.
- The `firstRun = false` path of `createDOMDocumentFromHTML` is never
  taken by the library.
- The `textContent` comparisons are PHP `==` on strings. They are
  modelled as exact equality; PHP's numeric-string comparison ("1" == "01")
  is not modelled.
- Option keys are strings. PHP 7's loose `in_array`, which would accept the
  integer key 0 as a known option, is not modelled.
- The unwrap loops read `firstChild` and then `nextSibling` from it. On a
  matched node without children, PHP 7 warns, moves nothing and removes
  the node; that behaviour is modelled. PHP 8 would stop with an error,
  which is not modelled.
- A rule that acts on a node no longer in the document acts on a detached
  subtree in PHP. This can only happen below an element that an earlier
  iteration replaced or unwrapped. The model leaves the document unchanged
  in that case.
- One fatal error is not modelled: a `p` with two strong children whose
  text is empty. There the second iteration reads `parentNode->parentNode`
  of a detached parent, which is null.
- `Methods.RenameH1TagsToH2`, `Methods.ChangeShortBoldToH2`,
  `Methods.RemoveBoldH2Tags`: the replacement map is a ghost result. The
  contract states which elements are replaced, not the identities given to
  the new nodes beyond their freshness.
- Pipeline.Clean, Pipeline.FinalClean, Pipeline.LegacyClean: the output is the
  export of the tree each returns. That tree is described by what the rules
  guarantee (text kept, no `h1`, no `script`), not by the stage equations of
  `Pipeline.ObscureClean`. This keeps these contracts short: each run's
  stages, with its replacement maps, are stated in full on
  `Pipeline.ObscureClean` and `Pipeline.LegacyObscureClean`.
- AutopSteps.ScriptElementKept: the shield round trip is stated for a text
  that is one whole script or style element. For such an element inside a
  longer text it is not stated: that needs the shielding scan and the break
  scan over arbitrary surrounding text, which the model does not relate.
- The block list uses `h[1-6]`. It is written out as `h1` … `h6`.
- The legacy `_autop_newline_preservation_helper` (`cleanhtml.php` lines
  230-232) is never reached, because its callback string cannot be resolved
  (see "## Findings"). Under PHP 8 that call throws a `TypeError` instead of
  warning; the model follows PHP 7, which returns the text unshielded.
- Pipeline.LegacyClean: `cleanhtml.php` declares the namespace
  `timgws\CleanHTML` and imports nothing, so `new DOMDocument` (lines 58
  and 110) and `new DOMXPath` (line 61) name classes of that namespace,
  which do not exist, and PHP stops with "class not found". The model
  treats `DOMDocument`, `DOMXPath` and the sanitizer's classes as if they
  were imported, and describes what the code does once they resolve.
- Pipeline.LegacyObscureClean: for the same reason its `DOMDocument $doc`
  parameter type (`cleanhtml.php` line 146) names a class that does not
  exist, so no parsed document is accepted as written. The model treats the
  type as the global `DOMDocument`.
- LegacyAutop.LegacyAutop: the restore is proved to give back each
  recorded block (`PreRestore.RestoreUndoesExtraction`) directly after the
  extraction. That the steps in between keep every placeholder intact, so
  the same holds for the whole function, is not proved. Inputs with a
  `</pre>` that closes no `<pre`, or with placeholder text already in them,
  are not covered either.
- Autop.Autop: the placeholders are shown to be in the text
  `cleanBeforeAutoP` returns (`Autop.CleanBeforeAutoPPlaceholder`), and
  `AutopResult` has no restore step. That the later steps keep them intact
  up to the output is not proved.
- The exception an unknown option key raises (`CleanHTML.php` line 76) is
  the error value `UnknownOption(key)`. Its message text is not modelled.
- The tests' end-to-end expectations for `clean()` are not modelled. They
  depend on the parser and the sanitizer.
- Numbers are unbounded. The placeholder counter and the node identities
  never wrap around.

## Findings

| source | as written | input that shows it | evidently intended | confidence | as-written member | corrected member |
|---|---|---|---|---|---|---|
| src/CleanHTML/cleanhtml.php:308 | the shielding callback is the string `CleanHTML::_autop_newline_preservation_helper`, which does not resolve inside the namespace `timgws\CleanHTML`; the text reaches the break pattern unshielded | `<style>\n</style>` reaching the line-break step with `$br` set: the newline becomes `<br />\n` | newlines inside `<script>` and `<style>` stay as they are, as in the current copy (`ReplaceParagraphElements.php` lines 230-238) | not executed | LegacyAutop.ScriptNewlineBroken | AutopSteps.ScriptElementKept |
