# HTML5 demo site: decision rules of the page script

This project models the logic inside `demo-site/script.js`, the script of a
static demo page. The page lists sample HTML files in a sidebar. Clicking one
loads it into a Monaco code editor and renders it in a preview frame. The DOM,
the editor widget and the network are abstracted away. What is left is
modelled and proved:

- **Auto-closing tags** (`AutoCloseTag`, `auto_close.dfy`). The editor's
  `onDidType` handler is meant to insert `</name>` when `>` is typed after
  `<name`. As written it never does (see "## Findings"). `AutoClose` decides
  the intended rule. The
  handler's regular expression `<(\w+)(?:\s[^>]*)?$` is stated as the
  predicate `OpenerAt`. `String.prototype.match` picks the leftmost match,
  which is `LeftmostOpener`. The scanner `TagMatch` is proved to agree with
  both. `AutoClose` is the handler's decision, including the void-element
  list and the lower-casing of the name.
- **Split-pane resizer** (`Resizer`, `resizer.dfy`). `MoveOutcome` is the
  test that accepts or drops a move. `ResizeHandle` is the
  `isResizing` drag state with its mouse-down, mouse-move and mouse-up
  handlers.
- **Sidebar** (`Sidebar`, `sidebar.dfy`). This is the fixed catalogue of
  sample names. `FileList.MarkActive` is the loop that puts the `active`
  class on exactly the items whose label is the chosen name.
- **Controller** (`Controller`, `controller.dfy`). The language is detected
  from the file's extension. The page state is `currentFile`,
  `originalContent` (the baseline), the editor text, the texts handed to the
  preview frame, and the toasts shown. The pure transitions are `Load`,
  `Preview`, `Apply` and `Reset`. The class `App` holds the same
  state as mutable fields, and each of its methods is proved to perform the
  matching transition.

The fetch is an input. `FetchOutcome` is either the body, or a failure (a
non-ok status or a rejected promise). A rendered preview is recorded as the
text the frame was given. Three facts about the code shape the model:

- Mouse-up schedules no layout. Each accepted move schedules
  `editor.layout()` once the editor exists. That is what `ResizeHandle` does.
- The change handler builds a fresh debounce closure on every change, so no
  two changes are coalesced into one render. The debounced render is not
  modelled (see below).
- The three guards `!editor || !currentFile` (demo-site/script.js:600, 670,
  679) use JavaScript truthiness. An empty file name therefore counts as
  "nothing selected" (`HasSelection`).

## Model

| member | source | states |
|---|---|---|
| AutoCloseTag.IsWordChar | demo-site/script.js:465 | `\w` without the `u` flag: an ASCII letter, digit or `_` |
| AutoCloseTag.IsSpace | demo-site/script.js:465 | `\s`: the ECMAScript white-space and line-terminator code points |
| AutoCloseTag.OpenerAt | demo-site/script.js:465 | the pattern `<(\w+)(?:\s[^>]*)?$` matches from index `i` with the name ending at `k` |
| AutoCloseTag.LeftmostOpener | demo-site/script.js:465 | the match `match` reports: a match from `i` with none starting earlier |
| AutoCloseTag.VoidElements | demo-site/script.js:469 | the thirteen names the handler never closes |
| AutoCloseTag.WordEnd | demo-site/script.js:465 | the greedy `\w+` run: every character before the result is a word character and the one at the result is not |
| AutoCloseTag.OpenerEnd | demo-site/script.js:465 | any match of the pattern from a given `<` ends its name exactly where the word run ends, so the capture is unique |
| AutoCloseTag.TryAt | demo-site/script.js:465 | trying the pattern at one index succeeds, with the name's end, exactly when `OpenerAt` holds there |
| AutoCloseTag.FindOpener | demo-site/script.js:465 | the first start index from `i` at which the pattern matches, and none before it; None when no later index matches |
| AutoCloseTag.TagMatch | demo-site/script.js:465-467 | `match(...)[1]` is present iff the pattern matches somewhere, and is then the name of the leftmost match |
| AutoCloseTag.LeftmostDeterminesName | demo-site/script.js:465-467 | any exhibited leftmost match fixes `tagMatch[1]` to its name |
| AutoCloseTag.MatchedNameShape | demo-site/script.js:465-467 | the captured name is non-empty, made of word characters, and follows a `<` in the prefix |
| AutoCloseTag.LowerName | demo-site/script.js:467 | the lower-cased name keeps its length, has no upper-case letter, turns each upper-case letter into its lower-case partner and keeps every other character |
| AutoCloseTag.LowerNameIgnoresCase | demo-site/script.js:467 | two names lower-case to the same name iff they differ only in ASCII letter case |
| AutoCloseTag.AutoClose | demo-site/script.js:457-488 | an edit happens iff the typed text is `>`, the prefix matches and the lower-cased name is not void; it inserts `</name>` at the cursor and leaves the cursor there |
| AutoCloseTag.ClosesOpenTag | demo-site/script.js:458-484 | `>` after a leftmost opener with a non-void name yields exactly the insertion of `"</" + lower(name) + ">"` at the cursor, cursor unchanged |
| AutoCloseTag.NoEditUnlessGt | demo-site/script.js:458 | any typed text other than `>` makes no edit |
| AutoCloseTag.NoEditForVoidElement | demo-site/script.js:467-471 | an opener whose lower-cased name is one of the thirteen void elements makes no edit |
| AutoCloseTag.VoidElementInAnyCase | demo-site/script.js:467-471 | an opener whose name is a void element written in any letter case makes no edit |
| AutoCloseTag.UpperCaseVoidNotClosed | demo-site/script.js:467-471 | the void test is made after lower-casing: `<BR` is not closed |
| AutoCloseTag.LeftmostOpenerIsClosed | demo-site/script.js:465-484 | the leftmost opener is the one closed: `<div <span` gets `</div>` |
| AutoCloseTag.NoMatchAfterGt | demo-site/script.js:465 | a prefix ending in `>` never matches the pattern |
| AutoCloseTag.NoEditAfterGt | demo-site/script.js:465-466 | a prefix ending in `>` makes no edit |
| AutoCloseTag.NoEditWithoutOpener | demo-site/script.js:465-466 | a prefix with no `<` directly followed by a word character makes no edit |
| AutoCloseTag.Substring0 | demo-site/script.js:462 | `substring(0, end)` is the prefix of the length `end` clamped to `[0, length]` |
| AutoCloseTag.OnDidTypeAsWritten | demo-site/script.js:457-488 | the handler as written, testing the line up to the cursor; any edit it makes is at the cursor and only for `>` |
| AutoCloseTag.AsWrittenNeverCloses | demo-site/script.js:457-466 | when the typed `>` is just left of the cursor, the handler as written makes no edit |
| AutoCloseTag.AsWrittenMissesDiv | demo-site/script.js:457-466 | typing `>` after `<div` (line `<div>`, column 6) inserts nothing as written |
| AutoCloseTag.OnDidType | demo-site/script.js:457-488 | the handler testing the line before the typed text; any edit it makes is at the cursor and only for `>` |
| AutoCloseTag.OnDidTypeDecidesOnPrefix | demo-site/script.js:457-488 | with the cursor just right of the typed `>`, the corrected handler decides exactly as AutoClose does on the text before that `>`, in every case |
| AutoCloseTag.OnDidTypeCloses | demo-site/script.js:457-488 | with the corrected prefix, a `>` typed after text whose captured tag name is not void inserts `"</" + lower(name) + ">"` at the cursor and keeps the cursor there |
| AutoCloseTag.OnDidTypeClosesDiv | demo-site/script.js:457-488 | with the corrected prefix, typing `>` after `<div` inserts `</div>` at column 6 and keeps the cursor there |
| Resizer.MinHeight | demo-site/script.js:40 | neither section may be dragged below 200 pixels |
| Resizer.MoveOutcome | demo-site/script.js:38-48 | a move is accepted iff `200 <= startDemoHeight + deltaY <= totalHeight - 200`; the demo share times the total is 100 times the new height, and the two shares sum to 100 |
| Resizer.AcceptedMoveKeepsMinimum | demo-site/script.js:38-48 | after an accepted move both sections are at least 200 pixels tall and both shares lie strictly between 0 and 100 |
| Resizer.RejectedMoveNotClamped | demo-site/script.js:38-43 | a move outside the bounds is dropped whole, never clamped to the boundary |
| Resizer.ResizeHandle.constructor | demo-site/script.js:23 | the handle starts idle, with no split written and no layout scheduled |
| Resizer.ResizeHandle.MouseDown | demo-site/script.js:25-33 | a press starts dragging and captures the pointer, the preview height and the total height less the handle |
| Resizer.ResizeHandle.MouseMove | demo-site/script.js:35-55 | a move while idle changes nothing; while dragging it writes the accepted split and schedules one layout if the editor exists, or changes nothing |
| Resizer.ResizeHandle.MouseUp | demo-site/script.js:57-64 | a release returns to idle and changes nothing else |
| Sidebar.HtmlFiles | demo-site/script.js:503-521 | the seventeen sample names, in sidebar order |
| Sidebar.ActiveMarks | demo-site/script.js:556-561 | after marking, an item is active iff its label equals the chosen name |
| Sidebar.ExactlyOneActive | demo-site/script.js:556-561 | with distinct labels, marking makes one item active if the name is listed, none otherwise |
| Sidebar.CatalogDistinct | demo-site/script.js:503-521 | the seventeen sample names are pairwise distinct |
| Sidebar.CatalogChoiceMarksOne | demo-site/script.js:556-561 | choosing a catalogue sample leaves exactly one sidebar item active |
| Sidebar.FileList.constructor | demo-site/script.js:532-542 | one item per name, in catalogue order, none active |
| Sidebar.FileList.MarkActive | demo-site/script.js:556-561 | the loop leaves each item's `active` flag equal to whether its label is the chosen name |
| Controller.EndsWith | demo-site/script.js:573-577 | `s.endsWith(suffix)`: the last `\|suffix\|` characters of `s` are `suffix` |
| Controller.SuffixesExclude | demo-site/script.js:572-579 | no name ends in two of `.css`, `.js` and `.json` |
| Controller.DetectLanguage | demo-site/script.js:572-579 | the language is css iff the name ends in `.css`, javascript iff `.js`, json iff `.json`, and html iff none of these |
| Controller.CatalogIsHtml | demo-site/script.js:503-579 | every catalogue sample is edited as html |
| Controller.HasSelection | demo-site/script.js:600 | the guard `!editor \|\| !currentFile`, repeated at lines 670 and 679, is false: an editor exists and a non-empty name is selected |
| Controller.Placeholder | demo-site/script.js:101 | the two-line comment the editor holds before any file is loaded |
| Controller.EditorCreated | demo-site/script.js:100-102 | the editor appears holding the placeholder text in html mode; the selection and baseline are kept |
| Controller.UserEdit | demo-site/script.js:490-495 | a user edit changes only the editor text, and only once an editor exists |
| Controller.Preview | demo-site/script.js:599-613 | with a selection the current text is rendered once more; without one nothing changes |
| Controller.AppliedMessage | demo-site/script.js:673 | the success message shown after applying changes |
| Controller.ResetMessage | demo-site/script.js:683 | the info message shown after a reset |
| Controller.Apply | demo-site/script.js:669-675 | with a selection the baseline becomes the current text and a success toast is shown; without one nothing changes |
| Controller.Reset | demo-site/script.js:678-684 | with a selection the text returns to the baseline, which is rendered, and an info toast is shown; without one nothing changes |
| Controller.Load | demo-site/script.js:546-596 | a failed fetch keeps the session and renders and adds the error toast; a successful one sets selection, baseline, text and language from the response and renders it once when the name is non-empty |
| Controller.NoSelectionNoOps | demo-site/script.js:669-684 | with nothing selected, apply, reset and the preview leave the page unchanged |
| Controller.ApplyThenResetKeepsText | demo-site/script.js:669-684 | reset right after apply leaves the session as apply left it, with the text as before apply |
| Controller.ApplyBaselineIsCurrentText | demo-site/script.js:669-675 | apply sets the baseline to the text of the moment and leaves the text alone |
| Controller.ResetIdempotent | demo-site/script.js:678-684 | resetting twice leaves the same session as resetting once |
| Controller.EditThenResetRestoresBaseline | demo-site/script.js:678-684 | whatever was typed, reset brings back the baseline |
| Controller.FailedLoadKeepsSession | demo-site/script.js:563-595 | a failed fetch leaves selection, baseline and text untouched and renders nothing |
| Controller.LoadSelectsSample | demo-site/script.js:546-596 | loading a catalogue sample selects it, sets text and baseline to its body in html mode and renders it once |
| Controller.ButtonScenario | demo-site/script.js:546-596 | loading `button.html` with body `<button>Click</button>` shows that text, records it as baseline and renders it once |
| Controller.App.constructor | demo-site/script.js:1-5 | no editor, nothing selected, empty baseline, catalogue listed with no item active |
| Controller.App.CreateEditor | demo-site/script.js:100-102 | the page state becomes `EditorCreated` of the old state |
| Controller.App.EditText | demo-site/script.js:490-495 | the page state becomes `UserEdit` of the old state |
| Controller.App.UpdatePreview | demo-site/script.js:599-613 | the page state becomes `Preview` of the old state |
| Controller.App.ApplyChanges | demo-site/script.js:669-675 | the page state becomes `Apply` of the old state |
| Controller.App.ResetChanges | demo-site/script.js:678-684 | the page state becomes `Reset` of the old state |
| Controller.App.LoadFile | demo-site/script.js:546-596 | the sidebar is marked for the name whatever the fetch outcome, and the page state becomes `Load` of the old state |

## Findings

| source | as written | input that shows it | evidently intended | confidence | as-written member | corrected member |
|---|---|---|---|---|---|---|
| demo-site/script.js:457-466 | the handler runs on `onDidType`, after the typed `>` is in the line; it tests `lineContent.substring(0, position.column - 1)`, which ends in that `>`; the pattern excludes `>` from the name and the tail, so it never matches and no closing tag is ever inserted | typing `>` after `<div`: the line is `<div>`, the cursor is at column 6, and the tested prefix is `<div>` | test the pattern on the line before the typed `>`; then `</div>` goes in at column 6 with the cursor kept between the tags | medium; not executed; rests on Monaco raising `onDidType` after the character is inserted | AutoCloseTag.AsWrittenNeverCloses | AutoCloseTag.OnDidTypeDecidesOnPrefix, AutoCloseTag.OnDidTypeCloses |

## Left out

- Monaco configuration, language options and snippet tables (demo-site/script.js:82-441): option literals passed to a foreign library, with no logic.
- The editor widget itself: `pushEditOperations` and `setPosition` are represented by the `Edit` value, not by a model of how Monaco applies it. The `autoClosingTags` and `autoClosingPairs` keys passed at demo-site/script.js:121-138 are not modelled.
- Network and rendering: `fetch` is an input outcome. `Blob`, `URL.createObjectURL` and the iframe are represented by the list of rendered texts. The delayed `revokeObjectURL` (demo-site/script.js:606-613) is not modelled.
- Timers and debounce (demo-site/script.js:490-495, 687-697): the change handler's debounced `updatePreview` is asynchronous scheduling. `UserEdit`, `Load` and `Reset` do not include it. `Reset` calls `editor.setValue` (demo-site/script.js:681), which fires the change handler while a file is selected, so in the page a second, delayed render follows the immediate one. The `setTimeout` around `editor.layout()` is recorded only as a count of scheduled layouts.
- Asynchrony of `loadFile`: a load is one atomic step given the fetch outcome. The race in which a slow earlier fetch overwrites a later selection is not modelled.
- Fullscreen, toast styling, animation and dismissal, smooth scrolling, and the welcome overlay, including its hiding in `loadFile` (demo-site/script.js:8-14, 552-553, 651-666, 715-781, 784-810): DOM side effects. A toast is recorded only as its kind and message.
- Key handlers in the editor and on the document (demo-site/script.js:444-454, 813-831): event wiring. They also disagree: Ctrl+R means reset in the editor but refresh on the document.
- `loadFileList`'s error path (demo-site/script.js:501-528): only the DOM calls of `renderFileList` (demo-site/script.js:533-534) can throw there, and the DOM is not modelled.
- Cursor, text selection and `resizing` class changes during a drag (demo-site/script.js:27-29, 59-61): DOM styling.
- Resizer.ResizeHandle.MouseMove: each press registers its own move and up listeners. After a second press with no release in between, two move handlers run. The model keeps only the latest press's captured values.
- Resizer.MoveOutcome: the percentages are exact reals and pointer positions whole pixels. IEEE double rounding and fractional `clientY` values are not captured, so in the page the two shares may miss 100 by a rounding error.
- AutoCloseTag.TagMatch: a Dafny `char` is a Unicode scalar value, while a JavaScript string is UTF-16 code units. No surrogate code unit alone can be a Dafny `char`, so a line holding an unpaired surrogate cannot be stated.
- AutoCloseTag.OnDidTypeAsWritten, AutoCloseTag.OnDidType and AutoCloseTag.Substring0: columns are counted in Unicode scalar values, while Monaco's `position.column` counts UTF-16 code units. A character outside the Basic Multilingual Plane is one `char` here but two code units in the page, so the prefix is cut elsewhere. The model agrees with the page only on lines without such characters, or once columns are converted to scalar-value counts.
