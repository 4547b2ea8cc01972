# WorkMap recorder, modelled in Dafny

WorkMap is a browser extension that records what a user does in a web page:
clicks, text entered into fields, choices in select boxes, form submissions
and in-page navigation. It turns the recording into a Markdown document, a
plain HTML document for word processors, or a print-ready HTML document
meant to be saved as PDF. It has two halves, and this project models both.

- **The content script** (`content.js`) runs in each page. It turns DOM
  events into steps. Each step gets a CSS selector for its target
  (`buildSelector`) and a human-readable label (`labelFor`). The values of
  sensitive fields are masked.
- **The background worker** (`background.js`) keeps the session: whether
  recording is on, the list of steps, the settings and the toolbar badge.
  It attaches screenshots to clicks and submissions and renders the three
  exports.

Modules, in dependency order:

| file | module | what it holds |
|---|---|---|
| `wrappers.dfy` | `Wrappers` | `Option` |
| `text.dfy` | `Text` | JavaScript string primitives: `\s`, `trim()`, `replace(/\s+/g, " ")`, ASCII `toLowerCase()`, substring search, `join`, `String(n)`, `slice(-k)` |
| `dom.dfy` | `Dom` | the part of the DOM the script reads: elements, attributes, parents, earlier siblings, texts, form controls, `closest` |
| `steps.dfy` | `Steps` | the recorded step and its action |
| `locator.dfy` | `Locator` | `looksRandom`, `nthOfType`, `buildSelector` |
| `labels.dfy` | `Labels` | `labelFor` |
| `capture.dfy` | `Capture` | `nowStep`, the `click`/`change`/`submit` handlers, in-page navigation, and the script's `cfg` as class `ContentScript` |
| `escaping.dfy` | `Escaping` | `escapeMd`, `escHtml` |
| `markdown.dfy` | `Markdown` | `stepsToMarkdown` |
| `html_export.dfy` | `HtmlExport` | `stepsToDocHtml`, `stepsToPdfHtml` |
| `session.dfy` | `Session` | the badge, screenshot attachment, and the worker's state and message handlers as class `RecordingSession` |

Some code is imperative in the source and stays imperative here:
- the loops of `buildSelector`, `nthOfType` and `stepsToMarkdown`;
- the mutable settings and session state.

Each such method is proved against a specification function. The
properties are proved about those functions:
- `BuildSelector` ⇔ `SelectorOf`;
- `NthOfType` ⇔ `OfTypeIndex`;
- `StepsToMarkdown` ⇔ `MarkdownLines`;
- `OnClick` ⇔ `ClickStep`;
- `OnChange` ⇔ `ChangeStep`.

`RecordingSession` keeps one invariant: its badge always shows the badge
text of its current state.

The HTML documents are modelled as sequences of parts:
- fixed markup;
- recorded text, which is always passed through `escHtml`;
- numbers;
- screenshot URLs.

`Render` glues the parts into the document string.

Some of the code's behaviour is easy to misread; the model follows the code
as written:
- `looksRandom` needs three things: a run of six ASCII letters or digits,
  at least one digit, and at least one letter. The digit and the letter
  may lie anywhere in the token. A token of six or more characters alone
  is not enough.
- `labelFor` returns the trimmed value whenever the raw value is non-empty.
  An `aria-label`, `alt` or `name` made only of white space therefore gives
  the label `""`, not "no label" (`Labels.AriaLabelFirst`).
- The badge's `"REC"` branch is never taken. `String(steps.length || "")` is
  `""` for an empty log, never `"0"`. While recording, an empty log shows
  an empty badge (`Session.BadgeNeverRec`).
- `labelFor` compares `tagName` with `"BUTTON"` and `"A"` exactly as
  written, in upper case.

## Model

| member | source | states |
|---|---|---|
| `Capture.ContentScript.constructor` | content.js:2 | masking is on before the stored settings arrive |
| `Capture.ContentScript.OnStoredSettings` | content.js:3 | the stored `maskSensitive` becomes the setting; `true` when nothing is stored |
| `Capture.ContentScript.OnStorageChanged` | content.js:4-7 | only a change of `maskSensitive` in the sync area is applied, and a removed value turns masking off; any other change leaves the setting as it was |
| `Capture.AnyWordIn` | content.js:9 | true exactly when some word of the list occurs in the lower-cased text |
| `Capture.MaskedNameIgnoresCase` | content.js:9 | `MASKED_NAMES.test(s)` holds exactly when one of the eight words occurs in `s` with ASCII letters compared without regard to case |
| `Capture.OccursLowerIffIgnoringCase` | content.js:9 | for a lower-case word, a match in the lower-cased text is a case-blind match in the original |
| `Capture.NowStep` | content.js:11-19 | the step carries the page's id, time, URL and title plus the handler's action, selector, label and value, and no screenshot |
| `Capture.ClickStep` | content.js:82-86 | the step a click sends: nothing unless the target or an ancestor matches the interactive selector; otherwise a click step with the nearest such element's selector and label and no value |
| `Capture.IsSensitive` | content.js:94-95 | a field is sensitive when its lower-cased type is `password`, or its name or its id contains one of the masked words in any case |
| `Capture.RecordedValue` | content.js:96 | the value sent: `""` when masking is on and the field is sensitive, otherwise the field's value |
| `Capture.ChangeStep` | content.js:88-99 | the step a change sends: a select step with the chosen value; an input step with the recorded value for an input or a text area; nothing for any other target |
| `Capture.SubmitStep` | content.js:101-104 | the step a submit sends: the form's selector, its name, `aria-label` or `"Form"` as label, and no value |
| `Capture.OnClick` | content.js:82-86 | the step sent is `ClickStep`: nothing without an interactive element around the target, otherwise a click step for the nearest one |
| `Capture.ClickNeedsInteractive` | content.js:83-85 | a click is recorded iff the target or an ancestor is interactive; the step's selector is that of the nearest such ancestor, and none below it is interactive |
| `Capture.ContentScript.OnChange` | content.js:88-99 | the step sent is `ChangeStep` under the current masking setting |
| `Capture.ChangeNeedsControl` | content.js:89-98 | a change sends a step iff its target is an element that is a select box, an input or a text area |
| `Capture.MaskedValueIsBlank` | content.js:93-97 | with masking on, a sensitive input or text area is recorded as an `input` step with value `""` |
| `Capture.UnmaskedValueIsKept` | content.js:93-97 | with masking off, or for a field that is not sensitive, the value is recorded as it is |
| `Capture.SelectNeverMasked` | content.js:91-92 | a select box is recorded as a `select` step with its value, whatever its name and the setting |
| `Capture.PasswordIsSensitive` | content.js:94-95 | a field of type `password`, in any case, is sensitive whatever its name and id |
| `Capture.SubmitLabel` | content.js:103 | the label is never empty: the form's name if set, else its `aria-label` if set, else `"Form"` |
| `Capture.OnSubmit` | content.js:101-104 | the step sent is `SubmitStep`, a `submit` step that always has a label |
| `Capture.NavigateStep` | content.js:109 | a `navigate` step with the page's URL and time and no selector, label or value |
| `Dom.ClosestDepth` | content.js:83 | `closest`: the depth of the first element, from the element itself upwards, that matches, and none below it matches |
| `Locator.LooksRandom` | content.js:79 | true iff the token has a run of six ASCII letters or digits, and also some digit and some letter |
| `Locator.SearchAlnumRun` | content.js:79 | `/[A-Za-z0-9]{6,}/.test` holds iff a run of six letters or digits occurs at some position |
| `Locator.HasDigit` | content.js:79 | `/[0-9]/.test` holds iff some character is a digit |
| `Locator.HasLetter` | content.js:79 | `/[A-Za-z]/.test` holds iff some character is an ASCII letter |
| `Locator.LooksRandomExamples` | content.js:79 | `a1b2c3x9` looks random; `submit-btn` and `ab1-cd` do not |
| `Locator.NthOfType` | content.js:78 | the loop computes one more than the number of earlier siblings with the same tag, between 1 and one more than the number of siblings |
| `Locator.CountTagMultiplicity` | content.js:78 | the count of same-tag siblings is the tag's multiplicity among the earlier siblings' tags |
| `Locator.FirstAnchoring` | content.js:48-52 | the first preferred attribute that is set, non-empty and not random; none before it qualifies, and none at all when it finds none |
| `Locator.SelectorOf` | content.js:46-76 | the selector: `""` for a missing or non-element node; `[a="v"]` for the first preferred attribute that anchors; otherwise the rendered path joined with `" > "` |
| `Locator.BuildSelector` | content.js:46-76 | the selector is `SelectorOf`: `""` for a missing or non-element node, the first anchoring attribute as `[a="v"]`, otherwise the structural path |
| `Locator.TestIdTakesPriority` | content.js:48-51 | a usable `data-testid` decides the selector over every other attribute and the path |
| `Locator.RandomTestIdSkipped` | content.js:49-51 | a `data-testid` that looks random is passed over, and the usable `data-test` decides instead |
| `Locator.WalkUp` | content.js:53-75 | the walk's loop produces the rendered `PathFrom` of the element, joined with `" > "` |
| `Locator.LevelPart` | content.js:56-71 | one level's text is its rendered segment, and the walk stops exactly at an id segment |
| `Locator.SplitFrom` | content.js:63-65 | `className.toString().split(/\s+/)`: the pieces between maximal runs of white space, with an empty first or last piece when the text starts or ends with white space |
| `Locator.StableClassesMembers` | content.js:63-66 | the kept classes are exactly the non-empty, non-random ones |
| `Locator.StableClassesAppend` | content.js:66 | filtering keeps the classes' order and repetitions: it filters each part of a list in turn |
| `Locator.StableClassesOne` | content.js:66 | a single class is kept exactly when it is non-empty and does not look random |
| `Locator.KeptClasses` | content.js:63-68 | at most two classes are kept |
| `Locator.KeptClassesFirstTwo` | content.js:63-68 | the kept classes are the first two stable classes in attribute order, or all of them when there are fewer; every kept class is stable |
| `Locator.PathOntoFrom` | content.js:53-74 | putting segments in front as the loop does equals the ancestor-to-target path followed by what was there |
| `Locator.PathLength` | content.js:55 | a path has at most five segments, and at least one for an element |
| `Locator.PathLastAndParent` | content.js:53-74 | the path ends with the target's own segment, preceded by the path of its parent |
| `Locator.PathAnchorsOnlyAtTop` | content.js:58-62 | only the first segment of a path can be a `tag#id` segment |
| `Locator.PathStopsAtAnchorOrRoot` | content.js:55-73 | a walk shorter than five levels stopped at a stable id or at the root |
| `Locator.FallbackEndsAtTarget` | content.js:53-75 | when no attribute anchors the target, the path ends in the target's own `tag…:nth-of-type(n)` segment |
| `Labels.FirstLabelFor` | content.js:31 | `querySelector` finds the first `label` whose `for` is the id, in document order, or none |
| `Labels.Offered` | content.js:27-41 | the raw text each source offers, `""` when it offers none: the `aria-label`, `alt` and `name` attributes; the text of the first `label[for=id]`; a button's or link's own text; the text of the closest `label` or `role=button` element |
| `Labels.FirstOffering` | content.js:25-43 | the first source that offers text; all earlier ones offer none |
| `Labels.LabelForIsFirstSource` | content.js:25-44 | the early-return chain is the ordered search through the six sources, trimming attributes and normalising texts |
| `Labels.LabelFor` | content.js:26 | a missing node or a non-element gets no label |
| `Labels.AriaLabelFirst` | content.js:27 | a non-empty `aria-label` is the label, trimmed, even if that leaves `""` |
| `Labels.LabelIsTidy` | content.js:27-42 | a label never starts or ends with white space, and one taken from text has only single blanks |
| `Labels.NoSourceNoLabel` | content.js:43 | with no source offering text there is no label |
| `Text.Trim` | content.js:27 | the result is a slice of the input with only white space cut from either end, and it neither starts nor ends with white space |
| `Text.TrimKeepsText` | content.js:27 | trimming keeps every non-space character |
| `Text.CollapseSpaces` | content.js:32 | `replace(/\s+/g, " ")`: each maximal run of white space becomes one blank |
| `Text.Normalize` | content.js:32 | `trim()` followed by the collapse of white-space runs |
| `Text.NormalizeIsJoinedWords` | content.js:32 | `trim().replace(/\s+/g, " ")` is the words of the text (its maximal runs without white space) joined by single blanks |
| `Text.NormalizeShape` | content.js:32 | `trim().replace(/\s+/g, " ")` leaves no white space at the ends, only single blanks between words, and every other character |
| `Text.NatToString` | background.js:8 | `String(n)` is a non-empty string of digits, with no leading zero unless `n` is 0 |
| `Text.ParseNatToString` | background.js:118 | the decimal text of a number reads back as that number |
| `Text.Suffix` | background.js:11 | `slice(-k)` is the last `min(k, length)` characters |
| `Text.NatSuffixValue` | background.js:11 | the last `k` digits of a number spell the number modulo `10^k` |
| `Steps.ActionName` | background.js:124 | every action has a non-empty name |
| `Session.BadgeText` | background.js:7-13 | the badge text: `""` while idle; while recording, the step count as decimal text (`""` for no steps), shown as `"REC"` if it were `"0"`, otherwise as its last four characters |
| `Session.BadgeNeverRec` | background.js:8-11 | the badge never reads `"REC"` |
| `Session.BadgeShowsCount` | background.js:6-15 | the badge is empty when idle or when no step is recorded; otherwise it is one to four digits reading the count modulo 10000, and the full count below 10000 |
| `Session.SuffixValue` | background.js:11 | the last four digits of a count spell the count modulo 10000 |
| `Session.Enrich` | background.js:56-61 | the stored step: a click or submit, with screenshots on and a successful capture, gains the image; any other step, or a failed capture, is stored as sent |
| `Session.EnrichOnlyScreenshot` | background.js:56-61 | only a click or a submission with screenshots on can gain a screenshot; nothing else about the step changes; a failed capture leaves the step as it was |
| `Session.RecordingSession.constructor` | background.js:1-4 | the worker starts idle, with no steps, both settings on and a badge matching that state |
| `Session.RecordingSession.UpdateBadge` | background.js:6-15 | the badge shows `BadgeText` of the current state; nothing else changes |
| `Session.RecordingSession.OnInstalled` | background.js:17-23 | each stored setting, or its default `true`, becomes the setting; the badge is brought up to date |
| `Session.RecordingSession.OnSettingsChanged` | background.js:25-30 | in the sync area each changed key takes its new value (off when removed); other keys and other areas change nothing |
| `Session.RecordingSession.Toggle` | background.js:33-39 | recording flips, the steps are kept, and the reply is the new state |
| `Session.RecordingSession.OnCommand` | background.js:99-109 | `toggle-recording` flips recording and announces the new state; any other command changes nothing |
| `Session.RecordingSession.Clear` | background.js:41-46 | the log becomes empty, recording stays as it was, and the badge follows |
| `Session.RecordingSession.GetSteps` | background.js:48-51 | replies with the steps and the recording state |
| `Session.RecordingSession.RecordEvent` | background.js:53-72 | while idle nothing changes; while recording the step, enriched, is appended, the new step and count are announced, and the badge follows |
| `Session.RecordingSession.ExportMarkdown` | background.js:74-78 | replies with the Markdown document of the current steps |
| `Session.RecordingSession.ExportDoc` | background.js:86-90 | replies with the plain HTML document of the current steps |
| `Session.RecordingSession.ExportPdf` | background.js:92-96 | replies with the print-layout HTML document of the current steps |
| `Session.StopKeepsSteps` | background.js:33-37 | stopping a recording keeps every step and blanks the badge |
| `Session.TwoEvents` | background.js:53-62 | two events while recording append their enriched steps in arrival order; while idle the log and the badge stay as they were |
| `Markdown.MarkdownLines` | background.js:111-136 | the lines: the title and the no-steps note for an empty log; otherwise the title, the generation time, the total and a rule, then for each step in order its header, its field lines and a rule |
| `Markdown.StepsToMarkdown` | background.js:111-136 | the loop builds exactly the lines of `MarkdownLines`, joined with newlines |
| `Markdown.EmptyRecording` | background.js:113-114 | an empty recording is the title and the "no steps" note, nothing else |
| `Markdown.StepsNumberedInOrder` | background.js:121-134 | the list of lines holds one header line per step, in recording order, the `k`-th reading `Step k+1` with that step's escaped action |
| `Markdown.StepKeys` | background.js:125-131 | time, page and URL lines always appear; the target, value, selector and screenshot lines appear exactly when the step has them |
| `Markdown.FixedLinesFirst` | background.js:125-128 | time, page and URL come first with the escaped title and URL, then the escaped label when there is one |
| `Markdown.ScreenshotNotEmbedded` | background.js:131 | the screenshot's data never reaches the document, only whether one exists |
| `Markdown.TotalReadsBack` | background.js:118 | the total line reads back as the number of steps |
| `Escaping.EscapeMd` | background.js:138 | the output grows by one character per protected character, and never starts with an unescaped one |
| `Escaping.UnescapeEscapeMd` | background.js:138 | undoing `escapeMd`'s own escapes gives back the original text |
| `Escaping.EscapeMdReadsLiterally` | background.js:138 | for a text without a backslash, a CommonMark reader takes every character of the escaped text, set inline, as text, none as emphasis or code |
| `Escaping.EscapeMdBackslashGap` | background.js:138 | a recorded backslash is not escaped: a backslash and `!` read as `!`, and a backslash and `*` leave the `*` active |
| `Escaping.EscapeMdGuardsSpecials` | background.js:138 | every `*`, `_`, backquote or `~` in the output follows a backslash |
| `Escaping.ReplaceChar` | background.js:141 | a replacement without the character leaves none of it in the output |
| `Escaping.EscHtml` | background.js:140-142 | `&`, then `<`, then `>` replaced throughout by `&amp;`, `&lt;` and `&gt;` |
| `Escaping.EscHtmlIsEscapeEach` | background.js:140-142 | because `&` goes first, the three passes escape each character exactly once |
| `Escaping.EscHtmlHasNoTags` | background.js:140-142 | the escaped text holds no `<` and no `>` |
| `Escaping.UnescEscHtml` | background.js:140-142 | decoding `&amp;`, `&lt;` and `&gt;` gives back the original text |
| `HtmlExport.DocParts` | background.js:144-179 | the plain document as parts: the fixed head, the step blocks joined with newlines, the fixed tail |
| `HtmlExport.DocHtml` | background.js:144-179 | the plain document's text: each part rendered, recorded text through `escHtml` |
| `HtmlExport.DocRowsPresent` | background.js:169-173 | page, URL and time rows are always present; selector and value rows exactly when the step has them |
| `HtmlExport.JoinBlocksMember` | background.js:164-176 | every part of blocks joined with `"\n"` is the separator or a part of one of the blocks |
| `HtmlExport.JoinBlocksCount` | background.js:164-176 | joining blocks whose `k`-th block shows just `n+k` shows `n`, `n+1`, … in order, one number per block |
| `HtmlExport.JoinBlocksRuns` | background.js:404-448 | joining blocks whose `k`-th block shows `n+k` once or twice shows, repetitions collapsed, `n`, `n+1`, … in order |
| `HtmlExport.DocNumberedInOrder` | background.js:164-176 | the plain document holds one block per step, in recording order, the `k`-th numbered `k+1` |
| `HtmlExport.DocStepNumbers` | background.js:168 | a block of the plain document shows exactly one number, its step number |
| `HtmlExport.DocImagesAreScreenshots` | background.js:174 | every image in the plain document is one of the steps' screenshots |
| `HtmlExport.OnlyMarkupOpensTags` | background.js:164-176 | for any list of parts, every `<` of the rendered text comes from a markup part or a screenshot URL, never from escaped text or a number; with `DocMarkupFixed` and `PdfMarkupFixed`, the documents' markup is step-independent |
| `HtmlExport.DocMarkupFixed` | background.js:164-176 | every piece of markup in the plain document is one of a fixed set of strings that no step can change; recorded text reaches the page only escaped |
| `HtmlExport.PdfParts` | background.js:181-457 | the print layout as parts: the fixed head, the summary, the step blocks joined with newlines, the fixed footer |
| `HtmlExport.PdfHtml` | background.js:181-457 | the print layout's text: each part rendered, recorded text through `escHtml` |
| `HtmlExport.PdfMarkupFixed` | background.js:388-448 | every piece of markup in the print layout, summary included, is one of a fixed set of strings that no step can change |
| `HtmlExport.PdfRowsPresent` | background.js:413-439 | title and time rows are always present; URL, selector and value rows exactly when the step has them |
| `HtmlExport.PdfTitleDefault` | background.js:416 | a step without a title shows "Unknown Page", otherwise its title |
| `HtmlExport.PdfNumberedInOrder` | background.js:404-448 | the print layout holds one block per step, in order; apart from the alt text's repeat, its numbers run 1, 2, … |
| `HtmlExport.PdfStepNumbers` | background.js:409-443 | a print block shows its step number, once more in the alt text when it has a screenshot |
| `HtmlExport.PdfImagesAreScreenshots` | background.js:441-445 | every image in the print layout is one of the steps' screenshots |
| `HtmlExport.RoundMinutes` | background.js:399 | `Math.round(ms / 60000)` written as `(ms + 30000) / 60000` on whole milliseconds |
| `HtmlExport.DurationMinutes` | background.js:399 | the summary's duration: 0 for an empty log, otherwise the rounded minutes from the first step's timestamp to the last's |
| `HtmlExport.RoundMinutesNearest` | background.js:399 | the duration is the nearest whole minute, halves rounded up |
| `HtmlExport.PdfSummary` | background.js:388-401 | the summary: the generation time, the number of steps and the duration in minutes, each in its fixed frame |
| `HtmlExport.SummaryFigures` | background.js:388-401 | the summary shows two figures, in order: the number of steps and the duration in minutes |
| `HtmlExport.DurationExamples` | background.js:399 | an empty or single-step recording lasts 0 minutes; three minutes apart is 3; 90 s rounds to 2 |

## Left out

- `popup.js`, `options.js` and the manifest are not part of this model.
  They only send the messages the model receives and show its replies.
- `RECORDER:EXPORT_JSON` (background.js:80-84) is left out. `JSON.stringify`
  is a library serialiser with no logic of the recorder in it.
- The `chrome.*` calls are not modelled: storage, badge colours, runtime
  messaging and tab capture. Their results become parameters: stored
  settings, storage changes and `CaptureOutcome`. Their effects become
  results: the reply, the announced step and the badge text. The write-back
  of the settings in `onInstalled` is not modelled.
- Asynchrony is not modelled: `await`, the interleaving of messages, and
  `setTimeout` in `hookSPA`. Each handler runs to completion on its own.
- `hookSPA`'s patching of `history.pushState` and `history.replaceState`
  and its `popstate` listener are not modelled, and nor is the listener
  registration in content.js:115-118. The step they send is
  `Capture.NavigateStep`.
- `nowStep`'s id (`crypto.randomUUID` or `Math.random`), `Date.now()` and
  `location`/`document.title` become the `PageContext` parameter.
- `CSS.escape` is the uninterpreted function `esc`. The `label[for=…]`
  query matches on the raw id; CSS escaping of the id is not modelled.
- `Date(…).toLocaleString()` is the parameter `fmtTime`. The export
  handlers read the clock once per document.
- `toLowerCase` is modelled on ASCII letters only. Non-ASCII case mapping
  is not modelled.
- The CSS in the HTML documents' `<head>` is abbreviated to empty `<style>`
  elements. The template literals' indentation whitespace is dropped.
  Neither carries recorded data.
- Each step is a `Step` value: `msg.payload || {}` with a missing payload
  is not modelled, and all settings are booleans.
- `escHtml(s)` takes a string. `String(s || "")` on `null`/`undefined` (a
  missing value) is modelled by the callers: every optional field is an
  `Option`, and a missing one is shown as `""`.
- `HtmlExport.PdfBody`: the `"Unknown Action"` fallback of `s.action ||
  "Unknown Action"` (background.js:410) is unreachable, because every
  action has a non-empty name (`Steps.ActionName`).
- `HtmlExport.DurationMinutes`: a missing timestamp (`NaN` in the source)
  is not modelled. Every step has an integer timestamp.
- `Escaping.EscHtmlIsEscapeEach`: there is no separate lemma for "every `&`
  of the output starts an entity". It follows from the one-pass form and
  the round trip `Escaping.UnescEscHtml`.
- `Locator.PathLastAndParent`: the order of the path is stated
  recursively: the target's segment is last and is preceded by its
  parent's path. There is no index-by-index statement of the whole path.
- `Escaping.EscapeMd`: `escapeMd` does not escape the backslash itself, so
  a recorded backslash pairs with the next character when a CommonMark
  reader reads the export (`Escaping.EscapeMdBackslashGap`). The literal
  reading is promised only for text without a backslash
  (`Escaping.EscapeMdReadsLiterally`), and the round trip
  `Escaping.UnescapeEscapeMd` is against the inverse of its own escapes.
- `Markdown.StepFields`: the literal reading holds only for the lines whose
  text is inline (page, URL, target). The value and the selector are
  escaped and then put inside a backtick code span (background.js:129-130),
  where CommonMark applies no backslash escapes. The selector
  `button.btn_primary` is therefore shown as `button.btn\_primary`, and a
  value holding a backtick closes the span early. Code spans are not
  read by the model.
- `Dom.ClassName`: the model reads `(el.className || "").toString()` as the
  class attribute. On an SVG element `className` is an `SVGAnimatedString`,
  whose text is `"[object SVGAnimatedString]"`, so the source keeps the
  class `"[object"` for it. Elements are not split into HTML and SVG here.
- `Markdown.StepsNumberedInOrder`: the header count is stated about the list
  of lines. A recorded label or value holding a line break and `#` adds a
  heading to the rendered Markdown; the text inside lines is not parsed.
- `Capture.MaskedNameIgnoresCase`: no example lemma over concrete field
  names is given. The words' presence is stated for all inputs.
