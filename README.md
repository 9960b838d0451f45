# NPTEL Attendance Autofill — a Dafny model of the fill engine

The browser extension fills a Google Forms attendance sheet. It has three
user-configured text fields (internship ID, name, mobile number), four fixed
text fields (institute, professor, start and end date) and two dropdowns
(mode and duration of the internship). The engine is `content.js`, and this
project models it. Each run locates every question by its heading text and
writes the value into the question's field. In a date input, a `DD-MM-YYYY`
date is first reformatted to `YYYY-MM-DD`. Each write dispatches `input`
and `change`. A dropdown is skipped when the value is already selected.
Otherwise the engine opens the listbox, when it is not already expanded,
with a synthetic mouse gesture and polls up to eleven times for a matching option to click. The whole run
repeats eleven times.

The page is a sequence of element nodes in document order. Each node points
at its parent, which comes before it (`Dom.WellFormed`). A node carries its
tag, role, rendered text, `value`, `type`, `data-value`, `aria-selected`,
`aria-expanded` and `jsname`. The browser built-ins the engine calls
(`querySelector`, `querySelectorAll`, `closest`, `parentElement`,
`toLowerCase`, `includes`, `trim`) are pure functions with their own
contracts. As in the source, the check that an option sits in the real
list counts every option below the option's parent, not only its direct
children. Every synthetic event is appended to one trace of
(node index, event kind) pairs.

Modules:

- `Dates` models the date reformatting.
- `Locator` models `getContainer`.
- `Fill` holds the fill rules as transformations of a page state (document, trace).
- `Content` holds the class `Page`, whose fields are the live document and
  the trace. Its methods run the source's loops step by step, and each
  method is proved equal to the matching `Fill` or `Content` function.

`Locator.GetContainer` is a method over a document value: `getContainer`
changes nothing on the page.

Between two polls of a dropdown the host page may re-render. The model
takes that rendering as a parameter `frames`: `frames[k]` is the document
the page shows just before poll `k`, and once the list runs out the page
stays as it is. `runAutofill` passes no frames, so its polls all see the
same page.

## Model

| member | source | states |
|---|---|---|
| Dates.FormatDateForInput | content.js:8-14 | a `DD-MM-YYYY` string (ASCII digits) becomes `YYYY-MM-DD` with the year, month and day groups moved; every other string is returned unchanged |
| Dates.FormatRoundTrip | content.js:9-11 | reformatting a day-first date loses nothing: the inverse reordering gives it back |
| Dates.FormatOnto | content.js:9-11 | every `YYYY-MM-DD` string is the reformatting of a day-first date |
| Dates.FormsAreDisjoint | content.js:9 | no string has both the day-first and the year-first form |
| Dates.FormatKeepsYearFirst | content.js:13 | a string already in `YYYY-MM-DD` form passes through unchanged |
| Dates.FormatIdempotent | content.js:8-14 | reformatting its own output changes nothing |
| Dates.FixedDates | content.js:171-172 | the two fixed dates become `2026-01-14` and `2026-03-24` in a date input |
| JsStrings.LowerChar | content.js:18 | one character lower-cased: an upper-case letter becomes the letter at its place in the lower-case alphabet, any other character stays |
| JsStrings.ToLowerCase | content.js:18 | lower-casing keeps the length, turns each upper-case letter into its lower-case letter and keeps every other character |
| JsStrings.SameUpToCaseLowersEqual | content.js:18-23 | strings that differ only in the case of their letters lower-case to the same string |
| JsStrings.ToLowerCaseFixesLowerCase | content.js:23 | lower-casing changes a string exactly when it holds an upper-case letter |
| JsStrings.Trim | content.js:100 | `trim` returns a slice of the string with only white space on either side, and the slice neither starts nor ends with white space |
| Dom.QueryAll | content.js:20 | `querySelectorAll` returns only elements inside the scope that match the selector |
| Dom.Query | content.js:31 | a `querySelector` result lies inside the scope and matches the selector |
| Dom.Closest | content.js:25 | a `closest` result is the element itself or comes before it, and matches the selector |
| Dom.Up | content.js:29-35 | `parentElement` taken `n` times gives the element itself for `n = 0` and otherwise one of its ancestors |
| Dom.AncestorPrecedes | content.js:29-35 | an ancestor comes before its descendants in document order |
| Dom.QueryAllIsComplete | content.js:124-127 | `querySelectorAll` lists every matching descendant of the scope, each once, in document order |
| Dom.QueryIsFirst | content.js:31 | `querySelector` returns the first match in document order, and null only when nothing matches |
| Dom.ClosestIsNearest | content.js:25 | `closest` returns the element itself or its nearest matching ancestor, and null only when nothing on the way to the root matches |
| Dom.UpStep | content.js:29-35 | one more `parentElement` step is the parent of the last one |
| Dom.QuerySameMarkup | content.js:63-65 | queries do not look at `value` properties |
| Locator.Fallback | content.js:28-36 | a fallback result is an ancestor of the heading that holds an input, a text area or a listbox |
| Locator.ContainerOf | content.js:25-38 | the container of a heading is the heading itself or one of its ancestors |
| Locator.Container | content.js:17-42 | a container is found only when some heading matches, and it holds the first matching heading |
| Locator.QuestionHeadingIgnoresCase | content.js:18-23 | whether a heading matches a question does not depend on the letter case of the heading's text or of the question |
| Locator.ContainerIgnoresCase | content.js:17-42 | two questions that differ only in letter case find the same container |
| Locator.GetContainer | content.js:17-42 | the scan over the headings returns the container of the first heading whose lower-cased text includes the lower-cased question |
| Locator.ContainerUsesFirstHeading | content.js:22-39 | only the first matching heading counts, even when it yields no container |
| Locator.ContainerNeedsHeading | content.js:41 | no matching heading, no container |
| Locator.FallbackFound | content.js:28-36 | a fallback result is the first of the heading's five nearest ancestors, starting at its parent, that holds an input, text area or listbox |
| Locator.FallbackNone | content.js:28-36 | with no fallback result, none of those ancestors holds a control |
| Locator.ContainerSameMarkup | content.js:17-42 | the container found does not depend on the `value` properties of the page |
| Fill.FillText | content.js:58-82 | a text fill keeps the page well formed and changes nothing but `value` properties |
| Fill.FillTextNoOps | content.js:58-72 | a fill leaves the page and the trace alone when the value is empty, there is no container, there is no non-hidden input or text area, or the field already holds the final value |
| Fill.FillTextWrites | content.js:67-79 | otherwise the fill writes the final value into that one field, changes no other node and appends one `input` and one `change` event on it; the final value is reformatted only for a date fill into a date input |
| Fill.FillTextChangesIffEvents | content.js:72-78 | a fill changes the page exactly when it finds a target, and then the trace grows by exactly two events |
| Fill.FillTextExtends | content.js:58-82 | a text fill only appends to the trace |
| Fill.FillTextIdempotent | content.js:58-82 | filling twice is filling once |
| Fill.FillDrop | content.js:85-153 | a dropdown fill keeps the page well formed, and without a re-render it leaves the document as it was |
| Fill.FillDropGoesOn | content.js:86-110 | the fill goes on to poll exactly when the value is non-empty, the question has a listbox, a selected option has neither that `data-value` nor that trimmed text, and with no option selected the display area is missing or does not include the value |
| Fill.FillDropEmptyValue | content.js:86 | an empty value does nothing |
| Fill.FillDropSkipsSelectedOption | content.js:93-103 | a selected option whose `data-value` or trimmed text is the value: no click on the listbox or any option |
| Fill.FillDropSkipsDisplayedValue | content.js:104-110 | no option selected and the display area's text includes the value: no click either |
| Fill.ExpandClicksIffCollapsed | content.js:113-116 | the listbox is clicked (mousedown, mouseup, click) exactly when its `aria-expanded` is not `"true"` |
| Fill.FillDropExtends | content.js:85-153 | a dropdown fill only appends to the trace, and without a re-render the document is the one it started from |
| Fill.Candidates | content.js:123-128 | a poll considers options only: the listbox's own when it has at least two, otherwise every option of the page, each once, in document order |
| Fill.FirstClickableIsFirst | content.js:130-142 | the search finds the first candidate that stands for the value and whose parent holds more than one option |
| Fill.OptionToClick | content.js:120-144 | the option a poll clicks is one of the candidates, stands for the value and sits in a parent with more than one option |
| Fill.OptionToClickIsFirstQualifying | content.js:120-144 | a poll picks the first qualifying candidate, and none only when no candidate qualifies |
| Fill.PollStopsAtFirstClick | content.js:146-150 | the polls stop at the first one that clicks; when none clicks, all eleven ran |
| Fill.Polls | content.js:119-150 | `clickOption` runs at least once and at most eleven times |
| Fill.FillDropClicks | content.js:112-150 | a dropdown fill that goes on clicks the listbox only when it is collapsed, then at most one option, the one the first successful poll chose, every earlier poll having found none |
| Content.RunTick | content.js:156-178 | one run keeps the page well formed |
| Content.Runs | content.js:181-188 | any number of runs keeps the page well formed |
| Content.RunTickUnreachableStore | content.js:157-161 | a run whose settings read fails changes nothing |
| Content.RunsUnreachableStore | content.js:181-188 | when the store is never readable, all the runs leave the page as it was |
| Content.RunTickKeepsMarkup | content.js:156-178 | a run changes nothing on the page but `value` properties and only appends to the trace |
| Content.RunsKeepMarkup | content.js:181-188 | however many runs there are, the runs' own writes keep the markup (no host rendering between runs) |
| Content.RunsExtendTrace | content.js:181-188 | however many runs there are, the events of earlier runs stay at the head of the trace |
| Content.Page.TriggerClick | content.js:45-55 | appends mousedown, mouseup and click on the element, in that order |
| Content.Page.FindField | content.js:59-72 | the checks at the head of `fillByQuestion` find the field the fill writes, or nothing in each no-op case |
| Content.Page.FillByQuestion | content.js:58-82 | the page and trace after the call are those `Fill.FillText` gives |
| Content.Page.ClickOption | content.js:120-144 | one poll clicks the option `Fill.OptionToClick` picks, and returns true exactly when it clicked |
| Content.Page.ClickFirst | content.js:130-143 | the loop over the candidates clicks the first clickable one and stops |
| Content.Page.PollOptions | content.js:119-150 | the interval runs `clickOption` as often as `Fill.Polls` says and leaves the trace grown by the clicks of the last poll only |
| Content.Page.FindDropdown | content.js:86-110 | the checks at the head of `fillDropdown` find the listbox `Fill.DropdownListbox` describes |
| Content.Page.FillDropdown | content.js:85-153 | the page and trace after the call are those `Fill.FillDrop` gives, and the poll count is `Fill.DropAttempts` |
| Content.Page.RunAutofill | content.js:156-178 | one run fills the seven text fields and the two dropdowns in the source's order, as `Content.RunTick` gives |
| Content.Page.Autofill | content.js:181-188 | the outer interval runs `runAutofill` exactly eleven times, run `k` seeing what the store returns at that run |

## Left out

- popup.js is not part of this model. It only copies three fields between its form and the settings store.
- The settings store (`chrome.storage.sync.get`) and the `chrome.runtime.lastError` abort are not modelled as calls: a run takes what the store returned, `None` when the read failed.
- A setting that was never saved is modelled as the empty string. In the source it is `undefined`, and both values stop `fillByQuestion` at its first check.
- Real timers (200 ms, 1000 ms) are not modelled. Each dropdown fill runs its polls to the end before the run goes on. In the browser they run later and interleave with the next runs' callbacks, which is concurrency. So the order of events differs: in the source a run's polls start only after its second dropdown fill has made its checks and sent its listbox gesture, so both listbox gestures come before any option click, while the model's trace puts the first dropdown's option click before the second dropdown's listbox gesture.
- Content.Runs: between two runs the page is exactly the one the previous run left. The host page's own rendering between runs, which is what the retry loop waits for, is not modelled, so `Content.RunsKeepMarkup` speaks only of the runs' own writes.
- Content.Page.RunAutofill: its dropdown polls see no re-render (no `frames`), because the re-rendering host is only a parameter of `FillDropdown`.
- Events dispatched after a re-render name nodes by their index in the document shown at that poll. After a re-render the polls also look up the listbox by its index in the new document, whereas the source keeps the listbox element it found first, even when the host has detached it.
- `focus` and `blur` around the write are left out. They only move keyboard focus and are not part of the trace.
- `innerText` is taken as a given string per node: layout and rendering are not modelled.
- Browser sanitisation of the written `value` (for example a date input rejecting a malformed date) is not modelled: the field holds what was written.
- `toLowerCase` folds ASCII letters only. Unicode case mapping is left out.
- Only the CSS selectors and the one date pattern the engine uses are modelled, as predicates. There is no general selector or regular-expression engine.
