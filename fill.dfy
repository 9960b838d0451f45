/**
 * The fill rules of the engine as transformations of a page state: the
 * document and the trace of events dispatched on it. `Content.Page` runs
 * them step by step; the lemmas here state what they promise.
 */
module Fill {
  import opened Wrappers
  import opened Dom
  import Locator
  import Dates
  import JsStrings

  datatype EventKind = InputEvent | ChangeEvent | MouseDown | MouseUp | Click

  /** A synthetic event dispatched on the node with index `target`. */
  datatype Event = Event(target: nat, kind: EventKind)

  /** The page: its document and every event dispatched so far, oldest first. */
  datatype State = State(doc: Doc, trace: seq<Event>)

  /** The gesture `triggerClick` dispatches, in order. */
  const ClickKinds: seq<EventKind> := [MouseDown, MouseUp, Click]

  function ClickEvents(t: nat): (r: seq<Event>)
    ensures |r| == |ClickKinds| && forall k | 0 <= k < |r| :: r[k] == Event(t, ClickKinds[k])
  {
    [Event(t, MouseDown), Event(t, MouseUp), Event(t, Click)]
  }

  // ---------------------------------------------------------------- fillByQuestion

  /** The `type` property of an input is `date`. */
  predicate IsDateInput(n: Node) {
    n.tag == Input && HasType(n, "date")
  }

  /** The value written into field `n`: reformatted only for a date fill into a date input. */
  function FinalValue(n: Node, value: string, isDate: bool): string {
    if isDate && IsDateInput(n) then Dates.FormatDateForInput(value) else value
  }

  /** The field `fillByQuestion` writes, or None in each of its four no-op cases. */
  function TextTarget(doc: Doc, question: string, value: string, isDate: bool): Option<nat>
    requires WellFormed(doc)
  {
    if value == [] then None
    else match Locator.Container(doc, question)
      case None => None
      case Some(c) =>
        match Query(doc, Within(c), FieldSel)
        case None => None
        case Some(i) => if doc[i].value == FinalValue(doc[i], value, isDate) then None else Some(i)
  }

  /** `fillByQuestion(question, value, isDate)`. */
  function FillText(s: State, question: string, value: string, isDate: bool): (r: State)
    requires WellFormed(s.doc)
    ensures WellFormed(r.doc) && SameMarkup(s.doc, r.doc)
  {
    match TextTarget(s.doc, question, value, isDate)
    case None => s
    case Some(i) =>
      var d := s.doc[i := s.doc[i].(value := FinalValue(s.doc[i], value, isDate))];
      SetValueSameMarkup(s.doc, i, FinalValue(s.doc[i], value, isDate));
      SameMarkupWellFormed(s.doc, d);
      State(d, s.trace + [Event(i, InputEvent), Event(i, ChangeEvent)])
  }

  /** The four cases in which a fill changes neither the document nor the trace. */
  lemma FillTextNoOps(s: State, question: string, value: string, isDate: bool)
    requires WellFormed(s.doc)
    ensures value == [] ==> FillText(s, question, value, isDate) == s
    ensures Locator.Container(s.doc, question).None? ==> FillText(s, question, value, isDate) == s
    ensures forall c | Locator.Container(s.doc, question) == Some(c) && Query(s.doc, Within(c), FieldSel).None? ::
              FillText(s, question, value, isDate) == s
    ensures forall c, i | Locator.Container(s.doc, question) == Some(c) && Query(s.doc, Within(c), FieldSel) == Some(i) ::
              s.doc[i].value == FinalValue(s.doc[i], value, isDate) ==> FillText(s, question, value, isDate) == s
  {
  }

  /**
   * Otherwise the fill writes the final value into the first non-hidden field
   * of the question's container, changes no other node and appends exactly
   * one `input` and one `change` event on that field.
   */
  lemma FillTextWrites(s: State, question: string, value: string, isDate: bool)
    requires WellFormed(s.doc) && FillText(s, question, value, isDate) != s
    ensures value != []
    ensures exists c :: Locator.Container(s.doc, question) == Some(c) && Query(s.doc, Within(c), FieldSel).Some?
    ensures forall c, i | Locator.Container(s.doc, question) == Some(c) && Query(s.doc, Within(c), FieldSel) == Some(i) ::
      var r := FillText(s, question, value, isDate);
      && s.doc[i].value != FinalValue(s.doc[i], value, isDate)
      && r.doc[i].value == (if isDate && IsDateInput(s.doc[i]) then Dates.FormatDateForInput(value) else value)
      && (forall k | 0 <= k < |s.doc| && k != i :: r.doc[k] == s.doc[k])
      && r.trace == s.trace + [Event(i, InputEvent), Event(i, ChangeEvent)]
  {
  }

  /** A fill either leaves the state alone or grows the trace by exactly two events. */
  lemma FillTextChangesIffEvents(s: State, question: string, value: string, isDate: bool)
    requires WellFormed(s.doc)
    ensures FillText(s, question, value, isDate) == s <==> TextTarget(s.doc, question, value, isDate).None?
    ensures FillText(s, question, value, isDate) != s <==> |FillText(s, question, value, isDate).trace| == |s.trace| + 2
  {
    if TextTarget(s.doc, question, value, isDate).Some? {
      assert |FillText(s, question, value, isDate).trace| == |s.trace| + 2;
    }
  }

  /**
   * Filling twice is filling once: the second fill finds the same field, now
   * holding the final value, and does nothing.
   */
  lemma FillTextIdempotent(s: State, question: string, value: string, isDate: bool)
    requires WellFormed(s.doc)
    ensures FillText(FillText(s, question, value, isDate), question, value, isDate) == FillText(s, question, value, isDate)
  {
    var r := FillText(s, question, value, isDate);
    match TextTarget(s.doc, question, value, isDate)
    case None =>
    case Some(i) =>
      Locator.ContainerSameMarkup(s.doc, r.doc, question);
      var c := Locator.Container(s.doc, question).value;
      QuerySameMarkup(s.doc, r.doc, Within(c), FieldSel);
      MatchesIgnoresValue(s.doc[i], r.doc[i], FieldSel);
      assert r.doc[i].typeAttr == s.doc[i].typeAttr && r.doc[i].tag == s.doc[i].tag;
      assert TextTarget(r.doc, question, value, isDate).None?;
  }

  /** A fill only appends to the trace. */
  lemma FillTextExtends(s: State, question: string, value: string, isDate: bool)
    requires WellFormed(s.doc)
    ensures s.trace <= FillText(s, question, value, isDate).trace
  {
  }

  // ---------------------------------------------------------------- fillDropdown

  /** An option stands for `value` by its `data-value` or its trimmed text. */
  predicate OptionMatches(n: Node, value: string) {
    n.dataValue == Some(value) || JsStrings.Trim(n.text) == value
  }

  /** The listbox inside the question's container, if any. */
  function ListboxOf(doc: Doc, question: string): (r: Option<nat>)
    requires WellFormed(doc)
    ensures r.Some? ==> r.value < |doc| && Matches(doc[r.value], ListboxSel)
  {
    match Locator.Container(doc, question)
    case None => None
    case Some(c) => Query(doc, Within(c), ListboxSel)
  }

  /** The selected option stands for `value`; with none selected, the display text includes it. */
  predicate AlreadySelected(doc: Doc, lb: nat, value: string)
    requires WellFormed(doc)
  {
    match Query(doc, Within(lb), SelectedOptionSel)
    case Some(o) => OptionMatches(doc[o], value)
    case None =>
      match Query(doc, Within(lb), DisplayAreaSel)
      case Some(d) => JsStrings.Includes(doc[d].text, value)
      case None => false
  }

  /** The listbox `fillDropdown` goes on to open and poll, or None when it returns early. */
  function DropdownListbox(doc: Doc, question: string, value: string): Option<nat>
    requires WellFormed(doc)
  {
    if value == [] then None
    else match ListboxOf(doc, question)
      case None => None
      case Some(lb) => if AlreadySelected(doc, lb, value) then None else Some(lb)
  }

  /** The gesture that opens the listbox, dispatched only when it is not expanded. */
  function ExpandClicks(doc: Doc, lb: nat): seq<Event>
    requires lb < |doc|
  {
    if doc[lb].ariaExpanded == "true" then [] else ClickEvents(lb)
  }

  /** The options one poll considers: the listbox's own, or every option when it has fewer than two. */
  function Candidates(doc: Doc, lb: nat): (r: seq<nat>)
    requires WellFormed(doc)
    ensures forall p | 0 <= p < |r| :: r[p] < |doc| && Matches(doc[r[p]], OptionSel)
    ensures |QueryAll(doc, Within(lb), OptionSel)| >= 2 ==> r == QueryAll(doc, Within(lb), OptionSel)
    ensures |QueryAll(doc, Within(lb), OptionSel)| < 2 ==>
      Increasing(r) && forall j: nat :: j in r <==> j < |doc| && Matches(doc[j], OptionSel)
  {
    QueryAllIsComplete(doc, Everywhere, OptionSel);
    var local := QueryAll(doc, Within(lb), OptionSel);
    if |local| < 2 then QueryAll(doc, Everywhere, OptionSel) else local
  }

  /** The option's parent holds more than one option: it sits in the real list. */
  predicate InOptionList(doc: Doc, o: nat)
    requires WellFormed(doc) && o < |doc|
  {
    doc[o].parent.Some? && |QueryAll(doc, Within(doc[o].parent.value), OptionSel)| > 1
  }

  predicate Clickable(doc: Doc, o: nat, value: string)
    requires WellFormed(doc)
  {
    o < |doc| && OptionMatches(doc[o], value) && InOptionList(doc, o)
  }

  /** The position of the first clickable candidate at or after `from`. */
  function FirstClickable(doc: Doc, cands: seq<nat>, value: string, from: nat): (r: Option<nat>)
    requires WellFormed(doc)
    decreases |cands| - from
    ensures r.Some? ==> from <= r.value < |cands|
  {
    if from >= |cands| then None
    else if Clickable(doc, cands[from], value) then Some(from)
    else FirstClickable(doc, cands, value, from + 1)
  }

  /** The position found is the first clickable one at or after `from`. */
  lemma {:induction false} FirstClickableIsFirst(doc: Doc, cands: seq<nat>, value: string, from: nat)
    requires WellFormed(doc)
    decreases |cands| - from
    ensures var r := FirstClickable(doc, cands, value, from);
      && (r.Some? ==> Clickable(doc, cands[r.value], value))
      && (r.Some? ==> forall p | from <= p < r.value :: !Clickable(doc, cands[p], value))
      && (r.None? ==> forall p | from <= p < |cands| :: !Clickable(doc, cands[p], value))
  {
    if from < |cands| {
      if Clickable(doc, cands[from], value) {
        assert FirstClickable(doc, cands, value, from) == Some(from);
      } else {
        FirstClickableIsFirst(doc, cands, value, from + 1);
        var r := FirstClickable(doc, cands, value, from + 1);
        assert FirstClickable(doc, cands, value, from) == r;
        if r.Some? {
          assert forall p | from + 1 <= p < r.value :: !Clickable(doc, cands[p], value);
        }
      }
    }
  }

  /** One step of the search: a clickable candidate at `k` is the one found, otherwise the search moves on. */
  lemma FirstClickableStep(doc: Doc, cands: seq<nat>, value: string, k: nat)
    requires WellFormed(doc) && k < |cands|
    ensures Clickable(doc, cands[k], value) ==> FirstClickable(doc, cands, value, k) == Some(k)
    ensures !Clickable(doc, cands[k], value) ==> FirstClickable(doc, cands, value, k) == FirstClickable(doc, cands, value, k + 1)
  {
  }

  /** The option one `clickOption` poll clicks, if any. */
  function OptionToClick(doc: Doc, lb: nat, value: string): (r: Option<nat>)
    requires WellFormed(doc)
    ensures r.Some? ==> r.value in Candidates(doc, lb) && Clickable(doc, r.value, value)
  {
    var cands := Candidates(doc, lb);
    FirstClickableIsFirst(doc, cands, value, 0);
    match FirstClickable(doc, cands, value, 0)
    case None => None
    case Some(p) => Some(cands[p])
  }

  /**
   * A poll clicks the first candidate that stands for `value` and whose parent
   * holds more than one option, and nothing when no candidate qualifies.
   */
  lemma OptionToClickIsFirstQualifying(doc: Doc, lb: nat, value: string)
    requires WellFormed(doc)
    ensures OptionToClick(doc, lb, value).Some? ==>
      exists p | 0 <= p < |Candidates(doc, lb)| ::
        && Candidates(doc, lb)[p] == OptionToClick(doc, lb, value).value
        && OptionMatches(doc[Candidates(doc, lb)[p]], value)
        && InOptionList(doc, Candidates(doc, lb)[p])
        && forall q | 0 <= q < p :: !Clickable(doc, Candidates(doc, lb)[q], value)
    ensures OptionToClick(doc, lb, value).None? ==>
      forall p | 0 <= p < |Candidates(doc, lb)| :: !Clickable(doc, Candidates(doc, lb)[p], value)
  {
    var cands := Candidates(doc, lb);
    var f := FirstClickable(doc, cands, value, 0);
    FirstClickableIsFirst(doc, cands, value, 0);
    if f.Some? {
      assert cands[f.value] == OptionToClick(doc, lb, value).value;
    }
  }

  /** `attempts > 10` stops the poll after its eleventh call of `clickOption`. */
  const MaxPolls: nat := 11

  predicate AllWellFormed(frames: seq<Doc>) {
    forall k | 0 <= k < |frames| :: WellFormed(frames[k])
  }

  /**
   * The document shown after `n` polls: the host page re-renders to
   * `frames[k]` just before poll `k` (counting from 0); once the frames run
   * out the document stays as the last one left it.
   */
  function Shown(doc: Doc, frames: seq<Doc>, n: nat): (r: Doc)
    requires WellFormed(doc) && AllWellFormed(frames)
    ensures WellFormed(r)
  {
    if n == 0 || frames == [] then doc
    else if n <= |frames| then frames[n - 1]
    else frames[|frames| - 1]
  }

  /** What each of the eleven polls would click, poll by poll. */
  function PollOutcomes(doc: Doc, frames: seq<Doc>, lb: nat, value: string): (r: seq<Option<nat>>)
    requires WellFormed(doc) && AllWellFormed(frames)
    ensures |r| == MaxPolls
  {
    seq(MaxPolls, k requires 0 <= k < MaxPolls => OptionToClick(Shown(doc, frames, k + 1), lb, value))
  }

  /** Poll `k` sees the document after `k + 1` re-renders and would click what `clickOption` clicks there. */
  lemma PollOutcomesAt(doc: Doc, frames: seq<Doc>, lb: nat, value: string, k: nat)
    requires WellFormed(doc) && AllWellFormed(frames) && k < MaxPolls
    ensures PollOutcomes(doc, frames, lb, value)[k] == OptionToClick(Shown(doc, frames, k + 1), lb, value)
  {
  }

  /** How a run of polls ends: the number of `clickOption` calls and the option clicked. */
  datatype PollResult = PollResult(attempts: nat, clicked: Option<nat>)

  /** The polls from the `k`-th on (counting from 0), given what each poll would click. */
  function PollFrom(outcomes: seq<Option<nat>>, k: nat): (r: PollResult)
    requires k < |outcomes|
    decreases |outcomes| - k
    ensures k < r.attempts <= |outcomes|
  {
    if outcomes[k].Some? || k + 1 >= |outcomes| then PollResult(k + 1, outcomes[k])
    else PollFrom(outcomes, k + 1)
  }

  /** One poll: it ends the run when it clicks or is the last, otherwise the rest decide. */
  lemma PollFromStep(outcomes: seq<Option<nat>>, k: nat)
    requires k < |outcomes|
    ensures outcomes[k].Some? || k + 1 >= |outcomes| ==> PollFrom(outcomes, k) == PollResult(k + 1, outcomes[k])
    ensures outcomes[k].None? && k + 1 < |outcomes| ==> PollFrom(outcomes, k) == PollFrom(outcomes, k + 1)
  {
  }

  /**
   * The polls stop at the first one that clicks, after at most as many calls
   * as there are outcomes; when none clicks, all of them ran and every one
   * found nothing.
   */
  lemma {:induction false} PollStopsAtFirstClick(outcomes: seq<Option<nat>>, k: nat)
    requires k < |outcomes|
    decreases |outcomes| - k
    ensures var r := PollFrom(outcomes, k);
      && k < r.attempts <= |outcomes|
      && (forall j | k <= j < r.attempts - 1 :: outcomes[j].None?)
      && r.clicked == outcomes[r.attempts - 1]
      && (r.clicked.None? ==> r.attempts == |outcomes| && forall j | k <= j < |outcomes| :: outcomes[j].None?)
  {
    if outcomes[k].None? && k + 1 < |outcomes| {
      PollStopsAtFirstClick(outcomes, k + 1);
    }
  }

  function OptionClicks(clicked: Option<nat>): seq<Event> {
    if clicked.Some? then ClickEvents(clicked.value) else []
  }

  /** The polls one dropdown fill runs on listbox `lb`. */
  function Polls(doc: Doc, frames: seq<Doc>, lb: nat, value: string): (r: PollResult)
    requires WellFormed(doc) && AllWellFormed(frames)
    ensures 1 <= r.attempts <= MaxPolls
  {
    PollFrom(PollOutcomes(doc, frames, lb, value), 0)
  }

  /** `fillDropdown(question, value)`, the host page showing `frames` to the polls. */
  function FillDrop(s: State, question: string, value: string, frames: seq<Doc>): (r: State)
    requires WellFormed(s.doc) && AllWellFormed(frames)
    ensures WellFormed(r.doc)
    ensures frames == [] ==> r.doc == s.doc
  {
    match DropdownListbox(s.doc, question, value)
    case None => s
    case Some(lb) =>
      var p := Polls(s.doc, frames, lb, value);
      State(Shown(s.doc, frames, p.attempts), s.trace + ExpandClicks(s.doc, lb) + OptionClicks(p.clicked))
  }

  /** The `clickOption` calls one dropdown fill makes: none when it returns early. */
  function DropAttempts(doc: Doc, question: string, value: string, frames: seq<Doc>): (n: nat)
    requires WellFormed(doc) && AllWellFormed(frames)
    ensures n <= MaxPolls
  {
    match DropdownListbox(doc, question, value)
    case None => 0
    case Some(lb) => Polls(doc, frames, lb, value).attempts
  }

  /** `FillDrop` and `DropAttempts` in the two cases of `DropdownListbox`. */
  lemma FillDropCases(s: State, question: string, value: string, frames: seq<Doc>)
    requires WellFormed(s.doc) && AllWellFormed(frames)
    ensures DropdownListbox(s.doc, question, value).None? ==>
      FillDrop(s, question, value, frames) == s && DropAttempts(s.doc, question, value, frames) == 0
    ensures DropdownListbox(s.doc, question, value).Some? ==>
      var lb := DropdownListbox(s.doc, question, value).value;
      var p := Polls(s.doc, frames, lb, value);
      && FillDrop(s, question, value, frames)
         == State(Shown(s.doc, frames, p.attempts), s.trace + ExpandClicks(s.doc, lb) + OptionClicks(p.clicked))
      && DropAttempts(s.doc, question, value, frames) == p.attempts
  {
  }

  /** An empty value dispatches nothing. */
  lemma FillDropEmptyValue(s: State, question: string, frames: seq<Doc>)
    requires WellFormed(s.doc) && AllWellFormed(frames)
    ensures FillDrop(s, question, [], frames) == s
  {
  }

  /**
   * The fill goes on to poll exactly when the value is non-empty, the question
   * has a listbox, the selected option (if any) stands for neither the value's
   * `data-value` nor its trimmed text, and, with no option selected, the
   * display area is missing or its text does not include the value.
   */
  lemma FillDropGoesOn(s: State, question: string, value: string, frames: seq<Doc>)
    requires WellFormed(s.doc) && AllWellFormed(frames)
    ensures DropAttempts(s.doc, question, value, frames) >= 1 <==>
      && value != []
      && ListboxOf(s.doc, question).Some?
      && var lb := ListboxOf(s.doc, question).value;
         var sel := Query(s.doc, Within(lb), SelectedOptionSel);
         var disp := Query(s.doc, Within(lb), DisplayAreaSel);
         && (sel.Some? ==> s.doc[sel.value].dataValue != Some(value) && JsStrings.Trim(s.doc[sel.value].text) != value)
         && (sel.None? ==> disp.None? || !JsStrings.Includes(s.doc[disp.value].text, value))
  {
    FillDropCases(s, question, value, frames);
  }

  /** A selected option that already stands for the value: no click on the listbox or any option. */
  lemma FillDropSkipsSelectedOption(s: State, question: string, value: string, frames: seq<Doc>, lb: nat, o: nat)
    requires WellFormed(s.doc) && AllWellFormed(frames)
    requires ListboxOf(s.doc, question) == Some(lb) && Query(s.doc, Within(lb), SelectedOptionSel) == Some(o)
    requires s.doc[o].dataValue == Some(value) || JsStrings.Trim(s.doc[o].text) == value
    ensures FillDrop(s, question, value, frames) == s
  {
  }

  /** No option selected and the display area's text includes the value: no click either. */
  lemma FillDropSkipsDisplayedValue(s: State, question: string, value: string, frames: seq<Doc>, lb: nat, d: nat)
    requires WellFormed(s.doc) && AllWellFormed(frames)
    requires ListboxOf(s.doc, question) == Some(lb) && Query(s.doc, Within(lb), SelectedOptionSel).None?
    requires Query(s.doc, Within(lb), DisplayAreaSel) == Some(d) && JsStrings.Includes(s.doc[d].text, value)
    ensures FillDrop(s, question, value, frames) == s
  {
  }

  /**
   * Otherwise the fill clicks the listbox exactly when it is not expanded and
   * then at most one option: the one the first successful poll chose, every
   * earlier poll having found none.
   */
  lemma FillDropClicks(s: State, question: string, value: string, frames: seq<Doc>, lb: nat)
    requires WellFormed(s.doc) && AllWellFormed(frames)
    requires DropdownListbox(s.doc, question, value) == Some(lb)
    ensures lb < |s.doc|
    ensures var outcomes := PollOutcomes(s.doc, frames, lb, value);
      var r := FillDrop(s, question, value, frames);
      var n := DropAttempts(s.doc, question, value, frames);
      && 1 <= n <= MaxPolls
      && r.trace == s.trace + ExpandClicks(s.doc, lb) + OptionClicks(outcomes[n - 1])
      && (forall j | 0 <= j < n - 1 :: outcomes[j].None?)
      && (outcomes[n - 1].None? ==> n == MaxPolls)
  {
    var outcomes := PollOutcomes(s.doc, frames, lb, value);
    var p := Polls(s.doc, frames, lb, value);
    assert p == PollFrom(outcomes, 0);
    PollStopsAtFirstClick(outcomes, 0);
    assert DropAttempts(s.doc, question, value, frames) == p.attempts;
    assert FillDrop(s, question, value, frames).trace == s.trace + ExpandClicks(s.doc, lb) + OptionClicks(p.clicked);
  }

  /** A dropdown fill only appends to the trace, and without a re-render it keeps the document. */
  lemma FillDropExtends(s: State, question: string, value: string, frames: seq<Doc>)
    requires WellFormed(s.doc) && AllWellFormed(frames)
    ensures s.trace <= FillDrop(s, question, value, frames).trace
    ensures frames == [] ==> FillDrop(s, question, value, frames).doc == s.doc
  {
    FillDropCases(s, question, value, frames);
  }

  /** The listbox is clicked exactly when it is not expanded. */
  lemma ExpandClicksIffCollapsed(doc: Doc, lb: nat)
    requires lb < |doc|
    ensures ExpandClicks(doc, lb) == [] <==> doc[lb].ariaExpanded == "true"
    ensures ExpandClicks(doc, lb) != [] ==> ExpandClicks(doc, lb) == ClickEvents(lb)
  {
  }
}
