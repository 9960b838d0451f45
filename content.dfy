/**
 * The content script: the live page as an object whose document and event
 * trace the fill routines update in place, the fixed list of fields one run
 * fills, and the interval that repeats the run.
 */
module Content {
  import opened Wrappers
  import opened Dom
  import opened Fill
  import Locator
  import Dates
  import JsStrings

  /** The three user-configured fields read from the settings store ("" when never saved). */
  datatype Settings = Settings(internshipId: string, name: string, mobile: string)

  const InstituteName: string := "IIT Ropar"
  const ProfessorName: string := "Prof. Sudarshan Iyengar"
  const StartDate: string := "14-01-2026"
  const EndDate: string := "24-03-2026"
  const InternshipMode: string := "Virtual"
  const InternshipDuration: string := "10 weeks"

  /** `attempts > 10` clears the interval after its eleventh run. */
  const MaxRuns: nat := 11

  /** One run of `runAutofill` with what the store returned: None when the read failed. */
  function RunTick(s: State, settings: Option<Settings>): (r: State)
    requires WellFormed(s.doc)
    ensures WellFormed(r.doc)
  {
    match settings
    case None => s
    case Some(data) =>
      var s1 := FillText(s, "Internship ID", data.internshipId, false);
      var s2 := FillText(s1, "Your Name", data.name, false);
      var s3 := FillText(s2, "Mobile Number", data.mobile, false);
      var s4 := FillText(s3, "Institute offering", InstituteName, false);
      var s5 := FillText(s4, "Internship offering Professor", ProfessorName, false);
      var s6 := FillText(s5, "Internship start date", StartDate, true);
      var s7 := FillText(s6, "Internship end date", EndDate, true);
      var s8 := FillDrop(s7, "Mode of Internship", InternshipMode, []);
      FillDrop(s8, "Duration of Internship", InternshipDuration, [])
  }

  /** The state after the first `n` runs, run `k` seeing `storage(k)`. */
  function Runs(s: State, storage: nat -> Option<Settings>, n: nat): (r: State)
    requires WellFormed(s.doc)
    ensures WellFormed(r.doc)
  {
    if n == 0 then s else RunTick(Runs(s, storage, n - 1), storage(n - 1))
  }

  /**
   * A run changes only `value` properties of the page (the dropdown polls
   * see no re-render) and only appends to the trace.
   */
  lemma RunTickKeepsMarkup(s: State, settings: Option<Settings>)
    requires WellFormed(s.doc)
    ensures SameMarkup(s.doc, RunTick(s, settings).doc)
    ensures s.trace <= RunTick(s, settings).trace
  {
    if settings.Some? {
      var data := settings.value;
      var s1 := FillText(s, "Internship ID", data.internshipId, false);
      var s2 := FillText(s1, "Your Name", data.name, false);
      var s3 := FillText(s2, "Mobile Number", data.mobile, false);
      var s4 := FillText(s3, "Institute offering", InstituteName, false);
      var s5 := FillText(s4, "Internship offering Professor", ProfessorName, false);
      var s6 := FillText(s5, "Internship start date", StartDate, true);
      var s7 := FillText(s6, "Internship end date", EndDate, true);
      var s8 := FillDrop(s7, "Mode of Internship", InternshipMode, []);
      var s9 := FillDrop(s8, "Duration of Internship", InternshipDuration, []);
      assert RunTick(s, settings) == s9;
      FillTextExtends(s, "Internship ID", data.internshipId, false);
      FillTextExtends(s1, "Your Name", data.name, false);
      FillTextExtends(s2, "Mobile Number", data.mobile, false);
      FillTextExtends(s3, "Institute offering", InstituteName, false);
      FillTextExtends(s4, "Internship offering Professor", ProfessorName, false);
      FillTextExtends(s5, "Internship start date", StartDate, true);
      FillTextExtends(s6, "Internship end date", EndDate, true);
      FillDropExtends(s7, "Mode of Internship", InternshipMode, []);
      FillDropExtends(s8, "Duration of Internship", InternshipDuration, []);
      SameMarkupTrans(s.doc, s1.doc, s2.doc);
      SameMarkupTrans(s.doc, s2.doc, s3.doc);
      SameMarkupTrans(s.doc, s3.doc, s4.doc);
      SameMarkupTrans(s.doc, s4.doc, s5.doc);
      SameMarkupTrans(s.doc, s5.doc, s6.doc);
      SameMarkupTrans(s.doc, s6.doc, s7.doc);
    }
  }

  /** However many runs there are, the markup of the page is kept. */
  lemma {:induction false} RunsKeepMarkup(s: State, storage: nat -> Option<Settings>, n: nat)
    requires WellFormed(s.doc)
    ensures SameMarkup(s.doc, Runs(s, storage, n).doc)
  {
    if n > 0 {
      var prev := Runs(s, storage, n - 1);
      var next := RunTick(prev, storage(n - 1));
      assert Runs(s, storage, n) == next;
      RunsKeepMarkup(s, storage, n - 1);
      RunTickKeepsMarkup(prev, storage(n - 1));
      SameMarkupTrans(s.doc, prev.doc, next.doc);
    }
  }

  /** However many runs there are, the trace only grows. */
  lemma {:induction false} RunsExtendTrace(s: State, storage: nat -> Option<Settings>, n: nat)
    requires WellFormed(s.doc)
    ensures Extends(s.trace, Runs(s, storage, n).trace)
  {
    if n > 0 {
      var prev := Runs(s, storage, n - 1);
      var next := RunTick(prev, storage(n - 1));
      assert Runs(s, storage, n) == next;
      RunsExtendTrace(s, storage, n - 1);
      RunTickKeepsMarkup(prev, storage(n - 1));
      TracePrefixTrans(s.trace, prev.trace, next.trace);
    }
  }

  /** `t1` is `t0` followed by zero or more events. */
  predicate Extends(t0: seq<Event>, t1: seq<Event>) {
    t0 <= t1
  }

  lemma TracePrefixTrans(a: seq<Event>, b: seq<Event>, c: seq<Event>)
    requires Extends(a, b) && Extends(b, c)
    ensures Extends(a, c)
  {
    assert b[..|a|] == a && c[..|b|] == b;
    assert c[..|b|][..|a|] == c[..|a|];
  }

  /** A run whose settings read fails changes nothing. */
  lemma RunTickUnreachableStore(s: State)
    requires WellFormed(s.doc)
    ensures RunTick(s, None) == s
  {
  }

  /** When the store cannot be read at any run, the page is left exactly as it was. */
  lemma {:induction false} RunsUnreachableStore(s: State, storage: nat -> Option<Settings>, n: nat)
    requires WellFormed(s.doc)
    requires forall k: nat :: storage(k).None?
    ensures Runs(s, storage, n) == s
  {
    if n > 0 {
      RunsUnreachableStore(s, storage, n - 1);
    }
  }

  class Page {
    /** The live document. */
    var nodes: Doc
    /** Every event dispatched on the page so far, oldest first. */
    var trace: seq<Event>

    ghost predicate Valid()
      reads this
    {
      WellFormed(nodes)
    }

    function Snapshot(): State
      reads this
    {
      State(nodes, trace)
    }

    constructor (doc: Doc)
      requires WellFormed(doc)
      ensures Valid() && nodes == doc && trace == []
    {
      nodes := doc;
      trace := [];
    }

    /** `triggerClick`: dispatches mousedown, mouseup and click on node `t`. */
    method TriggerClick(t: nat)
      modifies this`trace
      ensures trace == old(trace) + ClickEvents(t)
    {
      for j := 0 to |ClickKinds|
        invariant trace == old(trace) + ClickEvents(t)[..j]
      {
        trace := trace + [Event(t, ClickKinds[j])];
      }
    }

    /**
     * The checks at the head of `fillByQuestion`: the field it writes, or
     * None when the value is empty, there is no container or field, or the
     * field already holds the final value.
     */
    method FindField(question: string, value: string, isDate: bool) returns (target: Option<nat>)
      requires Valid()
      ensures target == TextTarget(nodes, question, value, isDate)
    {
      if value == [] {
        return None;
      }
      var container := Locator.GetContainer(nodes, question);
      if container.None? {
        return None;
      }
      var input := Query(nodes, Within(container.value), FieldSel);
      if input.None? {
        return None;
      }
      var i := input.value;
      var finalValue := value;
      if isDate && IsDateInput(nodes[i]) {
        finalValue := Dates.FormatDateForInput(value);
      }
      if nodes[i].value == finalValue {
        return None;
      }
      return Some(i);
    }

    /** `fillByQuestion`: writes the final value into the field and dispatches `input` and `change`. */
    method FillByQuestion(question: string, value: string, isDate: bool)
      requires Valid()
      modifies this
      ensures Valid()
      ensures Snapshot() == FillText(old(Snapshot()), question, value, isDate)
    {
      var target := FindField(question, value, isDate);
      if target.None? {
        return;
      }
      var i := target.value;
      var finalValue := FinalValue(nodes[i], value, isDate);
      SetValueSameMarkup(nodes, i, finalValue);
      SameMarkupWellFormed(nodes, nodes[i := nodes[i].(value := finalValue)]);
      nodes := nodes[i := nodes[i].(value := finalValue)];
      trace := trace + [Event(i, InputEvent)];
      trace := trace + [Event(i, ChangeEvent)];
    }

    /** One `clickOption` poll: clicks the first qualifying candidate and says whether it did. */
    method ClickOption(listbox: nat, value: string) returns (clicked: bool)
      requires Valid()
      modifies this`trace
      ensures clicked == OptionToClick(nodes, listbox, value).Some?
      ensures trace == old(trace) + OptionClicks(OptionToClick(nodes, listbox, value))
    {
      var options := QueryAll(nodes, Within(listbox), OptionSel);
      if |options| < 2 {
        options := QueryAll(nodes, Everywhere, OptionSel);
      }
      assert options == Candidates(nodes, listbox);
      clicked := ClickFirst(options, value);
    }

    /**
     * The loop of `clickOption` over its candidates: clicks the first one that
     * stands for `value` and sits in the real list, then stops.
     */
    method ClickFirst(options: seq<nat>, value: string) returns (clicked: bool)
      requires Valid()
      requires forall p | 0 <= p < |options| :: options[p] < |nodes|
      modifies this`trace
      ensures var f := FirstClickable(nodes, options, value, 0);
        && clicked == f.Some?
        && trace == old(trace) + (if f.Some? then ClickEvents(options[f.value]) else [])
    {
      ghost var first := FirstClickable(nodes, options, value, 0);
      var k := 0;
      while k < |options|
        invariant 0 <= k <= |options|
        invariant FirstClickable(nodes, options, value, k) == first
        invariant trace == old(trace)
      {
        var opt := options[k];
        FirstClickableStep(nodes, options, value, k);
        if OptionMatches(nodes[opt], value) && InOptionList(nodes, opt) {
          TriggerClick(opt);
          return true;
        }
        k := k + 1;
      }
      return false;
    }

    /**
     * The host page before poll `k`: it shows `frames[k]`, or keeps the
     * document it shows once the frames run out.
     */
    method Rerender(ghost d0: Doc, frames: seq<Doc>, k: nat)
      requires WellFormed(d0) && AllWellFormed(frames)
      requires nodes == Shown(d0, frames, k)
      modifies this`nodes
      ensures nodes == Shown(d0, frames, k + 1)
    {
      if k < |frames| {
        nodes := frames[k];
      }
    }

    /**
     * The polling interval of `fillDropdown`: calls `clickOption` until it
     * clicks or its counter passes 10; the host page re-renders to
     * `frames[k]` before poll `k`. Returns how many times `clickOption` ran.
     */
    method PollOptions(listbox: nat, value: string, frames: seq<Doc>) returns (attempts: nat)
      requires Valid() && AllWellFormed(frames)
      modifies this
      ensures Valid()
      ensures var p := Polls(old(nodes), frames, listbox, value);
        && attempts == p.attempts
        && nodes == Shown(old(nodes), frames, p.attempts)
        && trace == old(trace) + OptionClicks(p.clicked)
    {
      ghost var d0, t0 := nodes, trace;
      ghost var outcomes := PollOutcomes(d0, frames, listbox, value);
      attempts := 0;
      while true
        invariant WellFormed(nodes) && attempts < MaxPolls && trace == t0
        invariant nodes == Shown(d0, frames, attempts)
        invariant PollFrom(outcomes, attempts) == PollFrom(outcomes, 0)
        decreases MaxPolls - attempts
      {
        Rerender(d0, frames, attempts);
        PollOutcomesAt(d0, frames, listbox, value, attempts);
        PollFromStep(outcomes, attempts);
        attempts := attempts + 1;
        var ok := ClickOption(listbox, value);
        if ok || attempts > 10 {
          break;
        }
      }
    }

    /**
     * The checks at the head of `fillDropdown`: the listbox it goes on to
     * open, or None when the value is empty, there is no container or
     * listbox, or the value is already shown as selected.
     */
    method FindDropdown(question: string, value: string) returns (target: Option<nat>)
      requires Valid()
      ensures target == DropdownListbox(nodes, question, value)
    {
      if value == [] {
        return None;
      }
      var container := Locator.GetContainer(nodes, question);
      if container.None? {
        return None;
      }
      var listbox := Query(nodes, Within(container.value), ListboxSel);
      if listbox.None? {
        return None;
      }
      var lb := listbox.value;
      assert ListboxOf(nodes, question) == Some(lb);
      var selectedOption := Query(nodes, Within(lb), SelectedOptionSel);
      if selectedOption.Some? {
        var o := selectedOption.value;
        if nodes[o].dataValue == Some(value) || JsStrings.Trim(nodes[o].text) == value {
          return None;
        }
      } else {
        var displayArea := Query(nodes, Within(lb), DisplayAreaSel);
        if displayArea.Some? && JsStrings.Includes(nodes[displayArea.value].text, value) {
          return None;
        }
      }
      return Some(lb);
    }

    /** `fillDropdown`; returns how many times `clickOption` ran. */
    method FillDropdown(question: string, value: string, frames: seq<Doc>) returns (attempts: nat)
      requires Valid() && AllWellFormed(frames)
      modifies this
      ensures Valid()
      ensures Snapshot() == FillDrop(old(Snapshot()), question, value, frames)
      ensures attempts == DropAttempts(old(nodes), question, value, frames)
    {
      ghost var s0 := Snapshot();
      FillDropCases(s0, question, value, frames);
      var target := FindDropdown(question, value);
      if target.None? {
        return 0;
      }
      var lb := target.value;
      ghost var p := Polls(s0.doc, frames, lb, value);
      var isExpanded := nodes[lb].ariaExpanded == "true";
      if !isExpanded {
        TriggerClick(lb);
      }
      assert trace == s0.trace + ExpandClicks(s0.doc, lb);
      attempts := PollOptions(lb, value, frames);
      assert Snapshot() == State(Shown(s0.doc, frames, p.attempts), s0.trace + ExpandClicks(s0.doc, lb) + OptionClicks(p.clicked));
    }

    /** `runAutofill` with what the settings store returned: None when the read failed. */
    method RunAutofill(settings: Option<Settings>)
      requires Valid()
      modifies this
      ensures Valid()
      ensures Snapshot() == RunTick(old(Snapshot()), settings)
    {
      if settings.None? {
        return;
      }
      var data := settings.value;
      FillByQuestion("Internship ID", data.internshipId, false);
      FillByQuestion("Your Name", data.name, false);
      FillByQuestion("Mobile Number", data.mobile, false);
      FillByQuestion("Institute offering", InstituteName, false);
      FillByQuestion("Internship offering Professor", ProfessorName, false);
      FillByQuestion("Internship start date", StartDate, true);
      FillByQuestion("Internship end date", EndDate, true);
      var modePolls := FillDropdown("Mode of Internship", InternshipMode, []);
      var durationPolls := FillDropdown("Duration of Internship", InternshipDuration, []);
    }

    /**
     * The interval at the end of the script: runs `runAutofill` until its
     * counter passes 10, run `k` reading `storage(k)` from the settings store.
     */
    method Autofill(storage: nat -> Option<Settings>) returns (runs: nat)
      requires Valid()
      modifies this
      ensures Valid()
      ensures runs == MaxRuns
      ensures Snapshot() == Runs(old(Snapshot()), storage, runs)
    {
      runs := 0;
      var cleared := false;
      while !cleared
        invariant Valid()
        invariant !cleared ==> runs < MaxRuns
        invariant cleared ==> runs == MaxRuns
        invariant Snapshot() == Runs(old(Snapshot()), storage, runs)
        decreases MaxRuns - runs
      {
        RunAutofill(storage(runs));
        runs := runs + 1;
        if runs > 10 {
          cleared := true;
        }
      }
    }
  }
}
