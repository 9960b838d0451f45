/**
 * `getContainer`: finds the first question heading whose text mentions the
 * label and the element around it that holds the question's control.
 */
module Locator {
  import opened Wrappers
  import opened Dom
  import JsStrings

  /** A heading with non-empty text whose lower-cased text includes the lower-cased question. */
  predicate IsQuestionHeading(n: Node, question: string) {
    && Matches(n, HeadingSel)
    && n.text != []
    && JsStrings.Includes(JsStrings.ToLowerCase(n.text), JsStrings.ToLowerCase(question))
  }

  function FirstQuestionHeadingFrom(doc: Doc, question: string, from: nat): (r: Option<nat>)
    decreases |doc| - from
    ensures r.Some? ==> from <= r.value < |doc| && IsQuestionHeading(doc[r.value], question)
    ensures r.Some? ==> forall j | from <= j < r.value :: !IsQuestionHeading(doc[j], question)
    ensures r.None? ==> forall j | from <= j < |doc| :: !IsQuestionHeading(doc[j], question)
  {
    if from >= |doc| then None
    else if IsQuestionHeading(doc[from], question) then Some(from)
    else FirstQuestionHeadingFrom(doc, question, from + 1)
  }

  /** The first heading in document order that mentions the question. */
  function FirstQuestionHeading(doc: Doc, question: string): Option<nat> {
    FirstQuestionHeadingFrom(doc, question, 0)
  }

  /** The element holds an input, a text area or a listbox. */
  predicate HasControl(doc: Doc, a: nat)
    requires WellFormed(doc)
  {
    Query(doc, Within(a), ControlSel).Some?
  }

  /** The fallback walk: the `n`-th to the 5th ancestor of `h`, the first that holds a control. */
  function Fallback(doc: Doc, h: nat, n: nat): (r: Option<nat>)
    requires WellFormed(doc) && h < |doc| && 1 <= n
    decreases 6 - n
    ensures r.Some? ==> IsAncestor(doc, r.value, h) && HasControl(doc, r.value)
  {
    if n > 5 then None
    else match Up(doc, h, n)
      case None => None
      case Some(a) => if HasControl(doc, a) then Some(a) else Fallback(doc, h, n + 1)
  }

  /** The container of heading `h`: the nearest list item, else the fallback walk. */
  function ContainerOf(doc: Doc, h: nat): (r: Option<nat>)
    requires WellFormed(doc) && h < |doc|
    ensures r.Some? ==> IsAncestorOrSelf(doc, r.value, h)
  {
    ClosestIsNearest(doc, h, ListItemSel);
    match Closest(doc, h, ListItemSel)
    case Some(c) => Some(c)
    case None => Fallback(doc, h, 1)
  }

  /** What `getContainer(question)` returns: the container of the first matching heading. */
  function Container(doc: Doc, question: string): (r: Option<nat>)
    requires WellFormed(doc)
    ensures r.Some? ==> FirstQuestionHeading(doc, question).Some?
    ensures r.Some? ==> IsAncestorOrSelf(doc, r.value, FirstQuestionHeading(doc, question).value)
  {
    match FirstQuestionHeading(doc, question)
    case None => None
    case Some(h) => ContainerOf(doc, h)
  }

  /** Only the first matching heading is used, even when it yields no container. */
  lemma ContainerUsesFirstHeading(doc: Doc, question: string, h: nat)
    requires WellFormed(doc) && h < |doc| && IsQuestionHeading(doc[h], question)
    requires forall j | 0 <= j < h :: !IsQuestionHeading(doc[j], question)
    ensures Container(doc, question) == ContainerOf(doc, h)
  {
  }

  /**
   * Heading matching ignores the case of ASCII letters, in the heading's
   * text and in the question alike.
   */
  lemma QuestionHeadingIgnoresCase(n: Node, m: Node, q1: string, q2: string)
    requires m == n.(text := m.text)
    requires JsStrings.SameUpToCase(n.text, m.text) && JsStrings.SameUpToCase(q1, q2)
    ensures IsQuestionHeading(n, q1) == IsQuestionHeading(m, q2)
  {
    JsStrings.SameUpToCaseLowersEqual(n.text, m.text);
    JsStrings.SameUpToCaseLowersEqual(q1, q2);
  }

  lemma {:induction false} FirstQuestionHeadingIgnoresCase(doc: Doc, q1: string, q2: string, from: nat)
    requires JsStrings.SameUpToCase(q1, q2)
    ensures FirstQuestionHeadingFrom(doc, q1, from) == FirstQuestionHeadingFrom(doc, q2, from)
    decreases |doc| - from
  {
    if from < |doc| {
      QuestionHeadingIgnoresCase(doc[from], doc[from], q1, q2);
      FirstQuestionHeadingIgnoresCase(doc, q1, q2, from + 1);
    }
  }

  /** Two questions that differ only in letter case find the same container. */
  lemma ContainerIgnoresCase(doc: Doc, q1: string, q2: string)
    requires WellFormed(doc) && JsStrings.SameUpToCase(q1, q2)
    ensures Container(doc, q1) == Container(doc, q2)
  {
    FirstQuestionHeadingIgnoresCase(doc, q1, q2, 0);
  }

  /** No matching heading, no container. */
  lemma ContainerNeedsHeading(doc: Doc, question: string)
    requires WellFormed(doc)
    requires forall j | 0 <= j < |doc| :: !IsQuestionHeading(doc[j], question)
    ensures Container(doc, question) == None
  {
  }

  lemma {:induction false} UpNoneStaysNone(doc: Doc, h: nat, n: nat, m: nat)
    requires WellFormed(doc) && h < |doc| && n <= m && Up(doc, h, n).None?
    ensures Up(doc, h, m).None?
    decreases m - n
  {
    if n < m {
      UpStep(doc, h, n);
      UpNoneStaysNone(doc, h, n + 1, m);
    }
  }

  /** Every ancestor of `h` at distance `n` up to (not including) `m` exists and holds no control. */
  predicate NoControlBetween(doc: Doc, h: nat, n: nat, m: nat)
    requires WellFormed(doc) && h < |doc|
  {
    forall k | n <= k < m :: Up(doc, h, k).Some? && !HasControl(doc, Up(doc, h, k).value)
  }

  /**
   * A fallback result is the first ancestor at distance `n` to 5 from `h`
   * that holds a control; the lemma returns that distance.
   */
  lemma {:induction false} FallbackFound(doc: Doc, h: nat, n: nat) returns (m: nat)
    requires WellFormed(doc) && h < |doc| && 1 <= n && Fallback(doc, h, n).Some?
    decreases 6 - n
    ensures n <= m <= 5 && Up(doc, h, m) == Fallback(doc, h, n)
    ensures HasControl(doc, Fallback(doc, h, n).value)
    ensures NoControlBetween(doc, h, n, m)
  {
    var a := Up(doc, h, n).value;
    if HasControl(doc, a) {
      m := n;
    } else {
      m := FallbackFound(doc, h, n + 1);
    }
  }

  /** No fallback result: none of the ancestors at distance `n` to 5 holds a control. */
  lemma {:induction false} FallbackNone(doc: Doc, h: nat, n: nat)
    requires WellFormed(doc) && h < |doc| && 1 <= n && Fallback(doc, h, n).None?
    decreases 6 - n
    ensures forall m | n <= m <= 5 :: Up(doc, h, m).Some? ==> !HasControl(doc, Up(doc, h, m).value)
  {
    if n <= 5 {
      if Up(doc, h, n).None? {
        forall m | n <= m <= 5 ensures Up(doc, h, m).None? {
          UpNoneStaysNone(doc, h, n, m);
        }
      } else {
        FallbackNone(doc, h, n + 1);
      }
    }
  }

  /** The headings before position `k` of the heading list are all the headings before `headings[k]`. */
  lemma HeadingListed(doc: Doc, headings: seq<nat>, k: nat, j: nat)
    requires WellFormed(doc) && headings == QueryAll(doc, Everywhere, HeadingSel)
    requires k <= |headings| && j < |doc| && Matches(doc[j], HeadingSel)
    requires k < |headings| ==> j < headings[k]
    ensures exists p | 0 <= p < k :: headings[p] == j
  {
    QueryAllIsComplete(doc, Everywhere, HeadingSel);
    assert Hit(doc, Everywhere, HeadingSel, j);
    var p :| 0 <= p < |headings| && headings[p] == j;
    assert p < k;
  }

  lemma {:induction false} FirstQuestionHeadingSameMarkup(d1: Doc, d2: Doc, question: string, from: nat)
    requires WellFormed(d1) && WellFormed(d2) && SameMarkup(d1, d2)
    ensures FirstQuestionHeadingFrom(d1, question, from) == FirstQuestionHeadingFrom(d2, question, from)
    decreases |d1| - from
  {
    if from < |d1| {
      MatchesIgnoresValue(d1[from], d2[from], HeadingSel);
      FirstQuestionHeadingSameMarkup(d1, d2, question, from + 1);
    }
  }

  lemma {:induction false} FallbackSameMarkup(d1: Doc, d2: Doc, h: nat, n: nat)
    requires WellFormed(d1) && WellFormed(d2) && SameMarkup(d1, d2) && h < |d1| && 1 <= n
    ensures Fallback(d1, h, n) == Fallback(d2, h, n)
    decreases 6 - n
  {
    if n <= 5 {
      UpSameMarkup(d1, d2, h, n);
      if Up(d1, h, n).Some? {
        QuerySameMarkup(d1, d2, Within(Up(d1, h, n).value), ControlSel);
        FallbackSameMarkup(d1, d2, h, n + 1);
      }
    }
  }

  /** The container does not depend on the `value` properties of the page. */
  lemma ContainerSameMarkup(d1: Doc, d2: Doc, question: string)
    requires WellFormed(d1) && SameMarkup(d1, d2)
    ensures WellFormed(d2)
    ensures Container(d1, question) == Container(d2, question)
  {
    SameMarkupWellFormed(d1, d2);
    FirstQuestionHeadingSameMarkup(d1, d2, question, 0);
    var h := FirstQuestionHeading(d1, question);
    if h.Some? {
      ClosestSameMarkup(d1, d2, h.value, ListItemSel);
      FallbackSameMarkup(d1, d2, h.value, 1);
    }
  }

  /** `getContainer`: scans the headings in document order and resolves the first match. */
  method GetContainer(doc: Doc, question: string) returns (container: Option<nat>)
    requires WellFormed(doc)
    ensures container == Container(doc, question)
  {
    var term := JsStrings.ToLowerCase(question);
    var headings := QueryAll(doc, Everywhere, HeadingSel);
    var k := 0;
    while k < |headings|
      invariant 0 <= k <= |headings|
      invariant forall p | 0 <= p < k :: !IsQuestionHeading(doc[headings[p]], question)
    {
      var h := headings[k];
      if doc[h].text != [] && JsStrings.Includes(JsStrings.ToLowerCase(doc[h].text), term) {
        forall j | 0 <= j < h ensures !IsQuestionHeading(doc[j], question) {
          if Matches(doc[j], HeadingSel) {
            HeadingListed(doc, headings, k, j);
          }
        }
        ContainerUsesFirstHeading(doc, question, h);
        container := Closest(doc, h, ListItemSel);
        if container.None? {
          var parent := doc[h].parent;
          var i := 0;
          while i < 5 && parent.Some?
            invariant 0 <= i <= 5
            invariant parent == Up(doc, h, i + 1)
            invariant container.None?
            invariant Fallback(doc, h, i + 1) == Fallback(doc, h, 1)
          {
            if Query(doc, Within(parent.value), ControlSel).Some? {
              container := parent;
              break;
            }
            UpStep(doc, h, i + 1);
            parent := doc[parent.value].parent;
            i := i + 1;
          }
        }
        return;
      }
      k := k + 1;
    }
    forall j | 0 <= j < |doc| ensures !IsQuestionHeading(doc[j], question) {
      if Matches(doc[j], HeadingSel) {
        HeadingListed(doc, headings, k, j);
      }
    }
    container := None;
  }
}
