/**
 * A snapshot of the page: its element nodes in document order, each pointing
 * at its parent, and the handful of selector queries the engine runs
 * (`querySelector`, `querySelectorAll`, `closest`, `parentElement`).
 */
module Dom {
  import opened Wrappers
  import JsStrings

  datatype Tag = Div | Input | TextArea | OtherTag

  /** The `role` attribute: the values the engine looks for, and any other. */
  datatype Role = NoRole | Heading | ListItem | Listbox | OptionRole | OtherRole

  datatype Node = Node(
    parent: Option<nat>,        // index of the parent element, None at the root
    tag: Tag,
    role: Role,
    text: string,               // the rendered text (`innerText`)
    value: string,              // the `value` property of an input or text area
    typeAttr: string,           // the `type` attribute ("" when absent)
    dataValue: Option<string>,  // the `data-value` attribute
    ariaSelected: string,       // the `aria-selected` attribute ("" when absent)
    ariaExpanded: string,       // the `aria-expanded` attribute ("" when absent)
    jsname: string)             // the `jsname` attribute ("" when absent)

  type Doc = seq<Node>

  /** Every parent comes before its children in document order. */
  predicate WellFormed(doc: Doc) {
    forall i | 0 <= i < |doc| :: doc[i].parent.Some? ==> doc[i].parent.value < i
  }

  /** `a` is a proper ancestor of `i`: it is reached by following parent links up from `i`. */
  predicate IsAncestor(doc: Doc, a: nat, i: nat)
    requires WellFormed(doc)
    decreases i
  {
    && i < |doc|
    && doc[i].parent.Some?
    && (doc[i].parent.value == a || IsAncestor(doc, a, doc[i].parent.value))
  }

  predicate IsAncestorOrSelf(doc: Doc, a: nat, i: nat)
    requires WellFormed(doc)
  {
    (a == i && i < |doc|) || IsAncestor(doc, a, i)
  }

  /** An ancestor comes before its descendants, so no node is its own ancestor. */
  lemma {:induction false} AncestorPrecedes(doc: Doc, a: nat, i: nat)
    requires WellFormed(doc) && IsAncestor(doc, a, i)
    ensures a < i
  {
    var p := doc[i].parent.value;
    if p != a {
      AncestorPrecedes(doc, a, p);
    }
  }

  /** The `jsname` of the collapsed display area of a Google Forms listbox. */
  const DisplayAreaName: string := "d9BH4c"

  /** The CSS selectors the engine uses. */
  datatype Selector =
    | HeadingSel          // div[role="heading"]
    | ListItemSel         // [role="listitem"]
    | ControlSel          // input, textarea, div[role="listbox"]
    | FieldSel            // input:not([type='hidden']), textarea
    | ListboxSel          // div[role="listbox"]
    | OptionSel           // div[role="option"]
    | SelectedOptionSel   // div[role="option"][aria-selected="true"]
    | DisplayAreaSel      // div[jsname="d9BH4c"]

  /** HTML compares the `type` attribute case-insensitively. */
  predicate HasType(n: Node, t: string) {
    JsStrings.ToLowerCase(n.typeAttr) == t
  }

  predicate Matches(n: Node, sel: Selector) {
    match sel
    case HeadingSel => n.tag == Div && n.role == Heading
    case ListItemSel => n.role == ListItem
    case ControlSel => n.tag == Input || n.tag == TextArea || (n.tag == Div && n.role == Listbox)
    case FieldSel => (n.tag == Input && !HasType(n, "hidden")) || n.tag == TextArea
    case ListboxSel => n.tag == Div && n.role == Listbox
    case OptionSel => n.tag == Div && n.role == OptionRole
    case SelectedOptionSel => n.tag == Div && n.role == OptionRole && n.ariaSelected == "true"
    case DisplayAreaSel => n.tag == Div && n.jsname == DisplayAreaName
  }

  /** Where a query looks: the whole document, or the descendants of one element. */
  datatype Scope = Everywhere | Within(root: nat)

  /** Node `j` is one of the results of the query `sel` over `scope`. */
  predicate Hit(doc: Doc, scope: Scope, sel: Selector, j: nat)
    requires WellFormed(doc)
  {
    && j < |doc|
    && (scope.Within? ==> IsAncestor(doc, scope.root, j))
    && Matches(doc[j], sel)
  }

  function QueryAllFrom(doc: Doc, scope: Scope, sel: Selector, from: nat): (r: seq<nat>)
    requires WellFormed(doc)
    decreases |doc| - from
    ensures forall p | 0 <= p < |r| :: from <= r[p] && Hit(doc, scope, sel, r[p])
  {
    if from >= |doc| then []
    else if Hit(doc, scope, sel, from) then [from] + QueryAllFrom(doc, scope, sel, from + 1)
    else QueryAllFrom(doc, scope, sel, from + 1)
  }

  /** `querySelectorAll`: every hit, in document order (see `QueryAllIsComplete`). */
  function QueryAll(doc: Doc, scope: Scope, sel: Selector): (r: seq<nat>)
    requires WellFormed(doc)
    ensures forall p | 0 <= p < |r| :: Hit(doc, scope, sel, r[p])
  {
    QueryAllFrom(doc, scope, sel, 0)
  }

  lemma {:induction false} QueryAllFromIsComplete(doc: Doc, scope: Scope, sel: Selector, from: nat)
    requires WellFormed(doc)
    decreases |doc| - from
    ensures forall j | from <= j && Hit(doc, scope, sel, j) :: j in QueryAllFrom(doc, scope, sel, from)
  {
    if from < |doc| {
      QueryAllFromIsComplete(doc, scope, sel, from + 1);
    }
  }

  /** The indices in `r` strictly increase: document order, no repeats. */
  predicate Increasing(r: seq<nat>)
  {
    forall p, q | 0 <= p < q < |r| :: r[p] < r[q]
  }

  lemma {:induction false} QueryAllFromIsSorted(doc: Doc, scope: Scope, sel: Selector, from: nat)
    requires WellFormed(doc)
    decreases |doc| - from
    ensures Increasing(QueryAllFrom(doc, scope, sel, from))
  {
    if from < |doc| {
      QueryAllFromIsSorted(doc, scope, sel, from + 1);
      var rest := QueryAllFrom(doc, scope, sel, from + 1);
      if Hit(doc, scope, sel, from) {
        var r := [from] + rest;
        assert r == QueryAllFrom(doc, scope, sel, from);
        forall p, q | 0 <= p < q < |r| ensures r[p] < r[q] {
          assert r[q] == rest[q - 1] && from + 1 <= rest[q - 1];
          if p > 0 {
            assert r[p] == rest[p - 1];
          }
        }
      }
    }
  }

  /** `querySelectorAll` lists every hit, each once, in document order. */
  lemma QueryAllIsComplete(doc: Doc, scope: Scope, sel: Selector)
    requires WellFormed(doc)
    ensures forall j | Hit(doc, scope, sel, j) :: j in QueryAll(doc, scope, sel)
    ensures Increasing(QueryAll(doc, scope, sel))
  {
    QueryAllFromIsComplete(doc, scope, sel, 0);
    QueryAllFromIsSorted(doc, scope, sel, 0);
    assert QueryAll(doc, scope, sel) == QueryAllFrom(doc, scope, sel, 0);
  }

  /** `querySelector`: the first hit in document order, if any (see `QueryIsFirst`). */
  function Query(doc: Doc, scope: Scope, sel: Selector): (r: Option<nat>)
    requires WellFormed(doc)
    ensures r.Some? ==> Hit(doc, scope, sel, r.value)
  {
    var all := QueryAll(doc, scope, sel);
    if all == [] then None else Some(all[0])
  }

  /** `querySelector` finds the first hit in document order, and nothing only when there is no hit. */
  lemma QueryIsFirst(doc: Doc, scope: Scope, sel: Selector)
    requires WellFormed(doc)
    ensures var r := Query(doc, scope, sel);
      && (r.Some? ==> forall j | 0 <= j < r.value :: !Hit(doc, scope, sel, j))
      && (r.None? ==> forall j :: !Hit(doc, scope, sel, j))
  {
    QueryAllIsComplete(doc, scope, sel);
  }

  /** `closest`: the element itself or its nearest matching ancestor (see `ClosestIsNearest`). */
  function Closest(doc: Doc, i: nat, sel: Selector): (r: Option<nat>)
    requires WellFormed(doc) && i < |doc|
    decreases i
    ensures r.Some? ==> r.value <= i && Matches(doc[r.value], sel)
  {
    if Matches(doc[i], sel) then Some(i)
    else
      match doc[i].parent
      case None => None
      case Some(p) => Closest(doc, p, sel)
  }

  /**
   * `closest` returns the element itself or an ancestor that matches, and no
   * node on the way up from `i` to it matches; None only when nothing on the
   * way to the root matches.
   */
  lemma {:induction false} ClosestIsNearest(doc: Doc, i: nat, sel: Selector)
    requires WellFormed(doc) && i < |doc|
    decreases i
    ensures var r := Closest(doc, i, sel);
      && (r.Some? ==> IsAncestorOrSelf(doc, r.value, i))
      && (r.Some? ==> forall k | 0 <= k < |doc| && IsAncestor(doc, r.value, k) && IsAncestorOrSelf(doc, k, i) :: !Matches(doc[k], sel))
      && (r.None? ==> forall k | 0 <= k < |doc| && IsAncestorOrSelf(doc, k, i) :: !Matches(doc[k], sel))
  {
    if Matches(doc[i], sel) {
      forall k | 0 <= k < |doc| && IsAncestor(doc, i, k) && IsAncestorOrSelf(doc, k, i) ensures false {
        AncestorPrecedes(doc, i, k);
        if k != i { AncestorPrecedes(doc, k, i); }
      }
    } else if doc[i].parent.Some? {
      ClosestIsNearest(doc, doc[i].parent.value, sel);
    }
  }

  /** The `n`-th ancestor of `i` (`parentElement` applied `n` times). */
  function Up(doc: Doc, i: nat, n: nat): (r: Option<nat>)
    requires WellFormed(doc) && i < |doc|
    decreases n
    ensures r.Some? ==> r.value < |doc|
    ensures r.Some? && n == 0 ==> r.value == i
    ensures r.Some? && n > 0 ==> IsAncestor(doc, r.value, i)
  {
    if n == 0 then Some(i)
    else match doc[i].parent
      case None => None
      case Some(p) => Up(doc, p, n - 1)
  }

  /** One more step up is the parent of the last step. */
  lemma {:induction false} UpStep(doc: Doc, i: nat, n: nat)
    requires WellFormed(doc) && i < |doc|
    ensures Up(doc, i, n + 1) == if Up(doc, i, n).Some? then doc[Up(doc, i, n).value].parent else None
  {
    if n > 0 && doc[i].parent.Some? {
      UpStep(doc, doc[i].parent.value, n - 1);
    }
  }

  /** A node with its `value` property cleared: what the queries look at. */
  function Markup(n: Node): Node {
    n.(value := "")
  }

  /** Two snapshots that differ at most in the `value` properties of their nodes. */
  predicate SameMarkup(d1: Doc, d2: Doc) {
    |d1| == |d2| && forall k | 0 <= k < |d1| :: Markup(d1[k]) == Markup(d2[k])
  }

  lemma SameMarkupWellFormed(d1: Doc, d2: Doc)
    requires WellFormed(d1) && SameMarkup(d1, d2)
    ensures WellFormed(d2)
  {
    forall i | 0 <= i < |d2| ensures d2[i].parent == d1[i].parent {
      assert Markup(d1[i]).parent == Markup(d2[i]).parent;
    }
  }

  lemma SameMarkupTrans(d1: Doc, d2: Doc, d3: Doc)
    requires SameMarkup(d1, d2) && SameMarkup(d2, d3)
    ensures SameMarkup(d1, d3)
  {
  }

  /** Writing one node's `value` keeps the markup. */
  lemma SetValueSameMarkup(d: Doc, i: nat, v: string)
    requires i < |d|
    ensures SameMarkup(d, d[i := d[i].(value := v)])
  {
  }

  lemma MatchesIgnoresValue(n: Node, m: Node, sel: Selector)
    requires Markup(n) == Markup(m)
    ensures Matches(n, sel) == Matches(m, sel)
    ensures n.parent == m.parent && n.text == m.text
  {
    assert n.tag == Markup(n).tag && m.tag == Markup(m).tag;
    assert n.role == Markup(n).role && m.role == Markup(m).role;
    assert n.typeAttr == Markup(n).typeAttr && m.typeAttr == Markup(m).typeAttr;
    assert n.ariaSelected == Markup(n).ariaSelected && m.ariaSelected == Markup(m).ariaSelected;
    assert n.jsname == Markup(n).jsname && m.jsname == Markup(m).jsname;
    assert n.parent == Markup(n).parent && m.parent == Markup(m).parent;
    assert n.text == Markup(n).text && m.text == Markup(m).text;
  }

  lemma {:induction false} AncestorSameMarkup(d1: Doc, d2: Doc, a: nat, i: nat)
    requires WellFormed(d1) && WellFormed(d2) && SameMarkup(d1, d2)
    ensures IsAncestor(d1, a, i) == IsAncestor(d2, a, i)
    decreases i
  {
    if i < |d1| {
      MatchesIgnoresValue(d1[i], d2[i], HeadingSel);
      if d1[i].parent.Some? {
        AncestorSameMarkup(d1, d2, a, d1[i].parent.value);
      }
    }
  }

  lemma HitSameMarkup(d1: Doc, d2: Doc, scope: Scope, sel: Selector, j: nat)
    requires WellFormed(d1) && WellFormed(d2) && SameMarkup(d1, d2)
    ensures Hit(d1, scope, sel, j) == Hit(d2, scope, sel, j)
  {
    if j < |d1| {
      MatchesIgnoresValue(d1[j], d2[j], sel);
      if scope.Within? {
        AncestorSameMarkup(d1, d2, scope.root, j);
      }
    }
  }

  lemma {:induction false} QueryAllFromSameMarkup(d1: Doc, d2: Doc, scope: Scope, sel: Selector, from: nat)
    requires WellFormed(d1) && WellFormed(d2) && SameMarkup(d1, d2)
    ensures QueryAllFrom(d1, scope, sel, from) == QueryAllFrom(d2, scope, sel, from)
    decreases |d1| - from
  {
    if from < |d1| {
      HitSameMarkup(d1, d2, scope, sel, from);
      QueryAllFromSameMarkup(d1, d2, scope, sel, from + 1);
    }
  }

  /** Queries do not look at `value` properties. */
  lemma QuerySameMarkup(d1: Doc, d2: Doc, scope: Scope, sel: Selector)
    requires WellFormed(d1) && WellFormed(d2) && SameMarkup(d1, d2)
    ensures QueryAll(d1, scope, sel) == QueryAll(d2, scope, sel)
    ensures Query(d1, scope, sel) == Query(d2, scope, sel)
  {
    QueryAllFromSameMarkup(d1, d2, scope, sel, 0);
  }

  lemma {:induction false} ClosestSameMarkup(d1: Doc, d2: Doc, i: nat, sel: Selector)
    requires WellFormed(d1) && WellFormed(d2) && SameMarkup(d1, d2) && i < |d1|
    ensures Closest(d1, i, sel) == Closest(d2, i, sel)
    decreases i
  {
    MatchesIgnoresValue(d1[i], d2[i], sel);
    if d1[i].parent.Some? {
      ClosestSameMarkup(d1, d2, d1[i].parent.value, sel);
    }
  }

  lemma {:induction false} UpSameMarkup(d1: Doc, d2: Doc, i: nat, n: nat)
    requires WellFormed(d1) && WellFormed(d2) && SameMarkup(d1, d2) && i < |d1|
    ensures Up(d1, i, n) == Up(d2, i, n)
    decreases n
  {
    MatchesIgnoresValue(d1[i], d2[i], HeadingSel);
    if n > 0 && d1[i].parent.Some? {
      UpSameMarkup(d1, d2, d1[i].parent.value, n - 1);
    }
  }
}
