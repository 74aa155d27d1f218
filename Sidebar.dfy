/** The dashboard sidebar: its list of expanded node keys, the toggle that
    edits it, and the rows it renders from the menu forest. */
module Sidebar {
  import opened TreeMenu

  // ---------------------------------------------------------------------------
  // toggleExpand
  // ---------------------------------------------------------------------------

  /** The list with every occurrence of `x` dropped, the rest in order. */
  function RemoveAll(s: seq<string>, x: string): (r: seq<string>)
    ensures x !in r
    ensures multiset(r) == multiset(s)[x := 0]
    ensures IsSubsequence(r, s)
    decreases s
  {
    if s == [] then []
    else
      var rest := RemoveAll(s[1..], x);
      assert s == [s[0]] + s[1..];
      if s[0] == x then rest else [s[0]] + rest
  }

  /** `a` is `b` with some entries left out, the rest in their order. */
  predicate IsSubsequence(a: seq<string>, b: seq<string>)
    decreases b
  {
    if a == [] then true
    else if b == [] then false
    else if a[0] == b[0] then IsSubsequence(a[1..], b[1..])
    else IsSubsequence(a, b[1..])
  }

  /** The expanded list after a press on the toggle of `id`: without `id` if
      it was there, otherwise with `id` added at the end. */
  function Toggle(prev: seq<string>, id: string): (r: seq<string>)
    ensures id in prev ==>
      id !in r && multiset(r) == multiset(prev)[id := 0] && IsSubsequence(r, prev)
    ensures id !in prev ==> r == prev + [id]
    ensures id in r <==> id !in prev
  {
    if id in prev then RemoveAll(prev, id) else prev + [id]
  }

  /** No key occurs twice. */
  ghost predicate Distinct(s: seq<string>)
  {
    forall x :: multiset(s)[x] <= 1
  }

  /** Starting from the empty list, the expanded keys never repeat. */
  lemma ToggleKeepsDistinct(prev: seq<string>, id: string)
    requires Distinct(prev)
    ensures Distinct(Toggle(prev, id))
  {
  }

  lemma {:induction false} RemoveAllAbsent(s: seq<string>, x: string)
    requires x !in s
    ensures RemoveAll(s, x) == s
    decreases s
  {
    if s != [] {
      RemoveAllAbsent(s[1..], x);
    }
  }

  lemma {:induction false} RemoveAllAppend(a: seq<string>, b: seq<string>, x: string)
    ensures RemoveAll(a + b, x) == RemoveAll(a, x) + RemoveAll(b, x)
    decreases a
  {
    if a == [] {
      assert a + b == b;
    } else {
      assert (a + b)[0] == a[0] && (a + b)[1..] == a[1..] + b;
      RemoveAllAppend(a[1..], b, x);
    }
  }

  /** Toggling an absent key twice restores the list exactly. */
  lemma ToggleTwiceAbsent(prev: seq<string>, id: string)
    requires id !in prev
    ensures Toggle(Toggle(prev, id), id) == prev
  {
    RemoveAllAppend(prev, [id], id);
    RemoveAllAbsent(prev, id);
    assert RemoveAll([id], id) == [];
  }

  /** Toggling a present key twice restores the same set of keys, with that
      key moved to the end. */
  lemma ToggleTwicePresent(prev: seq<string>, id: string)
    requires id in prev
    ensures Toggle(Toggle(prev, id), id) == RemoveAll(prev, id) + [id]
    ensures forall x :: x in Toggle(Toggle(prev, id), id) <==> x in prev
  {
    var once := Toggle(prev, id);
    assert forall x :: x in once <==> x in multiset(once);
    assert forall x :: x in prev <==> x in multiset(prev);
  }

  /** Toggling "1" on the empty list expands it; toggling again collapses it. */
  lemma ToggleExample()
    ensures Toggle([], "1") == ["1"] && Toggle(Toggle([], "1"), "1") == []
  {
    assert RemoveAll(["1"], "1") == RemoveAll([], "1");
  }

  // ---------------------------------------------------------------------------
  // renderTree
  // ---------------------------------------------------------------------------

  /** What a row shows: a toggle button with its chevron state, or a link. */
  datatype RowKind = ToggleButton(expanded: bool) | Link(href: string)

  /** One rendered `div`: the node's name, its depth and `paddingLeft`. */
  datatype Row = Row(name: string, level: nat, paddingLeft: nat, kind: RowKind)

  /** The link target of a leaf: its url, or "#" when the url is absent or
      empty. */
  function Href(n: Node): (h: string)
    ensures h == "#" <==> n.url.None? || n.url.value == "" || n.url.value == "#"
    ensures h != "#" ==> n.url == Some(h)
  {
    match n.url
    case Some(u) => if u == "" then "#" else u
    case None => "#"
  }

  /** The node's key (its id, or "" without one) is in the expanded list. */
  predicate IsExpanded(n: Node, expandedIds: seq<string>)
  {
    Key(n) in expandedIds
  }

  /** The row of one node at depth `level`. */
  function RowOf(n: Node, level: nat, expandedIds: seq<string>): Row
  {
    Row(n.name, level, level * 16,
        if HasChildren(n) then ToggleButton(IsExpanded(n, expandedIds)) else Link(Href(n)))
  }

  /** A node's row is indented 16 per level and carries its name; it is a
      toggle button showing the node's expansion exactly when the node has
      children, and otherwise a link to its url or "#". */
  lemma RowOfShape(n: Node, level: nat, expandedIds: seq<string>)
    ensures var r := RowOf(n, level, expandedIds);
      r.name == n.name && r.level == level && r.paddingLeft == level * 16
    ensures var r := RowOf(n, level, expandedIds);
      (r.kind.ToggleButton? <==> HasChildren(n)) &&
      (r.kind.ToggleButton? ==> r.kind.expanded == IsExpanded(n, expandedIds)) &&
      (r.kind.Link? ==> r.kind.href == Href(n))
  {
  }

  /** The rows of a sibling sequence at depth `level`, in pre-order. */
  function RenderTree(nodes: seq<Node>, level: nat, expandedIds: seq<string>): (rows: seq<Row>)
    ensures |rows| >= |nodes|
    ensures forall row :: row in rows ==> row.level >= level && row.paddingLeft == row.level * 16
    decreases nodes
  {
    if nodes == [] then []
    else RenderNode(nodes[0], level, expandedIds) + RenderTree(nodes[1..], level, expandedIds)
  }

  /** A node's own row, then, when it has children and its key is expanded,
      the rows of its children one level deeper. */
  function RenderNode(n: Node, level: nat, expandedIds: seq<string>): (rows: seq<Row>)
    ensures |rows| >= 1 && rows[0] == RowOf(n, level, expandedIds)
    ensures forall row :: row in rows ==> row.level >= level && row.paddingLeft == row.level * 16
    ensures forall row :: row in rows[1..] ==> row.level > level
    ensures !(HasChildren(n) && IsExpanded(n, expandedIds)) ==> |rows| == 1
    ensures HasChildren(n) && IsExpanded(n, expandedIds) ==>
      |rows| > 1 && rows[1] == RowOf(Kids(n)[0], level + 1, expandedIds) &&
      rows[1..] == RenderTree(Kids(n), level + 1, expandedIds)
    decreases n
  {
    [RowOf(n, level, expandedIds)] +
    if IsExpanded(n, expandedIds) then
      match n.children
      case Present(cs) => RenderTree(cs, level + 1, expandedIds)
      case Absent => []
    else []
  }

  lemma {:induction false} RenderTreeAppend(a: seq<Node>, b: seq<Node>, level: nat, expandedIds: seq<string>)
    ensures RenderTree(a + b, level, expandedIds) == RenderTree(a, level, expandedIds) + RenderTree(b, level, expandedIds)
    decreases a
  {
    if a == [] {
      assert a + b == b;
    } else {
      assert (a + b)[0] == a[0] && (a + b)[1..] == a[1..] + b;
      RenderTreeAppend(a[1..], b, level, expandedIds);
    }
  }

  /** A node is visible when every strict ancestor on its path has children
      and is expanded; a collapsed ancestor hides it whatever its own state. */
  predicate Visible(nodes: seq<Node>, p: seq<nat>, expandedIds: seq<string>)
    decreases p
  {
    |p| >= 1 && p[0] < |nodes| &&
    (|p| == 1 ||
     (HasChildren(nodes[p[0]]) && IsExpanded(nodes[p[0]], expandedIds) &&
      Visible(Kids(nodes[p[0]]), p[1..], expandedIds)))
  }

  lemma {:induction false} VisibleIsReachable(nodes: seq<Node>, p: seq<nat>, expandedIds: seq<string>)
    requires Visible(nodes, p, expandedIds)
    ensures At(nodes, p).Some?
    decreases p
  {
    if |p| > 1 {
      VisibleIsReachable(Kids(nodes[p[0]]), p[1..], expandedIds);
    }
  }

  /** The rows of each sibling occur in the rows of the whole sequence. */
  lemma {:induction false} RenderTreeHasNode(nodes: seq<Node>, i: nat, level: nat, expandedIds: seq<string>)
    requires i < |nodes|
    ensures forall row :: row in RenderNode(nodes[i], level, expandedIds) ==> row in RenderTree(nodes, level, expandedIds)
    decreases i
  {
    if i > 0 {
      RenderTreeHasNode(nodes[1..], i - 1, level, expandedIds);
    }
  }

  /** Every row comes from one of the siblings. */
  lemma {:induction false} RenderTreeFromNode(nodes: seq<Node>, level: nat, expandedIds: seq<string>, row: Row)
    requires row in RenderTree(nodes, level, expandedIds)
    ensures exists i :: 0 <= i < |nodes| && row in RenderNode(nodes[i], level, expandedIds)
    decreases nodes
  {
    if row !in RenderNode(nodes[0], level, expandedIds) {
      RenderTreeFromNode(nodes[1..], level, expandedIds, row);
      var i :| 0 <= i < |nodes[1..]| && row in RenderNode(nodes[1..][i], level, expandedIds);
      assert nodes[1..][i] == nodes[i + 1];
    }
  }

  /** A row of an expanded node's children is a row of the node. */
  lemma ChildRowInNode(n: Node, level: nat, expandedIds: seq<string>, row: Row)
    requires HasChildren(n) && IsExpanded(n, expandedIds)
    requires row in RenderTree(Kids(n), level + 1, expandedIds)
    ensures row in RenderNode(n, level, expandedIds)
  {
    var rows := RenderNode(n, level, expandedIds);
    assert row in rows[1..];
  }

  /** The own row of each sibling is a row of the sequence. */
  lemma RootRowInTree(nodes: seq<Node>, i: nat, level: nat, expandedIds: seq<string>)
    requires i < |nodes|
    ensures RowOf(nodes[i], level, expandedIds) in RenderTree(nodes, level, expandedIds)
  {
    RenderTreeHasNode(nodes, i, level, expandedIds);
    assert RenderNode(nodes[i], level, expandedIds)[0] == RowOf(nodes[i], level, expandedIds);
  }

  /** A row of an expanded sibling's children is a row of the sequence. */
  lemma ChildRowInTree(nodes: seq<Node>, i: nat, level: nat, expandedIds: seq<string>, row: Row)
    requires i < |nodes| && HasChildren(nodes[i]) && IsExpanded(nodes[i], expandedIds)
    requires row in RenderTree(Kids(nodes[i]), level + 1, expandedIds)
    ensures row in RenderTree(nodes, level, expandedIds)
  {
    ChildRowInNode(nodes[i], level, expandedIds, row);
    RenderTreeHasNode(nodes, i, level, expandedIds);
  }

  /** One step down a visible path: the row of a node under an expanded
      sibling, found among that sibling's child rows, is a row of the whole
      sequence. */
  lemma VisibleChildStep(nodes: seq<Node>, level: nat, expandedIds: seq<string>, p: seq<nat>)
    requires |p| > 1 && p[0] < |nodes|
    requires HasChildren(nodes[p[0]]) && IsExpanded(nodes[p[0]], expandedIds)
    requires At(Kids(nodes[p[0]]), p[1..]).Some?
    requires RowOf(At(Kids(nodes[p[0]]), p[1..]).value, level + |p| - 1, expandedIds) in
      RenderTree(Kids(nodes[p[0]]), level + 1, expandedIds)
    ensures At(nodes, p).Some?
    ensures RowOf(At(nodes, p).value, level + |p| - 1, expandedIds) in RenderTree(nodes, level, expandedIds)
  {
    var n := nodes[p[0]];
    var row := RowOf(At(Kids(n), p[1..]).value, level + |p| - 1, expandedIds);
    assert At(nodes, p) == At(Kids(n), p[1..]);
    ChildRowInTree(nodes, p[0], level, expandedIds, row);
  }

  /** Every visible node is rendered, as its own row at its depth. */
  lemma {:induction false} RenderShowsVisible(nodes: seq<Node>, level: nat, expandedIds: seq<string>, p: seq<nat>)
    requires Visible(nodes, p, expandedIds)
    ensures At(nodes, p).Some?
    ensures RowOf(At(nodes, p).value, level + |p| - 1, expandedIds) in RenderTree(nodes, level, expandedIds)
    decreases p
  {
    VisibleIsReachable(nodes, p, expandedIds);
    if |p| == 1 {
      assert At(nodes, p) == Some(nodes[p[0]]);
      RootRowInTree(nodes, p[0], level, expandedIds);
    } else {
      var n := nodes[p[0]];
      assert HasChildren(n) && IsExpanded(n, expandedIds) && Visible(Kids(n), p[1..], expandedIds);
      RenderShowsVisible(Kids(n), level + 1, expandedIds, p[1..]);
      assert level + 1 + |p[1..]| - 1 == level + |p| - 1;
      VisibleChildStep(nodes, level, expandedIds, p);
    }
  }

  /** `row` is the row of the visible node at path `p`, at its depth. */
  predicate RowOfVisible(nodes: seq<Node>, p: seq<nat>, level: nat, expandedIds: seq<string>, row: Row)
  {
    Visible(nodes, p, expandedIds) && At(nodes, p).Some? &&
    row == RowOf(At(nodes, p).value, level + |p| - 1, expandedIds)
  }

  /** A root is visible, at the path made of its index alone. */
  lemma VisibleRoot(nodes: seq<Node>, i: nat, level: nat, expandedIds: seq<string>)
    requires i < |nodes|
    ensures RowOfVisible(nodes, [i], level, expandedIds, RowOf(nodes[i], level, expandedIds))
  {
  }

  /** Extending a visible path below an expanded node with children keeps
      it visible, reaching the same node one level deeper. */
  lemma VisibleUnder(nodes: seq<Node>, i: nat, q: seq<nat>, level: nat, expandedIds: seq<string>, row: Row)
    requires i < |nodes| && nodes[i].children.Present? && HasChildren(nodes[i]) && IsExpanded(nodes[i], expandedIds)
    requires RowOfVisible(nodes[i].children.list, q, level + 1, expandedIds, row)
    ensures RowOfVisible(nodes, [i] + q, level, expandedIds, row)
  {
    var p := [i] + q;
    assert p[0] == i && p[1..] == q;
  }

  /** A row of a node other than its own row is a row of its expanded
      children. */
  lemma RenderNodeCases(n: Node, level: nat, expandedIds: seq<string>, row: Row)
    requires row in RenderNode(n, level, expandedIds) && row != RowOf(n, level, expandedIds)
    ensures n.children.Present? && HasChildren(n) && IsExpanded(n, expandedIds)
    ensures row in RenderTree(n.children.list, level + 1, expandedIds)
  {
  }

  /** Only visible nodes are rendered: each row is the row of a visible node
      at its depth. */
  lemma {:induction false} RenderOnlyVisible(nodes: seq<Node>, level: nat, expandedIds: seq<string>, row: Row)
    requires row in RenderTree(nodes, level, expandedIds)
    ensures exists p :: RowOfVisible(nodes, p, level, expandedIds, row)
    decreases nodes, 1
  {
    RenderTreeFromNode(nodes, level, expandedIds, row);
    var i :| 0 <= i < |nodes| && row in RenderNode(nodes[i], level, expandedIds);
    RenderNodeOnlyVisible(nodes, i, level, expandedIds, row);
  }

  /** The same, for the rows of one sibling. */
  lemma {:induction false} RenderNodeOnlyVisible(nodes: seq<Node>, i: nat, level: nat, expandedIds: seq<string>, row: Row)
    requires i < |nodes| && row in RenderNode(nodes[i], level, expandedIds)
    ensures exists p :: RowOfVisible(nodes, p, level, expandedIds, row)
    decreases nodes, 0
  {
    if row == RowOf(nodes[i], level, expandedIds) {
      VisibleRoot(nodes, i, level, expandedIds);
    } else {
      RenderNodeCases(nodes[i], level, expandedIds, row);
      var cs := nodes[i].children.list;
      RenderOnlyVisible(cs, level + 1, expandedIds, row);
      var q :| RowOfVisible(cs, q, level + 1, expandedIds, row);
      VisibleUnder(nodes, i, q, level, expandedIds, row);
    }
  }

  /** With nothing expanded, the rows are exactly the roots' rows, in order. */
  lemma {:induction false} RenderCollapsed(nodes: seq<Node>, level: nat)
    ensures RenderTree(nodes, level, []) == seq(|nodes|, i requires 0 <= i < |nodes| => RowOf(nodes[i], level, []))
    decreases nodes
  {
    if nodes != [] {
      RenderCollapsed(nodes[1..], level);
    }
  }

  /** All id-less nodes share the key "", so one toggle of that key flips the
      expansion of every one of them together. */
  lemma IdlessNodesShareExpansion(a: Node, b: Node, expandedIds: seq<string>)
    requires a.id.None? && b.id.None?
    ensures IsExpanded(a, expandedIds) == IsExpanded(b, expandedIds)
    ensures IsExpanded(a, Toggle(expandedIds, Key(b))) == !IsExpanded(a, expandedIds)
  {
  }

  // ---------------------------------------------------------------------------
  // The sidebar component
  // ---------------------------------------------------------------------------

  class SidebarState {
    var treeData: Forest
    var expandedIds: seq<string>

    ghost predicate Valid()
      reads this
    {
      Distinct(expandedIds)
    }

    constructor ()
      ensures Valid() && treeData == [] && expandedIds == []
    {
      treeData := [];
      expandedIds := [];
    }

    /** The end of the initial fetch: a parsed response replaces the forest;
        a failure (`None`) leaves it as it was. */
    method FetchSettled(response: Option<Forest>)
      modifies this`treeData
      ensures treeData == if response.Some? then response.value else old(treeData)
    {
      if response.Some? {
        treeData := response.value;
      }
    }

    method ToggleExpand(id: string)
      requires Valid()
      modifies this`expandedIds
      ensures Valid()
      ensures expandedIds == Toggle(old(expandedIds), id)
    {
      ToggleKeepsDistinct(expandedIds, id);
      expandedIds := Toggle(expandedIds, id);
    }

    /** The rows of the rendered tree. */
    function Rows(): (rows: seq<Row>)
      reads this
      ensures |rows| >= |treeData|
    {
      RenderTree(treeData, 0, expandedIds)
    }
  }
}
