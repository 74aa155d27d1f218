/** The menu forest of the dashboard and the pure operations over it:
    the recursive locate-and-transform walk, the "add child" and "edit"
    transforms the tree menu passes to it, and the two stateful pieces of
    the tree menu (the component that owns the forest, and a node's own
    expand/collapse flag). */
module TreeMenu {

  datatype Option<T> = None | Some(value: T)

  /** A node's `children` field: absent, or present (possibly empty). */
  datatype Children = Absent | Present(list: seq<Node>)

  /** A menu node as the API delivers it. `id`, `url` and `children` may be
      absent; `None` and `Absent` stand for a JavaScript `undefined` field. */
  datatype Node = Node(
    id: Option<string>,
    name: string,
    parentId: string,
    url: Option<string>,
    children: Children)

  type Forest = seq<Node>

  /** The node's children, or none when the field is absent. */
  function Kids(n: Node): seq<Node>
  {
    match n.children
    case Present(cs) => cs
    case Absent => []
  }

  /** The node's id, or the empty string when it has none: the key under
      which a node is added to and expanded. */
  function Key(n: Node): string
  {
    match n.id
    case Some(i) => i
    case None => ""
  }

  /** The node has a children field and it is not empty. */
  predicate HasChildren(n: Node)
  {
    |Kids(n)| > 0
  }

  /** The node's id is present and equal to the target (strict equality), so
      a node without an id never matches, not even the target "". */
  predicate Matches(n: Node, targetId: string)
  {
    n.id == Some(targetId)
  }

  /** Every field of `m` other than `children` agrees with `n`, and `m` has a
      children field exactly when `n` has one, with as many entries. */
  predicate SameShape(m: Node, n: Node)
  {
    m.id == n.id && m.name == n.name && m.parentId == n.parentId && m.url == n.url &&
    m.children.Present? == n.children.Present? && |Kids(m)| == |Kids(n)|
  }

  // ---------------------------------------------------------------------------
  // findAndUpdateNode
  // ---------------------------------------------------------------------------

  /** The central walk: a `map` over the sibling sequence. */
  function FindAndUpdate(nodes: seq<Node>, targetId: string, action: Node -> Node): (r: seq<Node>)
    ensures |r| == |nodes|
    ensures |nodes| > 0 ==> r[0] == UpdateNode(nodes[0], targetId, action)
    decreases nodes
  {
    if nodes == [] then []
    else [UpdateNode(nodes[0], targetId, action)] + FindAndUpdate(nodes[1..], targetId, action)
  }

  /** The callback `map` applies to one node: a matching node is replaced by
      `action(node)` (its children are not searched); any other node with a
      children field is rebuilt with its children updated; the rest is
      returned as it is. */
  function UpdateNode(node: Node, targetId: string, action: Node -> Node): (r: Node)
    ensures !Matches(node, targetId) ==> SameShape(r, node)
    ensures !Matches(node, targetId) && node.children.Present? ==>
      r.children == Present(FindAndUpdate(node.children.list, targetId, action))
    ensures !Matches(node, targetId) && node.children.Absent? ==> r == node
    decreases node
  {
    if node.id == Some(targetId) then action(node)
    else
      match node.children
      case Present(cs) => node.(children := Present(FindAndUpdate(cs, targetId, action)))
      case Absent => node
  }

  /** Some node, at any depth, has id `targetId`. */
  predicate ContainsId(nodes: seq<Node>, targetId: string)
    decreases nodes
  {
    nodes != [] && (NodeContainsId(nodes[0], targetId) || ContainsId(nodes[1..], targetId))
  }

  predicate NodeContainsId(n: Node, targetId: string)
    decreases n
  {
    Matches(n, targetId) ||
    match n.children
    case Present(cs) => ContainsId(cs, targetId)
    case Absent => false
  }

  /** When no node carries the target id the walk returns a forest equal, as
      a value, to its input. */
  lemma {:induction false} NoMatchIsIdentity(nodes: seq<Node>, targetId: string, action: Node -> Node)
    requires !ContainsId(nodes, targetId)
    ensures FindAndUpdate(nodes, targetId, action) == nodes
    decreases nodes
  {
    if nodes != [] {
      NodeNoMatchIsIdentity(nodes[0], targetId, action);
      NoMatchIsIdentity(nodes[1..], targetId, action);
    }
  }

  lemma {:induction false} NodeNoMatchIsIdentity(n: Node, targetId: string, action: Node -> Node)
    requires !NodeContainsId(n, targetId)
    ensures UpdateNode(n, targetId, action) == n
    decreases n
  {
    match n.children
    case Present(cs) => NoMatchIsIdentity(cs, targetId, action);
    case Absent =>
  }

  /** The walk is a `map`: it keeps the length and order of the sibling
      sequence and treats each sibling on its own, so every sibling with the
      target id is transformed, not only the first. */
  lemma {:induction false} FindAndUpdateIsMap(nodes: seq<Node>, targetId: string, action: Node -> Node)
    ensures |FindAndUpdate(nodes, targetId, action)| == |nodes|
    ensures forall i :: 0 <= i < |nodes| ==>
      FindAndUpdate(nodes, targetId, action)[i] == UpdateNode(nodes[i], targetId, action)
    decreases nodes
  {
    if nodes != [] {
      FindAndUpdateIsMap(nodes[1..], targetId, action);
      var r := FindAndUpdate(nodes, targetId, action);
      forall i | 0 <= i < |nodes| ensures r[i] == UpdateNode(nodes[i], targetId, action) {
        if i > 0 {
          assert r[i] == FindAndUpdate(nodes[1..], targetId, action)[i - 1];
        }
      }
    }
  }

  /** A sibling subtree that does not contain the target id comes back
      value-unchanged, whatever its siblings contain. */
  lemma SiblingWithoutTargetUnchanged(nodes: seq<Node>, targetId: string, action: Node -> Node, i: nat)
    requires i < |nodes| && !NodeContainsId(nodes[i], targetId)
    ensures FindAndUpdate(nodes, targetId, action)[i] == nodes[i]
  {
    FindAndUpdateIsMap(nodes, targetId, action);
    NodeNoMatchIsIdentity(nodes[i], targetId, action);
  }

  // ---------------------------------------------------------------------------
  // Paths: an independent view of where a node sits in the forest
  // ---------------------------------------------------------------------------

  /** The node reached by following the child indexes `p` from the forest:
      `p[0]` picks a root, `p[1]` one of its children, … */
  function At(nodes: seq<Node>, p: seq<nat>): Option<Node>
    decreases p
  {
    if p == [] || p[0] >= |nodes| then None
    else if |p| == 1 then Some(nodes[p[0]])
    else At(Kids(nodes[p[0]]), p[1..])
  }

  /** No strict ancestor of the node at `p` has the target id, so the walk
      reaches that node itself. */
  predicate ClearAbove(nodes: seq<Node>, p: seq<nat>, targetId: string)
    decreases p
  {
    |p| <= 1 ||
    (p[0] < |nodes| && !Matches(nodes[p[0]], targetId) &&
     ClearAbove(Kids(nodes[p[0]]), p[1..], targetId))
  }

  /** Every node the walk reaches is still at the same path in the result. If
      it has the target id it is replaced by `action` applied to it as it was
      (its original children unsearched); otherwise it keeps its id, name,
      parentId, url and the presence and count of its children. */
  lemma {:induction false} FindAndUpdateAt(nodes: seq<Node>, targetId: string, action: Node -> Node, p: seq<nat>)
    requires At(nodes, p).Some? && ClearAbove(nodes, p, targetId)
    ensures At(FindAndUpdate(nodes, targetId, action), p).Some?
    ensures Matches(At(nodes, p).value, targetId) ==>
      At(FindAndUpdate(nodes, targetId, action), p).value == action(At(nodes, p).value)
    ensures !Matches(At(nodes, p).value, targetId) ==>
      SameShape(At(FindAndUpdate(nodes, targetId, action), p).value, At(nodes, p).value)
    decreases p
  {
    FindAndUpdateIsMap(nodes, targetId, action);
    if |p| > 1 {
      FindAndUpdateAt(Kids(nodes[p[0]]), targetId, action, p[1..]);
    }
  }

  // ---------------------------------------------------------------------------
  // Labels: the (name, url) pairs that occur anywhere in a forest
  // ---------------------------------------------------------------------------

  function Labels(nodes: seq<Node>): set<(string, Option<string>)>
    decreases nodes
  {
    if nodes == [] then {} else NodeLabels(nodes[0]) + Labels(nodes[1..])
  }

  function NodeLabels(n: Node): set<(string, Option<string>)>
    decreases n
  {
    {(n.name, n.url)} +
    match n.children
    case Present(cs) => Labels(cs)
    case Absent => {}
  }

  lemma {:induction false} LabelsAppend(a: seq<Node>, b: seq<Node>)
    ensures Labels(a + b) == Labels(a) + Labels(b)
    decreases a
  {
    if a == [] {
      assert a + b == b;
    } else {
      assert (a + b)[0] == a[0] && (a + b)[1..] == a[1..] + b;
      LabelsAppend(a[1..], b);
    }
  }

  /** If `action` adds the labels `extra` to any node it is applied to, the
      walk adds exactly `extra` when the target id occurs and nothing
      otherwise. */
  lemma {:induction false} FindAndUpdateLabels(nodes: seq<Node>, targetId: string, action: Node -> Node, extra: set<(string, Option<string>)>)
    requires forall n :: NodeLabels(action(n)) == NodeLabels(n) + extra
    ensures Labels(FindAndUpdate(nodes, targetId, action)) ==
      Labels(nodes) + (if ContainsId(nodes, targetId) then extra else {})
    decreases nodes
  {
    if nodes != [] {
      var r := FindAndUpdate(nodes, targetId, action);
      UpdateNodeLabels(nodes[0], targetId, action, extra);
      FindAndUpdateLabels(nodes[1..], targetId, action, extra);
      assert r[0] == UpdateNode(nodes[0], targetId, action);
      assert r[1..] == FindAndUpdate(nodes[1..], targetId, action);
      assert Labels(r) == NodeLabels(r[0]) + Labels(r[1..]);
      assert Labels(nodes) == NodeLabels(nodes[0]) + Labels(nodes[1..]);
      assert ContainsId(nodes, targetId) == (NodeContainsId(nodes[0], targetId) || ContainsId(nodes[1..], targetId));
      UnionStep(NodeLabels(nodes[0]), Labels(nodes[1..]), extra,
                NodeContainsId(nodes[0], targetId), ContainsId(nodes[1..], targetId));
    }
  }

  /** Set algebra for one step of the walk over siblings. */
  lemma UnionStep<T>(a: set<T>, b: set<T>, x: set<T>, c0: bool, c1: bool)
    ensures (a + (if c0 then x else {})) + (b + (if c1 then x else {})) == (a + b) + (if c0 || c1 then x else {})
  {
  }

  lemma {:induction false} UpdateNodeLabels(n: Node, targetId: string, action: Node -> Node, extra: set<(string, Option<string>)>)
    requires forall m :: NodeLabels(action(m)) == NodeLabels(m) + extra
    ensures NodeLabels(UpdateNode(n, targetId, action)) ==
      NodeLabels(n) + (if NodeContainsId(n, targetId) then extra else {})
    decreases n
  {
    if !Matches(n, targetId) {
      match n.children
      case Present(cs) => FindAndUpdateLabels(cs, targetId, action, extra);
      case Absent =>
    }
  }

  // ---------------------------------------------------------------------------
  // handleAdd
  // ---------------------------------------------------------------------------

  /** The node the "add" modal builds: no id, empty children. */
  function NewNode(name: string, parentId: string, url: string): (r: Node)
    ensures r.id.None? && r.name == name && r.parentId == parentId && r.url == Some(url)
    ensures r.children.Present? && !HasChildren(r)
    ensures NodeLabels(r) == {(name, Some(url))}
  {
    Node(None, name, parentId, Some(url), Present([]))
  }

  /** The "add child" transform: the node with its children (or none) followed
      by `newNode`, every other field kept. */
  function AddChildAction(newNode: Node): (r: Node -> Node)
    ensures forall n :: (r(n).id == n.id && r(n).name == n.name &&
                         r(n).parentId == n.parentId && r(n).url == n.url)
    ensures forall n :: Kids(r(n)) == Kids(n) + [newNode]
  {
    (node: Node) => node.(children := Present(Kids(node) + [newNode]))
  }

  /** The state update made when the "add" modal is saved for `parentId`. */
  function HandleAdd(forest: Forest, parentId: string, name: string, url: string): (r: Forest)
    ensures |r| == |forest|
  {
    FindAndUpdate(forest, parentId, AddChildAction(NewNode(name, parentId, url)))
  }

  /** Every reached node with id `parentId` keeps all its fields except
      `children`, which become its old children (or none) followed by one new
      last node with the modal's name and url, the parentId, no id and empty
      children. */
  lemma AddAppendsLast(forest: Forest, parentId: string, name: string, url: string, p: seq<nat>)
    requires At(forest, p).Some? && ClearAbove(forest, p, parentId)
    requires Matches(At(forest, p).value, parentId)
    ensures At(HandleAdd(forest, parentId, name, url), p).Some?
    ensures var n, m := At(forest, p).value, At(HandleAdd(forest, parentId, name, url), p).value;
      m.id == n.id && m.name == n.name && m.parentId == n.parentId && m.url == n.url &&
      Kids(m) == Kids(n) + [Node(None, name, parentId, Some(url), Present([]))]
  {
    FindAndUpdateAt(forest, parentId, AddChildAction(NewNode(name, parentId, url)), p);
  }

  /** Adding under an id that no node has changes nothing. This is what
      happens to the root button's `"null"` and to the `""` that an id-less
      node passes, unless some node literally has that id. */
  lemma AddWithoutTargetIsNoop(forest: Forest, parentId: string, name: string, url: string)
    requires !ContainsId(forest, parentId)
    ensures HandleAdd(forest, parentId, name, url) == forest
  {
    NoMatchIsIdentity(forest, parentId, AddChildAction(NewNode(name, parentId, url)));
  }

  /** The add button of an id-less node targets `""`, which only a node whose
      id is literally `""` can match. */
  lemma AddUnderIdlessNode(forest: Forest, parent: Node, name: string, url: string)
    requires parent.id.None? && !ContainsId(forest, "")
    ensures HandleAdd(forest, Key(parent), name, url) == forest
  {
    AddWithoutTargetIsNoop(forest, Key(parent), name, url);
  }

  /** Adding introduces exactly the new (name, url) label, and only when the
      parent id occurs in the forest. */
  lemma AddLabels(forest: Forest, parentId: string, name: string, url: string)
    ensures Labels(HandleAdd(forest, parentId, name, url)) ==
      Labels(forest) + (if ContainsId(forest, parentId) then {(name, Some(url))} else {})
  {
    var nn := NewNode(name, parentId, url);
    var action := AddChildAction(nn);
    assert NodeLabels(nn) == {(name, Some(url))};
    forall n ensures NodeLabels(action(n)) == NodeLabels(n) + {(name, Some(url))} {
      LabelsAppend(Kids(n), [nn]);
      assert Labels([nn]) == NodeLabels(nn);
    }
    FindAndUpdateLabels(forest, parentId, action, {(name, Some(url))});
  }

  /** Adding "About" under the single root "Home" gives "Home" one child. */
  lemma AddUnderHomeExample()
    ensures HandleAdd([Node(Some("1"), "Home", "null", None, Present([]))], "1", "About", "/about") ==
      [Node(Some("1"), "Home", "null", None, Present([Node(None, "About", "1", Some("/about"), Present([]))]))]
  {
    var home := Node(Some("1"), "Home", "null", None, Present([]));
    var about := NewNode("About", "1", "/about");
    var action := AddChildAction(about);
    assert Kids(home) + [about] == [about];
    assert UpdateNode(home, "1", action) == action(home) == home.(children := Present([about]));
    assert [home][1..] == [];
    assert FindAndUpdate([home], "1", action) == [UpdateNode(home, "1", action)] + FindAndUpdate([], "1", action);
  }

  // ---------------------------------------------------------------------------
  // handleEdit, as written
  // ---------------------------------------------------------------------------

  /** The "edit" transform as written: its parameter shadows the edited node,
      so the matched node keeps every field and gets a copy of itself after its
      children (or none). */
  function EditAction(): Node -> Node
  {
    (node: Node) => node.(children := Present(Kids(node) + [node]))
  }

  /** The state update made when the "edit" modal is saved for `edited`. The
      walk searches for `edited.parentId`; `name` and `url` from the modal are
      not used. */
  function HandleEdit(forest: Forest, edited: Node, name: string, url: string): (r: Forest)
    ensures |r| == |forest|
  {
    FindAndUpdate(forest, edited.parentId, EditAction())
  }

  /** The reached node whose id equals the edited node's parentId gains one
      last child equal to its own prior value; its other fields stay. */
  lemma EditAppendsSelf(forest: Forest, edited: Node, name: string, url: string, p: seq<nat>)
    requires At(forest, p).Some? && ClearAbove(forest, p, edited.parentId)
    requires Matches(At(forest, p).value, edited.parentId)
    ensures At(HandleEdit(forest, edited, name, url), p).Some?
    ensures var n, m := At(forest, p).value, At(HandleEdit(forest, edited, name, url), p).value;
      m.id == n.id && m.name == n.name && m.parentId == n.parentId && m.url == n.url &&
      Kids(m) == Kids(n) + [n]
  {
    FindAndUpdateAt(forest, edited.parentId, EditAction(), p);
  }

  /** The edit transform keeps every field of the node it rewrites, appends
      the node's prior value as its last child, and so adds no (name, url)
      label. */
  lemma EditActionAppendsSelf(n: Node)
    ensures var m := EditAction()(n);
      m.id == n.id && m.name == n.name && m.parentId == n.parentId && m.url == n.url &&
      Kids(m) == Kids(n) + [n] && HasChildren(m)
    ensures NodeLabels(EditAction()(n)) == NodeLabels(n)
  {
    LabelsAppend(Kids(n), [n]);
    assert Labels([n]) == NodeLabels(n);
  }

  /** Editing never introduces a (name, url) pair that was not already in the
      forest: the modal's values never reach it. */
  lemma EditKeepsLabels(forest: Forest, edited: Node, name: string, url: string)
    ensures Labels(HandleEdit(forest, edited, name, url)) == Labels(forest)
  {
    var action := EditAction();
    forall n ensures NodeLabels(action(n)) == NodeLabels(n) + {} {
      EditActionAppendsSelf(n);
    }
    FindAndUpdateLabels(forest, edited.parentId, action, {});
  }

  // ---------------------------------------------------------------------------
  // The stateful parts of the tree menu
  // ---------------------------------------------------------------------------

  /** The tree menu component: the forest it shows and its loading flag. */
  class TreeMenuState {
    var treeData: Forest
    var loading: bool

    constructor ()
      ensures treeData == [] && loading
    {
      treeData := [];
      loading := true;
    }

    /** The end of the initial fetch: a parsed response replaces the forest;
        a failure (`None`) leaves it as it was. Either way loading ends. */
    method FetchSettled(response: Option<Forest>)
      modifies this
      ensures !loading
      ensures treeData == if response.Some? then response.value else old(treeData)
    {
      if response.Some? {
        treeData := response.value;
      }
      loading := false;
    }

    /** Saving the "add" modal; its button is only rendered once loading
        has ended. */
    method SaveAdd(parentId: string, name: string, url: string)
      requires !loading
      modifies this`treeData
      ensures treeData == HandleAdd(old(treeData), parentId, name, url)
      ensures |treeData| == |old(treeData)|
      ensures !ContainsId(old(treeData), parentId) ==> treeData == old(treeData)
    {
      if !ContainsId(treeData, parentId) {
        AddWithoutTargetIsNoop(treeData, parentId, name, url);
      }
      treeData := HandleAdd(treeData, parentId, name, url);
    }

    /** Saving the "edit" modal; its button is only rendered once loading
        has ended. */
    method SaveEdit(edited: Node, name: string, url: string)
      requires !loading
      modifies this`treeData
      ensures treeData == HandleEdit(old(treeData), edited, name, url)
      ensures Labels(treeData) == Labels(old(treeData))
    {
      EditKeepsLabels(treeData, edited, name, url);
      treeData := HandleEdit(treeData, edited, name, url);
    }
  }

  /** One rendered `TreeNode`: its node and its own expansion flag. */
  class TreeNodeView {
    const node: Node
    var isExpanded: bool

    constructor (node: Node)
      ensures this.node == node && !isExpanded
    {
      this.node := node;
      isExpanded := false;
    }

    method HandleToggleExpand()
      modifies this
      ensures isExpanded == !old(isExpanded)
    {
      isExpanded := !isExpanded;
    }

    /** The children rendered below this node: all of them when it is
        expanded and has a non-empty children array, none otherwise. */
    function ShownChildren(): (r: seq<Node>)
      reads this
      ensures r != [] <==> isExpanded && HasChildren(node)
      ensures r != [] ==> r == Kids(node)
    {
      if isExpanded && HasChildren(node) then Kids(node) else []
    }

    /** What its "Add Child" button passes to `handleAdd`. */
    function AddTarget(): (t: string)
      ensures node.id.Some? ==> t == node.id.value
      ensures node.id.None? ==> t == ""
    {
      Key(node)
    }
  }
}
