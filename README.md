# Menu tree of the dashboard, in Dafny

The dashboard shows a hierarchical menu: a forest of `TreeNodeData` nodes
(an optional `id`, a `name`, a `parentId`, an optional `url` and an optional
`children` array). Two components hold its logic:

- the **tree menu** (`src/components/TreeMenu.tsx`) keeps the forest in its
  state and edits it through `findAndUpdateNode`, a recursive `map` that
  replaces by `action(node)` every node whose `id === targetId` and that has
  no matching ancestor. It passes it
  two actions: "add child" (append a new id-less node) and "edit". Each
  rendered `TreeNode` has its own `isExpanded` flag;
- the **sidebar** (`src/components/Sidebar.tsx`) keeps a list `expandedIds`
  of expanded keys and renders the forest as rows, walking into a node's
  children only when the node's key (its id, or `""` when it has none) is in
  that list.

The model is two modules, one per component:

- `TreeMenu` (`TreeMenu.dfy`): the `Node` datatype (`None`/`Absent` for a
  field that is `undefined`), `FindAndUpdate`/`UpdateNode`, the two actions
  and the state updates `HandleAdd`/`HandleEdit`; the component state as the
  class `TreeMenuState` (forest and loading flag) and a rendered node as the
  class `TreeNodeView` (its expansion flag). Paths of child indexes (`At`) and
  the set of (name, url) labels of a forest (`Labels`) are the independent
  views the lemmas use.
- `Sidebar` (`Sidebar.dfy`): `Toggle` (with `RemoveAll` for the `filter`), the
  row datatype `Row(name, level, paddingLeft, kind)` with `kind` either
  `ToggleButton(expanded)` or `Link(href)`, the row of one node `RowOf`, `RenderTree`/`RenderNode`, the
  visibility predicate `Visible` over paths, and the class `SidebarState`.

Points where the code behaves in a way a reader might not expect, all
modelled as written:

- when sibling ids repeat, each matching sibling is transformed
  (`FindAndUpdateIsMap`); a match nested inside another match is not
  reached, because a matching node's children are not searched
  (`FindAndUpdateAt`);
- the root button passes `"null"`, so adding from it changes nothing unless
  some node literally has id `"null"` (`AddWithoutTargetIsNoop`);
- edit searches for the edited node's `parentId` and, because the action's
  parameter shadows the edited node, appends the found node to its own
  children, ignoring the typed name and url (`EditAppendsSelf`,
  `EditKeepsLabels`);
- `expandedIds` is a list, which stays free of duplicates starting from the
  empty list (`ToggleKeepsDistinct`); toggling a present id twice moves it to
  the end (`ToggleTwicePresent`).

## Model

| member | source | states |
|---|---|---|
| `TreeMenu.FindAndUpdate` | src/components/TreeMenu.tsx:143-158 | the result has as many siblings as the input, the first being the first input node updated |
| `TreeMenu.UpdateNode` | src/components/TreeMenu.tsx:148-157 | a non-matching node keeps id, name, parentId, url and children presence and count; its children are the walk over its old children; without a children field it is returned unchanged |
| `TreeMenu.NoMatchIsIdentity` | src/components/TreeMenu.tsx:148-157 | when no node at any depth has the target id, the result equals the input forest |
| `TreeMenu.FindAndUpdateIsMap` | src/components/TreeMenu.tsx:148 | the walk keeps length and order and updates each sibling on its own, so every matching sibling is transformed (matches nested inside a match are not searched) |
| `TreeMenu.SiblingWithoutTargetUnchanged` | src/components/TreeMenu.tsx:148-157 | a sibling subtree that does not contain the target id comes back value-unchanged |
| `TreeMenu.FindAndUpdateAt` | src/components/TreeMenu.tsx:149-156 | every node with no matching ancestor is at the same path in the result; a matching one is replaced by the action applied to its original value, any other keeps its fields and children count |
| `TreeMenu.FindAndUpdateLabels` | src/components/TreeMenu.tsx:148-157 | if the action adds a fixed set of labels to any node, the walk adds exactly that set when the target id occurs and nothing otherwise |
| `TreeMenu.NewNode` | src/components/TreeMenu.tsx:166-171 | the node the add modal builds has no id, the typed name and url, the given parentId and an empty children array, so its only label is (name, url) |
| `TreeMenu.AddChildAction` | src/components/TreeMenu.tsx:173-176 | the add transform keeps the node's id, name, parentId and url, and its children become the old ones (or none) followed by the new node |
| `TreeMenu.HandleAdd` | src/components/TreeMenu.tsx:165-177 | saving the add modal keeps the number of roots |
| `TreeMenu.AddAppendsLast` | src/components/TreeMenu.tsx:166-176 | a reached node with the parent id keeps its other fields and its children become the old ones (or none) plus one last new node with the typed name, url, the parentId, no id and empty children |
| `TreeMenu.AddWithoutTargetIsNoop` | src/components/TreeMenu.tsx:172-177 | adding under an id no node has (the root button's `"null"` unless a node has that id) leaves the forest unchanged |
| `TreeMenu.AddUnderIdlessNode` | src/components/TreeMenu.tsx:37 | the add button of an id-less node targets `""` and changes nothing unless some node's id is literally `""` |
| `TreeMenu.AddLabels` | src/components/TreeMenu.tsx:166-176 | adding introduces exactly the new (name, url) label, and only when the parent id occurs |
| `TreeMenu.AddUnderHomeExample` | src/components/TreeMenu.tsx:166-176 | adding "About" under the single root "Home" gives it exactly that one child |
| `TreeMenu.EditActionAppendsSelf` | src/components/TreeMenu.tsx:196-199 | the edit transform, whose parameter shadows the edited node, keeps every field of the node it rewrites, appends that node's prior value as its last child, and adds no (name, url) label |
| `TreeMenu.HandleEdit` | src/components/TreeMenu.tsx:194-200 | saving the edit modal keeps the number of roots |
| `TreeMenu.EditAppendsSelf` | src/components/TreeMenu.tsx:196-199 | the reached node whose id is the edited node's parentId keeps id, name, parentId and url and gains one last child equal to its own prior value |
| `TreeMenu.EditKeepsLabels` | src/components/TreeMenu.tsx:194-200 | editing leaves the set of (name, url) labels of the forest unchanged: the typed values never reach it |
| `TreeMenu.TreeMenuState.constructor` | src/components/TreeMenu.tsx:116-117 | the menu starts with an empty forest and loading |
| `TreeMenu.TreeMenuState.FetchSettled` | src/components/TreeMenu.tsx:128-141 | a fetched forest replaces the state, a failure keeps it; loading ends either way |
| `TreeMenu.TreeMenuState.SaveAdd` | src/components/TreeMenu.tsx:172-177 | called once loading has ended (no add button is rendered before, line 212), the new forest is the add update of the old; with no node of that id it is unchanged |
| `TreeMenu.TreeMenuState.SaveEdit` | src/components/TreeMenu.tsx:195-200 | called once loading has ended (no edit button is rendered before, line 212), the new forest is the edit update of the old and has the same labels |
| `TreeMenu.TreeNodeView.constructor` | src/components/TreeMenu.tsx:19 | a rendered node starts collapsed |
| `TreeMenu.TreeNodeView.HandleToggleExpand` | src/components/TreeMenu.tsx:21 | each press flips the expansion flag |
| `TreeMenu.TreeNodeView.ShownChildren` | src/components/TreeMenu.tsx:45-55 | children are shown exactly when the node is expanded and has a non-empty children array, and then all of them |
| `TreeMenu.TreeNodeView.AddTarget` | src/components/TreeMenu.tsx:37 | the add button passes the node's id, or `""` when it has none |
| `Sidebar.RemoveAll` | src/components/Sidebar.tsx:29 | the filter drops every occurrence of the id, keeps the count of every other id, and keeps the order (a subsequence) |
| `Sidebar.Toggle` | src/components/Sidebar.tsx:27-31 | a present id is removed everywhere with the rest kept in order; an absent id is appended at the end; membership of the id flips |
| `Sidebar.ToggleKeepsDistinct` | src/components/Sidebar.tsx:27-31 | a list without duplicates stays without duplicates |
| `Sidebar.ToggleTwiceAbsent` | src/components/Sidebar.tsx:29 | toggling an absent id twice restores the list exactly |
| `Sidebar.ToggleTwicePresent` | src/components/Sidebar.tsx:29 | toggling a present id twice gives the list without it plus it at the end, the same membership set |
| `Sidebar.ToggleExample` | src/components/Sidebar.tsx:29 | toggling "1" on the empty list gives ["1"], and again gives [] |
| `Sidebar.Href` | src/components/Sidebar.tsx:50 | the link target is the url, or `"#"` when the url is absent or empty |
| `Sidebar.RowOfShape` | src/components/Sidebar.tsx:39-55 | a node's row carries its name and is indented 16 per level; it is a toggle button showing the node's expansion exactly when the node has a non-empty children array, and otherwise a link to its url or `"#"` |
| `Sidebar.RenderTree` | src/components/Sidebar.tsx:33-64 | at least one row per sibling; every row is at the given level or deeper and indented 16 per level |
| `Sidebar.RenderNode` | src/components/Sidebar.tsx:34-62 | the node's own row comes first, deeper rows follow; without children or when collapsed it is the only row; when expanded with children, the rows after its own are exactly the rendering of its children at the next level, once and in order |
| `Sidebar.RenderTreeAppend` | src/components/Sidebar.tsx:34 | the rows of two sibling runs are the rows of the first followed by those of the second (pre-order) |
| `Sidebar.RenderShowsVisible` | src/components/Sidebar.tsx:58-60 | every node whose ancestors all have children and are expanded is rendered as its own row at its depth |
| `Sidebar.RenderOnlyVisible` | src/components/Sidebar.tsx:58-60 | every row is the row of such a visible node, so descendants of a collapsed node never appear |
| `Sidebar.RenderCollapsed` | src/components/Sidebar.tsx:33-64 | with nothing expanded the rows are exactly the roots' rows, in order |
| `Sidebar.IdlessNodesShareExpansion` | src/components/Sidebar.tsx:36-42 | all id-less nodes share the key `""`: they are expanded together and one toggle flips them all |
| `Sidebar.SidebarState.constructor` | src/components/Sidebar.tsx:10 | the sidebar starts with no forest and no expanded id |
| `Sidebar.SidebarState.FetchSettled` | src/components/Sidebar.tsx:13-24 | a fetched forest replaces the state, a failure keeps it |
| `Sidebar.SidebarState.ToggleExpand` | src/components/Sidebar.tsx:27-31 | the expanded list becomes its toggle and stays free of duplicates |
| `Sidebar.SidebarState.Rows` | src/components/Sidebar.tsx:86 | the sidebar renders at least one row per root |

## Left out

- The HTTP calls: the two GET loads are modelled only by their outcome (a
  forest or a failure) passed to `FetchSettled`; the POST after adding and
  the PUT after editing are fire-and-forget and their results never reach the
  state, so they are not modelled.
- The `Modal` component and the modal bookkeeping state of the tree menu:
  they only carry the typed name and url to the save callbacks, which are
  `SaveAdd` and `SaveEdit` here.
- `src/components/MenuTree.tsx` and `src/app/layout.tsx` are not part of this
  model: the first fetches and renders every node unconditionally, the
  second is a static page layout.
- The sidebar's `open` width toggle (whether names are shown), CSS classes,
  icons and React `key` props: presentation only. A row always carries the
  node's name.
- `TreeMenu.TreeNodeView`: React discards a `TreeNode`'s state when its parent
  collapses and remounts it later collapsed; the model keeps one flag per
  view object and does not model mounting.
- A response that parses as JSON but is not an array of `TreeNodeData` is
  stored as it is and breaks the render; the model takes the forest as
  already parsed, so only a network error or invalid JSON is a failure.
