# File tree builder, modelled in Dafny

The repository builds an in-memory file tree from a flat list of records
`{id, name, type, parentId}` (`src/app/app.js`). A `FileTreeNode` has an id,
a name, a type string, a `parentNode` back-reference and a private `children`
array. Nodes are linked through the mutually recursive `addChild` and
`setParent`. `addChild` refuses a parent whose type is not exactly
`'DIRECTORY'`, and it refuses a child the parent already lists (compared by
identity). A `FileTree` owns the insertion-ordered `nodes` array. It answers
`getRootNodes` and `findNodeById` by linear scan, and `createNode` makes a
node and links it under an optional parent. `createFileTree` makes one pass
over the input. For each record it resolves the parent by id among the nodes
created so far, then calls `createNode`.

The model is functional. All nodes live in an arena (`Nodes.Arena`, a
`seq<NodeRec>`), and a node is named by its index, which stands in for
JavaScript object identity. Each operation maps an arena to a new arena or
to the reason the source would throw (`Results.Result` with `Nodes.LinkError`
= `NotDirectory | AlreadyChild`).

- `results.dfy`: module `Results`, with `Option` (for `null`) and `Result` (for a thrown string).
- `file_tree_node.dfy`: module `Nodes`, holding the node record and `HasChild`, `GetChildren`, `AddChild` and `SetParent`. `AddChild` and `SetParent` stay mutually recursive, as in the source. Their contracts show that the recursion ends after one round. The net effect is one append to the parent's children, with the child's parent set to the parent; entering through `setParent` writes that parent link twice, as the JavaScript code does, to the same value.
- `file_tree.dfy`: module `Trees`, holding `GetRootNodes`, `FindNodeById` and `CreateNode`. It also defines the tree invariant `Valid`:
  - links stay inside the arena;
  - a parent is an earlier node, of type `"DIRECTORY"`, that lists the child;
  - every listed child points back at its owner;
  - no list names a child twice;
  - a non-directory has no children.

  `CreateNodePreservesValid` proves that `CreateNode` keeps this invariant, and `Builder.BuildIsValid` proves that every built tree satisfies it.
- `create_file_tree.dfy`: module `Builder`, holding `CreateFileTree` (recursive over input prefixes, in input order) and a reference description `Expected` computed from the input alone. `BuildMatchesReference` proves the builder equals that reference, and the caller-facing lemmas are derived from it.
- `scenarios.dfy`: module `Scenarios`, a set of concrete builds.

Modelling choices:
- Ids are `Num(int) | Str(string)`. Datatype equality plays the part of `===`, so `Num(1)` and `Str("1")` differ.
- A node's type is the source's string. Only the exact string `"DIRECTORY"` may own children.
- The test `inputNode.parentId ? … : null` at `app.js:145` is modelled by `Builder.ParentKey`. A missing `parentId`, the number `0` and the empty string all mean "no parent".
- `createNode` gives the new node index `|nodes|` before linking it, which matches JavaScript building the object before `addChild`. The node becomes part of the tree only when linking succeeds.
- A failure returns no tree, so the caller's tree is exactly the one it had before the call (all-or-nothing). In the source, `addChild` throws before it mutates anything, so nothing leaks there either.
- The code does not stop a directory from being added as its own child: `p.addChild(p)` succeeds. The model follows the code, and `AddChild`'s contract covers `p == c`. The builder never reaches this case, because each new node is fresh.
- A failed build reports only the error kind, since the thrown strings carry no record id or name.

## Model

| member | source | states |
|---|---|---|
| `Nodes.HasChild` | src/app/app.js:58-67 | The linear scan over the children answers true exactly when the node is in the parent's children list (membership by identity). |
| `Nodes.GetChildren` | src/app/app.js:74-76 | A node belongs to the returned list exactly when `hasChild` finds it among the node's children. |
| `Nodes.AddChild` | src/app/app.js:39-50 | Fails exactly when the parent's type is not `"DIRECTORY"` (`NotDirectory`) or the child is already listed (`AlreadyChild`). On success the child is appended at the end of the parent's list, its parent becomes the parent, and nothing else changes: the mutual recursion stops after one round. |
| `Nodes.SetParent` | src/app/app.js:23-29 | If the parent already lists the node, only the node's parent link changes. Otherwise the result is that of adding the child: it fails only for a non-directory parent, and otherwise links in both directions. |
| `Nodes.AddChildTwiceFails` | src/app/app.js:44-49 | After a successful link, linking the same child under the same parent again fails with `AlreadyChild`. The children list has grown by exactly one. |
| `Nodes.AddChildKeepsChildrenDistinct` | src/app/app.js:44-48 | If no children list names a node twice before a successful `addChild`, none does after it. |
| `Trees.GetRootNodes` | src/app/app.js:92-100 | The result lists, in strictly increasing (insertion) order, exactly the nodes whose parent is absent. |
| `Trees.FindNodeById` | src/app/app.js:108-115 | Returns the first node in insertion order whose id equals the given id. Returns `None` (not an error) exactly when no node has that id. |
| `Trees.CreateNode` | src/app/app.js:126-132 | Fails, with `NotDirectory`, exactly when a parent is given and its type is not `"DIRECTORY"`; a duplicate child cannot occur. On success the tree grows by one node at the end, with the given fields, parent and no children. Only the parent's children list changes, by appending the new node. |
| `Trees.CreateNodePreservesValid` | src/app/app.js:126-132 | Creating a node keeps the tree invariant `Valid`. |
| `Builder.CreateFileTree` | src/app/app.js:141-149 | The only failure is `NotDirectory`. On success the tree has one node per record, with the same ids, names and types in input order, and every link names a node of the tree. |
| `Builder.BuildIsValid` | src/app/app.js:141-148 | Every tree the builder returns satisfies `Valid`: consistent parent and child links, parents earlier and of type `"DIRECTORY"`, no duplicate children, childless leaves. |
| `Builder.ResolveParentIsParentIndex` | src/app/app.js:145 | Looking the parent id up in the tree built so far finds the earliest earlier record with that id, or nothing. |
| `Builder.BuildMatchesReference` | src/app/app.js:141-148 | The build equals the reference arena computed from the input alone when every resolved parent is a directory, and fails with `NotDirectory` otherwise. |
| `Builder.BuildSucceedsIff` | src/app/app.js:143-146 | The build succeeds if and only if no record resolves to a parent whose type is not `"DIRECTORY"`. |
| `Builder.BuildParents` | src/app/app.js:145-146 | In a built tree, each node's parent is the first earlier record carrying its parent id, or none. |
| `Builder.BuildChildren` | src/app/app.js:145-146 | In a built tree, each node's children are exactly the records that resolved to it, in input order. |
| `Builder.BuildRoots` | src/app/app.js:141-148 | The roots of a built tree are exactly the records whose parent did not resolve. |
| `Builder.UnresolvedParentIndex` | src/app/app.js:145 | A parent id that is missing or falsy, or that no earlier record carries, resolves to no parent. |
| `Builder.UnresolvedParentBecomesRoot` | src/app/app.js:145 | In a successful build, a record whose parent id is missing, is `0` or `""`, or names no earlier record is a root. |
| `Builder.UnresolvedParentStepSucceeds` | src/app/app.js:145-146 | The step for such a record never throws: the build through it succeeds exactly when the build before it did, and its node then has no parent. |
| `Builder.FlatInputGivesOnlyRoots` | src/app/app.js:92-100 | If no record's parent resolves, the build succeeds and its roots are all the nodes, in input order. |
| `Trees.AllRootsUpTo` | src/app/app.js:94-98 | When no node has a parent, the root scan returns every node, in insertion order. |
| `Builder.EmptyInputGivesEmptyTree` | src/app/app.js:141-148 | Empty input gives a tree with no nodes and no roots. |
| `Scenarios.DirectoryWithFile` | src/app/app.js:141-148 | A directory with one file under it gives two nodes, the directory as the only root, and the file as its only child. |
| `Scenarios.ChildOfFileFails` | src/app/app.js:39-42 | A record placed under a file aborts the build with `NotDirectory`. |
| `Scenarios.LowerCaseDirectoryFails` | src/app/app.js:40 | A parent typed `"directory"` (not the exact string) refuses children. |
| `Scenarios.ForwardReferenceBecomesRoot` | src/app/app.js:145 | A parent id that only a later record carries leaves the record a root. |
| `Scenarios.ZeroParentIdMeansNoParent` | src/app/app.js:145 | A parent id of `0` is falsy, so the record is a root even though a node with id 0 exists. |
| `Scenarios.DuplicateIdResolvesToFirst` | src/app/app.js:108-115 | When two nodes share an id, the first one becomes the parent. |

## Left out

- `module.exports`, the constructor functions and the closures are not modelled. Nodes are records in an arena, not objects with methods.
- `getChildren` returns the live `children` array, so a caller could mutate it and bypass `addChild`. `Nodes.GetChildren` returns the list by value instead.
- Calling `setParent` directly on a node that already has a parent is covered by `Nodes.SetParent`'s contract. In that case the node also stays listed under its old parent, which breaks `Valid`. The builder never takes this path, because every node it links is fresh.
- Nodes.SetParent: when the parent is not a directory, the source has already overwritten `parentNode` before `addChild` throws. The model's `Failure` carries no arena, so this leaked write is not represented.
- JavaScript truthiness is modelled only for `parentId`, and only for ids that are integers or strings. Non-integer numbers, `NaN`, `false` and other falsy values are not ids here.
- The exception message strings are replaced by the two `LinkError` variants.
