/**
 The file tree: the insertion-ordered arena of every node it created, with
 root enumeration, lookup by id and node creation.
 */
module Trees {
  import opened Results
  import opened Nodes

  /** `nodes` holds every node the tree created, in creation order; indices name nodes. */
  datatype FileTree = FileTree(nodes: Arena)

  /** Each parent is an earlier node, of type "DIRECTORY", that lists the child. */
  ghost predicate ParentsSound(nodes: Arena)
  {
    forall i, j :: 0 <= i < |nodes| && 0 <= j < |nodes| && nodes[i].parent == Some(j) ==>
      j < i && IsDirectory(nodes[j].kind) && i in nodes[j].children
  }

  /** Each node in a children list has that list's owner as its parent. */
  ghost predicate ChildrenPointBack(nodes: Arena)
  {
    forall j, c :: 0 <= j < |nodes| && 0 <= c < |nodes| && c in nodes[j].children ==>
      nodes[c].parent == Some(j)
  }

  /** No children list names a node twice. */
  ghost predicate ChildrenDistinct(nodes: Arena)
  {
    forall j :: 0 <= j < |nodes| ==> Distinct(nodes[j].children)
  }

  /** A node whose type is not "DIRECTORY" owns no children. */
  ghost predicate LeavesChildless(nodes: Arena)
  {
    forall j :: 0 <= j < |nodes| && !IsDirectory(nodes[j].kind) ==> nodes[j].children == []
  }

  /**
   The shape every tree built through `CreateNode` keeps: links stay inside
   the arena, parent and child links agree in both directions, parents come
   first and are directories, no child is listed twice, leaves stay empty.
   */
  ghost predicate Valid(nodes: Arena)
  {
    && Closed(nodes)
    && ParentsSound(nodes)
    && ChildrenPointBack(nodes)
    && ChildrenDistinct(nodes)
    && LeavesChildless(nodes)
  }

  /**
   `nodes'` is `nodes` with one node `n == |nodes|` added under `parent`:
   the new node is last, and only the parent's children list changed.
   */
  ghost predicate Appended(nodes: Arena, nodes': Arena, parent: Option<nat>)
  {
    var n := |nodes|;
    && (parent.Some? ==> parent.value < n)
    && |nodes'| == n + 1
    && nodes'[n].parent == parent && nodes'[n].children == []
    && (forall i :: 0 <= i < n && Some(i) != parent ==> nodes'[i] == nodes[i])
    && (parent.Some? ==>
          nodes'[parent.value] ==
          nodes[parent.value].(children := nodes[parent.value].children + [n]))
  }

  /** Indices strictly increase along `s`, so `s` lists distinct nodes in tree order. */
  ghost predicate Increasing(s: seq<nat>)
  {
    forall i, j :: 0 <= i < j < |s| ==> s[i] < s[j]
  }

  /** The parentless nodes among the first `n`, in insertion order. */
  function RootsUpTo(nodes: Arena, n: nat): (roots: seq<nat>)
    requires n <= |nodes|
    ensures Increasing(roots)
    ensures forall k :: 0 <= k < |roots| ==> roots[k] < n && nodes[roots[k]].parent.None?
    ensures forall i :: 0 <= i < n && nodes[i].parent.None? ==> i in roots
  {
    if n == 0 then []
    else
      var earlier := RootsUpTo(nodes, n - 1);
      if nodes[n - 1].parent.None? then earlier + [n - 1] else earlier
  }

  /** `getRootNodes`: exactly the parentless nodes, in insertion order. */
  function GetRootNodes(t: FileTree): (roots: seq<nat>)
    ensures Increasing(roots)
    ensures forall k :: 0 <= k < |roots| ==> roots[k] < |t.nodes| && t.nodes[roots[k]].parent.None?
    ensures forall i :: 0 <= i < |t.nodes| ==> (t.nodes[i].parent.None? <==> i in roots)
  {
    RootsUpTo(t.nodes, |t.nodes|)
  }

  /** When none of the first `n` nodes has a parent, all of them are roots, in order. */
  lemma {:induction false} AllRootsUpTo(nodes: Arena, n: nat)
    requires n <= |nodes|
    requires forall i :: 0 <= i < n ==> nodes[i].parent.None?
    ensures RootsUpTo(nodes, n) == seq(n, i => i)
  {
    if n > 0 {
      AllRootsUpTo(nodes, n - 1);
      assert seq(n, i => i) == seq(n - 1, i => i) + [n - 1];
    }
  }

  /** Forward scan of `nodes` from position `i` for the id `id`. */
  function FindFrom(nodes: Arena, id: Id, i: nat): (r: Option<nat>)
    requires i <= |nodes|
    ensures r.Some? ==> i <= r.value < |nodes| && nodes[r.value].id == id &&
                        forall j :: i <= j < r.value ==> nodes[j].id != id
    ensures r.None? ==> forall j :: i <= j < |nodes| ==> nodes[j].id != id
    decreases |nodes| - i
  {
    if i == |nodes| then None
    else if nodes[i].id == id then Some(i)
    else FindFrom(nodes, id, i + 1)
  }

  /** `findNodeById`: the first node in insertion order with this id, or `None` if there is none. */
  function FindNodeById(t: FileTree, id: Id): (r: Option<nat>)
    ensures r.Some? ==> r.value < |t.nodes| && t.nodes[r.value].id == id &&
                        forall j :: 0 <= j < r.value ==> t.nodes[j].id != id
    ensures r.None? ==> forall j :: 0 <= j < |t.nodes| ==> t.nodes[j].id != id
  {
    FindFrom(t.nodes, id, 0)
  }

  /**
   `createNode`: make a node and, when a parent is given, link it there. The
   new node is registered at the end of `nodes` only if linking succeeded; a
   failure returns no tree, so the caller's tree is the one it had.
   */
  function CreateNode(t: FileTree, id: Id, name: string, kind: string, parent: Option<nat>)
    : (r: Result<FileTree, LinkError>)
    requires Closed(t.nodes)
    requires parent.Some? ==> parent.value < |t.nodes|
    ensures r.Failure? <==> parent.Some? && !IsDirectory(t.nodes[parent.value].kind)
    ensures r.Failure? ==> r.error == NotDirectory
    ensures r.Success? ==> Closed(r.value.nodes)
    ensures r.Success? ==>
      var n := |t.nodes|;
      && |r.value.nodes| == n + 1
      && r.value.nodes[n] == NodeRec(id, name, kind, parent, [])
      && (forall i :: 0 <= i < n && Some(i) != parent ==> r.value.nodes[i] == t.nodes[i])
      && (parent.Some? ==>
            r.value.nodes[parent.value] ==
            t.nodes[parent.value].(children := t.nodes[parent.value].children + [n]))
  {
    // the freshly constructed node: no parent and no children yet
    var arena := t.nodes + [NodeRec(id, name, kind, None, [])];
    match parent
    case None =>
      AppendedClosed(t.nodes, arena, parent);
      Success(FileTree(arena))
    case Some(p) =>
      assert |t.nodes| !in arena[p].children by {
        assert arena[p] == t.nodes[p];
      }
      var linked :- AddChild(arena, p, |t.nodes|);
      AppendedClosed(t.nodes, linked, parent);
      Success(FileTree(linked))
  }

  lemma AppendedClosed(nodes: Arena, nodes': Arena, parent: Option<nat>)
    requires Closed(nodes) && Appended(nodes, nodes', parent)
    ensures Closed(nodes')
  {
    forall i | 0 <= i < |nodes'|
      ensures nodes'[i].parent.Some? ==> nodes'[i].parent.value < |nodes'|
      ensures forall k :: 0 <= k < |nodes'[i].children| ==> nodes'[i].children[k] < |nodes'|
    {
      if i < |nodes| && Some(i) != parent {
        assert nodes'[i] == nodes[i];
      }
    }
  }

  lemma AppendedParentsSound(nodes: Arena, nodes': Arena, parent: Option<nat>)
    requires Valid(nodes) && Appended(nodes, nodes', parent)
    requires parent.Some? ==> IsDirectory(nodes[parent.value].kind)
    ensures ParentsSound(nodes')
  {
    var n := |nodes|;
    forall i, j | 0 <= i < |nodes'| && 0 <= j < |nodes'| && nodes'[i].parent == Some(j)
      ensures j < i && IsDirectory(nodes'[j].kind) && i in nodes'[j].children
    {
      if i < n {
        assert nodes'[i].parent == nodes[i].parent;
        assert j < i && i in nodes[j].children;
        if Some(j) != parent {
          assert nodes'[j] == nodes[j];
        }
      }
    }
  }

  lemma AppendedChildrenPointBack(nodes: Arena, nodes': Arena, parent: Option<nat>)
    requires Valid(nodes) && Appended(nodes, nodes', parent)
    ensures ChildrenPointBack(nodes')
  {
    var n := |nodes|;
    forall j, c | 0 <= j < |nodes'| && 0 <= c < |nodes'| && c in nodes'[j].children
      ensures nodes'[c].parent == Some(j)
    {
      if j < n {
        if Some(j) == parent && c == n {
        } else {
          assert c in nodes[j].children;
          assert c < n && nodes[c].parent == Some(j);
          assert nodes'[c].parent == nodes[c].parent;
        }
      }
    }
  }

  lemma AppendedChildrenDistinct(nodes: Arena, nodes': Arena, parent: Option<nat>)
    requires Valid(nodes) && Appended(nodes, nodes', parent)
    ensures ChildrenDistinct(nodes')
  {
    var n := |nodes|;
    forall j | 0 <= j < |nodes'|
      ensures Distinct(nodes'[j].children)
    {
      if j < n && Some(j) == parent {
        assert n !in nodes[j].children;
      } else if j < n {
        assert nodes'[j] == nodes[j];
      }
    }
  }

  /** Creating a node keeps the tree invariant. */
  lemma CreateNodePreservesValid(t: FileTree, id: Id, name: string, kind: string, parent: Option<nat>)
    requires Valid(t.nodes)
    requires parent.Some? ==> parent.value < |t.nodes|
    requires CreateNode(t, id, name, kind, parent).Success?
    ensures Valid(CreateNode(t, id, name, kind, parent).value.nodes)
  {
    var nodes := CreateNode(t, id, name, kind, parent).value.nodes;
    assert Appended(t.nodes, nodes, parent);
    AppendedClosed(t.nodes, nodes, parent);
    AppendedParentsSound(t.nodes, nodes, parent);
    AppendedChildrenPointBack(t.nodes, nodes, parent);
    AppendedChildrenDistinct(t.nodes, nodes, parent);
  }
}
