/**
 The single-pass builder: each input record, left to right, resolves its
 parent by id among the nodes created so far and becomes a node of the tree.
 */
module Builder {
  import opened Results
  import opened Nodes
  import opened Trees

  /** One flat input record; `parentId` is `None` when the field is absent or null. */
  datatype InputRecord = InputRecord(id: Id, name: string, kind: string, parentId: Option<Id>)

  /** JavaScript truthiness of an id: the number 0 and the empty string are falsy. */
  predicate Truthy(id: Id)
  {
    id != Num(0) && id != Str("")
  }

  /** The id to look the parent up by; a missing or falsy `parentId` means "no parent". */
  function ParentKey(parentId: Option<Id>): (key: Option<Id>)
    ensures key.Some? <==> parentId.Some? && Truthy(parentId.value)
    ensures key.Some? ==> key == parentId
  {
    match parentId
    case Some(id) => if Truthy(id) then Some(id) else None
    case None => None
  }

  /** The parent a record gets in tree `t`: the first node with its parent id, if any. */
  function ResolveParent(t: FileTree, rec: InputRecord): (parent: Option<nat>)
    ensures parent.Some? ==> parent.value < |t.nodes|
  {
    match ParentKey(rec.parentId)
    case None => None
    case Some(key) => FindNodeById(t, key)
  }

  /** One iteration of the builder's loop: resolve the record's parent, then create its node. */
  function BuildStep(t: FileTree, rec: InputRecord): (r: Result<FileTree, LinkError>)
    requires Closed(t.nodes)
    ensures r.Failure? ==> r.error == NotDirectory
    ensures r.Success? ==>
      && Closed(r.value.nodes)
      && |r.value.nodes| == |t.nodes| + 1
      && r.value.nodes[|t.nodes|].id == rec.id
      && r.value.nodes[|t.nodes|].name == rec.name
      && r.value.nodes[|t.nodes|].kind == rec.kind
      && forall k :: 0 <= k < |t.nodes| ==>
           r.value.nodes[k].id == t.nodes[k].id && r.value.nodes[k].name == t.nodes[k].name &&
           r.value.nodes[k].kind == t.nodes[k].kind
  {
    CreateNode(t, rec.id, rec.name, rec.kind, ResolveParent(t, rec))
  }

  /**
   `createFileTree`: build the tree from the records in order. A record whose
   parent is not a directory aborts the build; a duplicate child cannot arise,
   since every node is fresh when it is linked.
   */
  function CreateFileTree(input: seq<InputRecord>): (r: Result<FileTree, LinkError>)
    ensures r.Failure? ==> r.error == NotDirectory
    ensures r.Success? ==>
      && Closed(r.value.nodes)
      && |r.value.nodes| == |input|
      && forall k :: 0 <= k < |input| ==>
           r.value.nodes[k].id == input[k].id && r.value.nodes[k].name == input[k].name &&
           r.value.nodes[k].kind == input[k].kind
    decreases |input|
  {
    if |input| == 0 then Success(FileTree([]))
    else
      var t :- CreateFileTree(input[..|input| - 1]);
      BuildStep(t, input[|input| - 1])
  }

  /** Every tree the builder returns satisfies the tree invariant `Valid`. */
  lemma {:induction false} BuildIsValid(input: seq<InputRecord>)
    requires CreateFileTree(input).Success?
    ensures Valid(CreateFileTree(input).value.nodes)
    decreases |input|
  {
    if |input| > 0 {
      var pre := input[..|input| - 1];
      var rec := input[|input| - 1];
      BuildIsValid(pre);
      var t := CreateFileTree(pre).value;
      assert CreateFileTree(input) == BuildStep(t, rec);
      CreateNodePreservesValid(t, rec.id, rec.name, rec.kind, ResolveParent(t, rec));
    }
  }

  // ---------------------------------------------------------------------
  // A reference description of the built tree, computed from the input alone.
  // ---------------------------------------------------------------------

  /** The earliest of the first `n` records whose id is `key`. */
  function EarliestWithId(input: seq<InputRecord>, key: Id, n: nat): (r: Option<nat>)
    requires n <= |input|
    ensures r.Some? ==> r.value < n && input[r.value].id == key &&
                        forall j :: 0 <= j < r.value ==> input[j].id != key
    ensures r.None? ==> forall j :: 0 <= j < n ==> input[j].id != key
  {
    if n == 0 then None
    else
      match EarliestWithId(input, key, n - 1)
      case Some(j) => Some(j)
      case None => if input[n - 1].id == key then Some(n - 1) else None
  }

  /** The record that record `k` names as its parent among the records before it. */
  function ParentIndex(input: seq<InputRecord>, k: nat): (r: Option<nat>)
    requires k < |input|
    ensures r.Some? ==> r.value < k
  {
    match ParentKey(input[k].parentId)
    case None => None
    case Some(key) => EarliestWithId(input, key, k)
  }

  /** Every resolved parent is a record of type "DIRECTORY". */
  ghost predicate ParentsAreDirectories(input: seq<InputRecord>)
  {
    forall k :: 0 <= k < |input| && ParentIndex(input, k).Some? ==>
      IsDirectory(input[ParentIndex(input, k).value].kind)
  }

  /** The records among the first `n` whose parent is record `j`, in input order. */
  function ChildrenUpTo(input: seq<InputRecord>, j: nat, n: nat): (cs: seq<nat>)
    requires n <= |input|
    ensures forall x :: 0 <= x < |cs| ==> j < cs[x] < n && ParentIndex(input, cs[x]) == Some(j)
  {
    if n == 0 then []
    else
      var earlier := ChildrenUpTo(input, j, n - 1);
      if ParentIndex(input, n - 1) == Some(j) then earlier + [n - 1] else earlier
  }

  /** The arena the builder should produce for `input`. */
  function Expected(input: seq<InputRecord>): (nodes: Arena)
    ensures |nodes| == |input|
  {
    seq(|input|, k requires 0 <= k < |input| =>
      NodeRec(input[k].id, input[k].name, input[k].kind,
              ParentIndex(input, k), ChildrenUpTo(input, k, |input|)))
  }

  lemma {:induction false} EarliestWithIdPrefix(input: seq<InputRecord>, key: Id, n: nat, m: nat)
    requires n <= m <= |input|
    ensures EarliestWithId(input[..m], key, n) == EarliestWithId(input, key, n)
  {
    if n > 0 {
      EarliestWithIdPrefix(input, key, n - 1, m);
    }
  }

  /** A record's parent depends only on the records up to it. */
  lemma ParentIndexPrefix(input: seq<InputRecord>, m: nat, k: nat)
    requires k < m <= |input|
    ensures ParentIndex(input[..m], k) == ParentIndex(input, k)
  {
    assert input[..m][k] == input[k];
    match ParentKey(input[k].parentId)
    case None =>
    case Some(key) => EarliestWithIdPrefix(input, key, k, m);
  }

  lemma {:induction false} ChildrenUpToPrefix(input: seq<InputRecord>, m: nat, j: nat, n: nat)
    requires n <= m <= |input|
    ensures ChildrenUpTo(input[..m], j, n) == ChildrenUpTo(input, j, n)
  {
    if n > 0 {
      ChildrenUpToPrefix(input, m, j, n - 1);
      ParentIndexPrefix(input, m, n - 1);
    }
  }

  lemma ParentsAreDirectoriesPrefix(input: seq<InputRecord>)
    requires |input| > 0
    ensures var m := |input| - 1;
      ParentsAreDirectories(input) <==>
      ParentsAreDirectories(input[..m]) &&
      (ParentIndex(input, m).Some? ==> IsDirectory(input[ParentIndex(input, m).value].kind))
  {
    var m := |input| - 1;
    forall k | 0 <= k < m
      ensures ParentIndex(input[..m], k) == ParentIndex(input, k)
      ensures ParentIndex(input, k).Some? ==> input[..m][ParentIndex(input, k).value] == input[ParentIndex(input, k).value]
    {
      ParentIndexPrefix(input, m, k);
    }
  }

  /** Looking the parent up in the tree built so far finds the reference parent. */
  lemma ResolveParentIsParentIndex(input: seq<InputRecord>, t: FileTree)
    requires |input| > 0
    requires |t.nodes| == |input| - 1
    requires forall k :: 0 <= k < |t.nodes| ==> t.nodes[k].id == input[k].id
    ensures ResolveParent(t, input[|input| - 1]) == ParentIndex(input, |input| - 1)
  {
    var m := |input| - 1;
    match ParentKey(input[m].parentId)
    case None =>
    case Some(key) =>
      var found := FindNodeById(t, key);
      var expected := EarliestWithId(input, key, m);
      assert found == expected;
  }

  /** No record before or at record `j` can have `j` as its parent. */
  lemma {:induction false} NoChildrenBeforeOwner(input: seq<InputRecord>, j: nat, n: nat)
    requires n <= |input| && n <= j + 1
    ensures ChildrenUpTo(input, j, n) == []
  {
    if n > 0 {
      NoChildrenBeforeOwner(input, j, n - 1);
    }
  }

  /**
   The builder yields exactly the reference arena when every resolved parent
   is a directory, and fails with `NotDirectory` otherwise.
   */
  lemma {:induction false} BuildMatchesReference(input: seq<InputRecord>)
    ensures CreateFileTree(input) ==
      if ParentsAreDirectories(input) then Success(FileTree(Expected(input)))
      else Failure(NotDirectory)
    decreases |input|
  {
    if |input| == 0 {
      assert Expected(input) == [];
    } else {
      var m := |input| - 1;
      BuildMatchesReference(input[..m]);
      ParentsAreDirectoriesPrefix(input);
      if ParentsAreDirectories(input[..m]) {
        var t := FileTree(Expected(input[..m]));
        BuildUnfolds(input, t);
        LastStepMatchesReference(input, t);
      }
    }
  }

  /** The build of a non-empty input is one `BuildStep` after the build of its prefix. */
  lemma BuildUnfolds(input: seq<InputRecord>, t: FileTree)
    requires |input| > 0
    requires CreateFileTree(input[..|input| - 1]) == Success(t)
    ensures Closed(t.nodes)
    ensures CreateFileTree(input) == BuildStep(t, input[|input| - 1])
  {
  }

  /** The last build step, taken from the reference arena of the prefix before it. */
  lemma LastStepMatchesReference(input: seq<InputRecord>, t: FileTree)
    requires |input| > 0
    requires Closed(t.nodes)
    requires t.nodes == Expected(input[..|input| - 1])
    ensures var m := |input| - 1;
      BuildStep(t, input[m]) ==
      if ParentIndex(input, m).Some? && !IsDirectory(input[ParentIndex(input, m).value].kind)
      then Failure(NotDirectory)
      else Success(FileTree(Expected(input)))
  {
    var m := |input| - 1;
    var rec := input[m];
    assert forall k :: 0 <= k < |t.nodes| ==> t.nodes[k].id == input[k].id;
    ResolveParentIsParentIndex(input, t);
    var parent := ParentIndex(input, m);
    var r := CreateNode(t, rec.id, rec.name, rec.kind, parent);
    assert BuildStep(t, rec) == r;
    if r.Success? {
      ExtendsReference(input, r.value.nodes);
    }
  }

  /** One build step turns the reference arena of a prefix into the reference arena of the input. */
  lemma ExtendsReference(input: seq<InputRecord>, nodes: Arena)
    requires |input| > 0
    requires var m := |input| - 1;
      Appended(Expected(input[..m]), nodes, ParentIndex(input, m)) &&
      nodes[m].id == input[m].id && nodes[m].name == input[m].name && nodes[m].kind == input[m].kind
    ensures nodes == Expected(input)
  {
    var m := |input| - 1;
    var pre := input[..m];
    var parent := ParentIndex(input, m);
    var exp := Expected(input);
    forall i | 0 <= i < |input|
      ensures nodes[i] == exp[i]
    {
      if i == m {
        NoChildrenBeforeOwner(input, m, m + 1);
      } else {
        ParentIndexPrefix(input, m, i);
        ChildrenUpToPrefix(input, m, i, m);
        assert pre[i] == input[i];
        assert exp[i].children == ChildrenUpTo(input, i, m) + (if parent == Some(i) then [m] else []);
      }
    }
  }

  // ---------------------------------------------------------------------
  // Consequences for callers.
  // ---------------------------------------------------------------------

  /** The build succeeds exactly when no record resolves to a non-directory parent. */
  lemma BuildSucceedsIff(input: seq<InputRecord>)
    ensures CreateFileTree(input).Success? <==> ParentsAreDirectories(input)
    ensures !ParentsAreDirectories(input) ==> CreateFileTree(input) == Failure(NotDirectory)
  {
    BuildMatchesReference(input);
  }

  /** After a successful build, node `k`'s parent is the first earlier record carrying its parent id. */
  lemma BuildParents(input: seq<InputRecord>)
    requires CreateFileTree(input).Success?
    ensures forall k :: 0 <= k < |input| ==>
      CreateFileTree(input).value.nodes[k].parent == ParentIndex(input, k)
  {
    BuildMatchesReference(input);
  }

  /** After a successful build, each node lists the records that resolved to it, in input order. */
  lemma BuildChildren(input: seq<InputRecord>)
    requires CreateFileTree(input).Success?
    ensures forall k :: 0 <= k < |input| ==>
      CreateFileTree(input).value.nodes[k].children == ChildrenUpTo(input, k, |input|)
  {
    BuildMatchesReference(input);
  }

  /** The roots of a built tree are exactly the records whose parent did not resolve. */
  lemma BuildRoots(input: seq<InputRecord>)
    requires CreateFileTree(input).Success?
    ensures forall k :: 0 <= k < |input| ==>
      (k in GetRootNodes(CreateFileTree(input).value) <==> ParentIndex(input, k).None?)
  {
    BuildParents(input);
  }

  /** A missing or falsy parent id, or one no earlier record carries, resolves to no parent. */
  lemma UnresolvedParentIndex(input: seq<InputRecord>, k: nat)
    requires k < |input|
    requires ParentKey(input[k].parentId).None? ||
             forall j :: 0 <= j < k ==> input[j].id != input[k].parentId.value
    ensures ParentIndex(input, k).None?
  {
  }

  /**
   A record with no parent id, a falsy one (0 or ""), or one that names no
   earlier record becomes a root instead of failing.
   */
  lemma UnresolvedParentBecomesRoot(input: seq<InputRecord>, k: nat)
    requires k < |input|
    requires CreateFileTree(input).Success?
    requires ParentKey(input[k].parentId).None? ||
             forall j :: 0 <= j < k ==> input[j].id != input[k].parentId.value
    ensures CreateFileTree(input).value.nodes[k].parent.None?
    ensures k in GetRootNodes(CreateFileTree(input).value)
  {
    UnresolvedParentIndex(input, k);
    BuildParents(input);
  }

  /**
   The step for a record whose parent does not resolve never throws: the
   build up to and including it succeeds exactly when the build before it
   did, and the record's node then has no parent.
   */
  lemma UnresolvedParentStepSucceeds(input: seq<InputRecord>, k: nat)
    requires k < |input|
    requires ParentKey(input[k].parentId).None? ||
             forall j :: 0 <= j < k ==> input[j].id != input[k].parentId.value
    ensures CreateFileTree(input[..k + 1]).Success? <==> CreateFileTree(input[..k]).Success?
    ensures CreateFileTree(input[..k + 1]).Success? ==>
      CreateFileTree(input[..k + 1]).value.nodes[k].parent.None?
  {
    var upTo := input[..k + 1];
    assert upTo[..k] == input[..k];
    assert upTo[k] == input[k];
    UnresolvedParentIndex(input, k);
    ParentIndexPrefix(input, k + 1, k);
    ParentsAreDirectoriesPrefix(upTo);
    BuildSucceedsIff(upTo);
    BuildSucceedsIff(input[..k]);
    if CreateFileTree(upTo).Success? {
      BuildParents(upTo);
    }
  }

  /** Input in which no record's parent resolves gives a flat tree: every node is a root. */
  lemma FlatInputGivesOnlyRoots(input: seq<InputRecord>)
    requires forall k :: 0 <= k < |input| ==> ParentIndex(input, k).None?
    ensures CreateFileTree(input).Success?
    ensures GetRootNodes(CreateFileTree(input).value) == seq(|input|, i => i)
  {
    BuildSucceedsIff(input);
    BuildParents(input);
    AllRootsUpTo(CreateFileTree(input).value.nodes, |input|);
  }

  /** Empty input gives a tree with no nodes and no roots. */
  lemma EmptyInputGivesEmptyTree()
    ensures CreateFileTree([]) == Success(FileTree([]))
    ensures GetRootNodes(CreateFileTree([]).value) == []
  {
  }
}
