/**
 A single file tree node and its linking operations.

 Nodes live in an arena (`Arena`, a sequence of records); a node is named by
 its index in the arena, which stands in for JavaScript object identity, so
 `children` and `parent` hold indices. Every operation is a pure function
 from an arena to a new arena (or to the reason the JavaScript code would throw).
 */
module Nodes {
  import opened Results

  /** A node identifier: the JavaScript code accepts numbers or strings and compares them with `===`. */
  datatype Id = Num(n: int) | Str(s: string)

  /** The only `type` string under which a node may own children. */
  const Directory: string := "DIRECTORY"

  /** Why linking a child was refused. */
  datatype LinkError =
    | NotDirectory   // the would-be parent's type is not exactly "DIRECTORY"
    | AlreadyChild   // the node is already in the parent's children (by identity)

  /** One node: `parent` is `None` for a root, `children` keeps insertion order. */
  datatype NodeRec = NodeRec(id: Id, name: string, kind: string, parent: Option<nat>, children: seq<nat>)

  type Arena = seq<NodeRec>

  predicate IsDirectory(kind: string) {
    kind == Directory
  }

  /**
   `getChildren`: the children of node `n`, in the order they were added.
   What it returns is exactly what `hasChild` finds by its scan.
   */
  function GetChildren(a: Arena, n: nat): (cs: seq<nat>)
    requires n < |a|
    ensures forall c: nat :: c in cs <==> HasChild(a, n, c)
  {
    a[n].children
  }

  /** Linear scan of `s` from position `i` for the element `x`. */
  function ScanFor(s: seq<nat>, x: nat, i: nat): (found: bool)
    requires i <= |s|
    ensures found <==> x in s[i..]
    decreases |s| - i
  {
    if i == |s| then false
    else if s[i] == x then true
    else ScanFor(s, x, i + 1)
  }

  /** Whether `c` is one of `p`'s children, compared by identity. */
  function HasChild(a: Arena, p: nat, c: nat): (found: bool)
    requires p < |a|
    ensures found <==> c in a[p].children
  {
    ScanFor(a[p].children, c, 0)
  }

  /**
   Every link names a node of the arena: a JavaScript reference always
   denotes an existing object, and the arena encoding keeps that fact.
   */
  ghost predicate Closed(a: Arena)
  {
    forall i :: 0 <= i < |a| ==>
      (a[i].parent.Some? ==> a[i].parent.value < |a|) &&
      forall k :: 0 <= k < |a[i].children| ==> a[i].children[k] < |a|
  }

  /** `id`, `name` and `kind` never change once a node exists. */
  ghost predicate SameIdentity(a: Arena, a': Arena)
  {
    |a'| == |a| &&
    forall i :: 0 <= i < |a| ==>
      a'[i].id == a[i].id && a'[i].name == a[i].name && a'[i].kind == a[i].kind
  }

  /**
   `a'` is `a` after linking `c` under `p`: `c` is appended to `p`'s children,
   `c`'s parent is `p`, and nothing else has changed.
   */
  ghost predicate Linked(a: Arena, a': Arena, p: nat, c: nat)
    requires p < |a| && c < |a|
  {
    && SameIdentity(a, a')
    && a'[p].children == a[p].children + [c]
    && a'[c].parent == Some(p)
    && (p != c ==> a'[p].parent == a[p].parent && a'[c].children == a[c].children)
    && (forall i :: 0 <= i < |a| && i != p && i != c ==> a'[i] == a[i])
  }

  /**
   `p.addChild(c)`: refuses a parent whose type is not "DIRECTORY" and a
   child already listed, otherwise appends `c` and calls `c.setParent(p)`.
   The two functions are mutually recursive, as in the JavaScript code; the contract
   shows the recursion stops after one round.
   */
  function AddChild(a: Arena, p: nat, c: nat): (r: Result<Arena, LinkError>)
    requires p < |a| && c < |a|
    ensures r.Failure? <==> !IsDirectory(a[p].kind) || c in a[p].children
    ensures r.Failure? && !IsDirectory(a[p].kind) ==> r.error == NotDirectory
    ensures r.Failure? && IsDirectory(a[p].kind) ==> r.error == AlreadyChild
    ensures r.Success? ==> Linked(a, r.value, p, c)
    decreases if c in a[p].children then 0 else 1, 1
  {
    if !IsDirectory(a[p].kind) then Failure(NotDirectory)
    else if HasChild(a, p, c) then Failure(AlreadyChild)
    else
      var pushed := a[p := a[p].(children := a[p].children + [c])];
      SetParent(pushed, c, p)
  }

  /**
   `c.setParent(p)`: records `p` as `c`'s parent, then asks `p` to add `c`
   unless `p` already lists it.
   */
  function SetParent(a: Arena, c: nat, p: nat): (r: Result<Arena, LinkError>)
    requires p < |a| && c < |a|
    ensures c in a[p].children ==>
      r.Success? && SameIdentity(a, r.value) &&
      r.value[c].parent == Some(p) && r.value[c].children == a[c].children &&
      forall i :: 0 <= i < |a| && i != c ==> r.value[i] == a[i]
    ensures c !in a[p].children ==>
      (r.Failure? <==> !IsDirectory(a[p].kind)) &&
      (r.Failure? ==> r.error == NotDirectory) &&
      (r.Success? ==> Linked(a, r.value, p, c))
    decreases if c in a[p].children then 0 else 1, 2
  {
    var marked := a[c := a[c].(parent := Some(p))];
    if !HasChild(marked, p, c) then AddChild(marked, p, c)
    else Success(marked)
  }

  /** Once `c` has been added under `p`, adding it again is refused. */
  lemma AddChildTwiceFails(a: Arena, p: nat, c: nat)
    requires p < |a| && c < |a|
    requires AddChild(a, p, c).Success?
    ensures AddChild(AddChild(a, p, c).value, p, c) == Failure(AlreadyChild)
    ensures |GetChildren(AddChild(a, p, c).value, p)| == |GetChildren(a, p)| + 1
  {
  }

  /** No index occurs twice in `s`. */
  ghost predicate Distinct(s: seq<nat>)
  {
    forall i, j :: 0 <= i < j < |s| ==> s[i] != s[j]
  }

  /** Because of the duplicate guard, a successful link never lists a child twice. */
  lemma AddChildKeepsChildrenDistinct(a: Arena, p: nat, c: nat)
    requires p < |a| && c < |a|
    requires forall n :: 0 <= n < |a| ==> Distinct(a[n].children)
    requires AddChild(a, p, c).Success?
    ensures forall n :: 0 <= n < |a| ==> Distinct(AddChild(a, p, c).value[n].children)
  {
  }
}
