/**
 Concrete builds that pin the builder's behaviour on small inputs. These
 are examples, not general lemmas: each one's precondition fixes `input` to
 a single literal. The input is a parameter rather than a local `var` so
 that the verifier does not unfold the build over the literal, which is
 costly; instead each proof argues through the builder's link lemmas.
 */
module Scenarios {
  import opened Results
  import opened Nodes
  import opened Trees
  import opened Builder

  /** A directory with one file under it: two nodes, one root, one child. */
  lemma DirectoryWithFile(input: seq<InputRecord>)
    requires input == [
      InputRecord(Num(1), "root", "DIRECTORY", None),
      InputRecord(Num(2), "child.txt", "FILE", Some(Num(1)))]
    ensures CreateFileTree(input).Success?
    ensures |CreateFileTree(input).value.nodes| == 2
    ensures GetRootNodes(CreateFileTree(input).value) == [0]
    ensures CreateFileTree(input).value.nodes[0].children == [1]
    ensures CreateFileTree(input).value.nodes[1].parent == Some(0)
  {
    assert ParentIndex(input, 0) == None;
    assert EarliestWithId(input, Num(1), 1) == Some(0);
    assert ParentIndex(input, 1) == Some(0);
    assert ParentsAreDirectories(input);
    BuildSucceedsIff(input);
    BuildParents(input);
    BuildChildren(input);
    var nodes := CreateFileTree(input).value.nodes;
    assert ChildrenUpTo(input, 0, 1) == [];
    assert ChildrenUpTo(input, 0, 2) == [1];
    assert RootsUpTo(nodes, 1) == [0];
  }

  /** A record placed under a file aborts the whole build. */
  lemma ChildOfFileFails(input: seq<InputRecord>)
    requires input == [
      InputRecord(Num(1), "a", "FILE", None),
      InputRecord(Num(2), "b", "DIRECTORY", Some(Num(1)))]
    ensures CreateFileTree(input) == Failure(NotDirectory)
  {
    assert EarliestWithId(input, Num(1), 1) == Some(0);
    assert ParentIndex(input, 1) == Some(0);
    BuildSucceedsIff(input);
  }

  /** A type string that is not exactly "DIRECTORY" does not own children. */
  lemma LowerCaseDirectoryFails(input: seq<InputRecord>)
    requires input == [
      InputRecord(Num(1), "a", "directory", None),
      InputRecord(Num(2), "b", "FILE", Some(Num(1)))]
    ensures CreateFileTree(input) == Failure(NotDirectory)
  {
    assert EarliestWithId(input, Num(1), 1) == Some(0);
    assert ParentIndex(input, 1) == Some(0);
    BuildSucceedsIff(input);
  }

  /** A parent id that names no earlier record, even a later one, makes a root. */
  lemma ForwardReferenceBecomesRoot(input: seq<InputRecord>)
    requires input == [
      InputRecord(Num(1), "a", "FILE", Some(Num(2))),
      InputRecord(Num(2), "b", "DIRECTORY", None)]
    ensures CreateFileTree(input).Success?
    ensures GetRootNodes(CreateFileTree(input).value) == [0, 1]
    ensures CreateFileTree(input).value.nodes[1].children == []
  {
    assert EarliestWithId(input, Num(2), 0) == None;
    assert forall k :: 0 <= k < |input| ==> ParentIndex(input, k).None? by {
      assert ParentIndex(input, 0) == None;
      assert ParentIndex(input, 1) == None;
    }
    FlatInputGivesOnlyRoots(input);
    assert seq(2, i => i) == [0, 1];
    BuildChildren(input);
    NoChildrenBeforeOwner(input, 1, 2);
  }

  /** A parent id of 0 is falsy, so the record is a root although a node with id 0 exists. */
  lemma ZeroParentIdMeansNoParent(input: seq<InputRecord>)
    requires input == [
      InputRecord(Num(0), "zero", "DIRECTORY", None),
      InputRecord(Num(1), "f", "FILE", Some(Num(0)))]
    ensures CreateFileTree(input).Success?
    ensures GetRootNodes(CreateFileTree(input).value) == [0, 1]
  {
    assert forall k :: 0 <= k < |input| ==> ParentIndex(input, k).None? by {
      assert ParentIndex(input, 0) == None;
      assert ParentIndex(input, 1) == None;
    }
    FlatInputGivesOnlyRoots(input);
    assert seq(2, i => i) == [0, 1];
  }

  /** With duplicate ids the first node carrying the id becomes the parent. */
  lemma DuplicateIdResolvesToFirst(input: seq<InputRecord>)
    requires input == [
      InputRecord(Str("d"), "first", "DIRECTORY", None),
      InputRecord(Str("d"), "second", "DIRECTORY", None),
      InputRecord(Str("f"), "file", "FILE", Some(Str("d")))]
    ensures CreateFileTree(input).Success?
    ensures CreateFileTree(input).value.nodes[2].parent == Some(0)
    ensures CreateFileTree(input).value.nodes[0].children == [2]
    ensures CreateFileTree(input).value.nodes[1].children == []
  {
    assert EarliestWithId(input, Str("d"), 1) == Some(0);
    assert EarliestWithId(input, Str("d"), 2) == Some(0);
    assert ParentIndex(input, 0) == None;
    assert ParentIndex(input, 1) == None;
    assert ParentIndex(input, 2) == Some(0);
    assert ParentsAreDirectories(input);
    BuildSucceedsIff(input);
    BuildParents(input);
    BuildChildren(input);
    NoChildrenBeforeOwner(input, 1, 2);
    assert ChildrenUpTo(input, 0, 1) == [];
    assert ChildrenUpTo(input, 0, 2) == [];
    assert ChildrenUpTo(input, 0, 3) == [2];
    assert ChildrenUpTo(input, 1, 3) == [];
  }
}
