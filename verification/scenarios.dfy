/**
 Worked runs of the tracker on small snapshots, each proved from the
 contracts of `Remove` and `GetDeletes`.
 */
module Scenarios {
  import opened Seqs
  import opened Paths
  import opened BucketTrees

  /** A list none of whose entries is present is empty. */
  lemma NoMembers(s: seq<string>)
    requires forall x :: x !in s
    ensures s == []
  {
    forall x ensures multiset(s)[x] == 0 {
      assert x !in s;
    }
    assert multiset(s) == multiset{};
  }

  /** Striking off `/a/b/c.txt` takes both of its folders and the leaf itself. */
  lemma NestedRemoval()
    ensures Tracked(Snapshot(["/a", "/a/b"], ["/a/b/c.txt", "/x.txt"]))
    ensures AfterRemove(Snapshot(["/a", "/a/b"], ["/a/b/c.txt", "/x.txt"]), "/a/b/c.txt")
      == Snapshot([], ["/x.txt"])
  {
    var t := Snapshot(["/a", "/a/b"], ["/a/b/c.txt", "/x.txt"]);
    assert WellFormed("/a/b/c.txt") && WellFormed("/x.txt");
    assert IsAncestor("/a", "/a/b/c.txt") && IsAncestor("/a/b", "/a/b/c.txt");
    RemoveKnownLeafMembers(t, "/a/b/c.txt");
    NoMembers(AfterRemove(t, "/a/b/c.txt").folders);
  }

  /** With no folder left, the deletion list is the leafs as they stand. */
  lemma NoFolders(ls: seq<string>)
    ensures Deletes(Snapshot([], ls)) == ls
  {
    KeepOutsideNothingUnder(ls, []);
  }

  /** An entry inside neither of two folders lies inside no folder of the pair. */
  lemma OutsideBoth(x: string, r1: string, r2: string)
    requires !InFolder(x, r1) && !InFolder(x, r2)
    ensures !UnderAny(x, [r1, r2])
  {
  }

  /** An entry inside a non-empty folder of `roots` lies inside `roots`. */
  lemma Inside(x: string, r: string, roots: seq<string>)
    requires r in roots && r != "" && InFolder(x, r)
    ensures UnderAny(x, roots)
  {
  }

  /**
   Folders `/a`, `/a/b`, leafs `/a/b/c.txt`, `/x.txt`: striking off
   `/a/b/c.txt` also strikes off both folders, so only `/x.txt` is deleted.
   A relative path is refused and changes nothing.
   */
  method NestedLeafKept() returns (refused: Outcome, deletes: seq<string>)
    ensures refused == Fail(UnsupportedPath)
    ensures deletes == ["/x.txt"]
  {
    NestedRemoval();
    NoFolders(["/x.txt"]);
    var tree := new BucketTree(["/a", "/a/b"], ["/a/b/c.txt", "/x.txt"]);
    refused := tree.Remove("x.txt");
    var _ := tree.Remove("/a/b/c.txt");
    deletes := tree.GetDeletes();
  }

  /**
   Folder `/dir` holds `/dir/keep.txt` and `/dir/drop.txt`; `/top.txt` is at
   the top. Striking off `/dir/keep.txt` strikes off `/dir` as its folder,
   so `/dir/drop.txt` comes back on its own rather than under `/dir`.
   */
  lemma SiblingRemoval()
    ensures Tracked(Snapshot(["/dir"], ["/dir/keep.txt", "/dir/drop.txt", "/top.txt"]))
    ensures AfterRemove(Snapshot(["/dir"], ["/dir/keep.txt", "/dir/drop.txt", "/top.txt"]), "/dir/keep.txt")
      == Snapshot([], ["/dir/drop.txt", "/top.txt"])
  {
    var t := Snapshot(["/dir"], ["/dir/keep.txt", "/dir/drop.txt", "/top.txt"]);
    assert WellFormed("/dir/keep.txt") && WellFormed("/dir/drop.txt") && WellFormed("/top.txt");
    assert IsAncestor("/dir", "/dir/keep.txt");
    assert NoDup(t.leafs);
    RemoveKnownLeafMembers(t, "/dir/keep.txt");
    NoMembers(AfterRemove(t, "/dir/keep.txt").folders);
  }

  method SiblingOfKeptLeaf() returns (deletes: seq<string>)
    ensures deletes == ["/dir/drop.txt", "/top.txt"]
  {
    SiblingRemoval();
    NoFolders(["/dir/drop.txt", "/top.txt"]);
    var tree := new BucketTree(["/dir"], ["/dir/keep.txt", "/dir/drop.txt", "/top.txt"]);
    var _ := tree.Remove("/dir/keep.txt");
    deletes := tree.GetDeletes();
  }

  /** `/c/y` has the single folder `/c` above it. */
  lemma AncestorsOfCY()
    ensures WellFormed("/c/y") && Ancestors("/c/y") == ["/c"]
  {
    assert WellFormed("/c/y");
    assert LastSlash("/c/y") == 2;
    assert StripLast("/c/y") == "/c";
    assert LastSlash("/c") == 0;
    assert StripLast("/c") == "";
    assert Chain("/c") == ["/c"] + Chain("");
  }

  /**
   Striking off `/c/y` leaves `/a/b` and `/a` (in listing order) and the
   leafs `/a/b/x` and `/z`.
   */
  lemma CollapseRemoval()
    ensures Tracked(Snapshot(["/a/b", "/a", "/c"], ["/a/b/x", "/c/y", "/z"]))
    ensures AfterRemove(Snapshot(["/a/b", "/a", "/c"], ["/a/b/x", "/c/y", "/z"]), "/c/y")
      == Snapshot(["/a/b", "/a"], ["/a/b/x", "/z"])
  {
    assert WellFormed("/a/b/x") && WellFormed("/z");
    AncestorsOfCY();
    assert RemoveFirst(["/a/b", "/a", "/c"], "/c") == ["/a/b", "/a"];
    assert RemoveFirst(["/a/b/x", "/c/y", "/z"], "/c/y") == ["/a/b/x", "/z"];
  }

  /** Collapsing a two-entry list under `roots`, entry by entry. */
  lemma KeepPair(x: string, y: string, roots: seq<string>)
    ensures KeepOutside([x, y], roots)
      == (if UnderAny(x, roots) then [] else [x]) + (if UnderAny(y, roots) then [] else [y])
  {
    assert [x, y][1..] == [y];
    assert [y][1..] == [];
  }

  /** The stable length sort moves `/a` in front of `/a/b`. */
  lemma SortCollapseFolders()
    ensures SortByLength(["/a/b", "/a"]) == ["/a", "/a/b"]
  {
    assert ["/a/b", "/a"][1..] == ["/a"];
    assert SortByLength(["/a"]) == ["/a"];
  }

  /** Of the leafs `/a/b/x` and `/z`, only `/z` lies outside both folders. */
  lemma CollapseLeafPart()
    ensures KeepOutside(["/a/b/x", "/z"], ["/a/b", "/a"]) == ["/z"]
  {
    var roots := ["/a/b", "/a"];
    Inside("/a/b/x", "/a", roots);
    OutsideBoth("/z", "/a/b", "/a");
    KeepPair("/a/b/x", "/z", roots);
  }

  /** Of the sorted folders `/a` and `/a/b`, only `/a` is outermost. */
  lemma CollapseFolderPart()
    ensures KeepOutside(["/a", "/a/b"], ["/a/b", "/a"]) == ["/a"]
  {
    var roots := ["/a/b", "/a"];
    OutsideBoth("/a", "/a/b", "/a");
    Inside("/a/b", "/a", roots);
    KeepPair("/a", "/a/b", roots);
  }

  /** What is left collapses to the top-level file `/z` and the folder `/a`. */
  lemma CollapseDeletes()
    ensures Deletes(Snapshot(["/a/b", "/a"], ["/a/b/x", "/z"])) == ["/z", "/a"]
  {
    SortCollapseFolders();
    CollapseLeafPart();
    CollapseFolderPart();
  }

  /**
   Folders `/a/b`, `/a`, `/c` and leafs `/a/b/x`, `/c/y`, `/z`, with `/c/y`
   present locally: the sort puts `/a` before `/a/b`, visiting `/a` drops
   `/a/b` and `/a/b/x`, and the list is the leaf `/z`, then the folder `/a`.
   */
  method NestedFolderCollapsed() returns (deletes: seq<string>)
    ensures deletes == ["/z", "/a"]
  {
    CollapseRemoval();
    CollapseDeletes();
    var tree := new BucketTree(["/a/b", "/a", "/c"], ["/a/b/x", "/c/y", "/z"]);
    var _ := tree.Remove("/c/y");
    deletes := tree.GetDeletes();
  }
}
