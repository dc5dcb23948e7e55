/**
 The orphan tracker (`BucketTree`): a snapshot of the remote bucket as a list
 of folder paths and a list of file ("leaf") paths. Every local file about to
 be uploaded is struck off with `Remove`; `GetDeletes` then turns what is left
 into the list of paths to delete, folders collapsed to their outermost one.
 */
module BucketTrees {
  import opened Seqs
  import opened Paths

  datatype Outcome = Pass | Fail(error: string)

  const UnsupportedPath: string := "Unsupported path"

  /** The tracker's two lists as a value. */
  datatype Snapshot = Snapshot(folders: seq<string>, leafs: seq<string>)

  /** Every leaf is a path on which `remove`'s ancestor walk comes to an end. */
  predicate Tracked(t: Snapshot) {
    forall l :: l in t.leafs ==> WellFormed(l)
  }

  /** `path[0] === '/'`; false for the empty string, whose `path[0]` is undefined. */
  predicate IsAbsolute(path: string) {
    |path| > 0 && path[0] == '/'
  }

  /**
   What `remove(path)` does to an absolute path's snapshot: a known leaf loses
   its first occurrence, and each of its ancestor folders, deepest first, loses
   its first occurrence among the folders; an unknown path changes nothing.
   */
  function AfterRemove(t: Snapshot, path: string): (u: Snapshot)
    requires Tracked(t)
    ensures Tracked(u)
    ensures multiset(u.folders) <= multiset(t.folders) && multiset(u.leafs) <= multiset(t.leafs)
  {
    if path in t.leafs then
      RemoveFirstMultiset(t.leafs, path);
      Snapshot(RemoveEach(t.folders, Ancestors(path)), RemoveFirst(t.leafs, path))
    else t
  }

  /**
   Striking a present path off the snapshot as `remove` evidently means to:
   the leaf loses its first occurrence (if any) and each ancestor folder loses
   its first occurrence, whether or not the path was a known leaf.
   */
  function AfterMarkPresent(t: Snapshot, path: string): (u: Snapshot)
    requires Tracked(t) && WellFormed(path)
    ensures Tracked(u)
    ensures multiset(u.folders) <= multiset(t.folders) && multiset(u.leafs) <= multiset(t.leafs)
  {
    RemoveFirstMultiset(t.leafs, path);
    Snapshot(RemoveEach(t.folders, Ancestors(path)), RemoveFirst(t.leafs, path))
  }

  /**
   With no duplicate leafs, `remove(p)` twice is `remove(p)` once: the first
   call takes `p` out of the leafs, so the second finds no known leaf.
   */
  lemma RemoveIdempotent(t: Snapshot, path: string)
    requires Tracked(t) && NoDup(t.leafs)
    ensures AfterRemove(AfterRemove(t, path), path) == AfterRemove(t, path)
  {
    if path in t.leafs {
      RemoveFirstNoDup(t.leafs, path);
    }
  }

  /**
   Without duplicates, `remove` of a known leaf takes out exactly that leaf
   and exactly the folders that are folder prefixes of it.
   */
  lemma RemoveKnownLeafMembers(t: Snapshot, path: string)
    requires Tracked(t) && NoDup(t.folders) && NoDup(t.leafs) && path in t.leafs
    ensures forall f :: f in AfterRemove(t, path).folders <==> f in t.folders && !IsAncestor(f, path)
    ensures forall x :: x in AfterRemove(t, path).leafs <==> x in t.leafs && x != path
  {
    RemoveEachNoDup(t.folders, Ancestors(path));
    AncestorsAreProperPrefixes(path);
    RemoveFirstNoDup(t.leafs, path);
  }

  /**
   What `getDeletes()` returns: the leafs that lie inside no folder of the
   snapshot, followed by the folders that lie inside no other folder of the
   snapshot, shortest first. Deleting each of these recursively deletes the
   whole snapshot.
   */
  function Deletes(t: Snapshot): seq<string> {
    KeepOutside(t.leafs, t.folders) + OutermostFolders(t)
  }

  /** The folder part of `Deletes`: the outermost folders, shortest first. */
  function OutermostFolders(t: Snapshot): seq<string> {
    KeepOutside(SortByLength(t.folders), t.folders)
  }

  /** Deleting `ds` recursively removes `x`: `x` is in `ds` or inside one of them. */
  predicate Covers(ds: seq<string>, x: string) {
    x in ds || UnderAny(x, ds)
  }

  /** Every returned path was in the snapshot: leafs from the leafs, folders from the folders. */
  lemma DeletesFromSnapshot(t: Snapshot)
    ensures forall x :: x in KeepOutside(t.leafs, t.folders) <==> x in t.leafs && !UnderAny(x, t.folders)
    ensures forall x :: x in OutermostFolders(t) <==> x in t.folders && !UnderAny(x, t.folders)
  {
    KeepOutsideMembers(t.leafs, t.folders);
    KeepOutsideMembers(SortByLength(t.folders), t.folders);
    forall x ensures x in SortByLength(t.folders) <==> x in t.folders {
      assert x in SortByLength(t.folders) <==> x in multiset(SortByLength(t.folders));
    }
  }

  /** The returned folders come shortest first. */
  lemma OutermostFoldersSorted(t: Snapshot)
    ensures SortedByLength(OutermostFolders(t))
  {
    KeepOutsideSorted(SortByLength(t.folders), t.folders);
  }

  /** Minimality: nothing returned lies inside a returned folder. */
  lemma DeletesMinimal(t: Snapshot)
    ensures forall x, f :: x in Deletes(t) && f in OutermostFolders(t) && f != "" ==> !InFolder(x, f)
  {
    DeletesFromSnapshot(t);
  }

  /**
   An entry inside snapshot folder `a` is inside one of the returned folders:
   follow `a` outwards through the folders that contain it, each one shorter.
   */
  lemma {:induction false} LiftToOutermost(t: Snapshot, x: string, a: string)
    requires a in t.folders && a != "" && InFolder(x, a)
    ensures UnderAny(x, OutermostFolders(t))
    decreases |a|
  {
    if UnderAny(a, t.folders) {
      var b :| b in t.folders && b != "" && InFolder(a, b);
      InFolderLonger(a, b);
      InFolderTransitive(x, a, b);
      LiftToOutermost(t, x, b);
    } else {
      assert a in multiset(t.folders);
      assert a in SortByLength(t.folders);
      KeepOutsideMembers(SortByLength(t.folders), t.folders);
      assert a in OutermostFolders(t);
    }
  }

  /**
   Nothing is lost: every folder and leaf of the snapshot is returned or lies
   inside a returned folder.
   */
  lemma DeletesLoseNothing(t: Snapshot)
    ensures forall x :: x in t.folders || x in t.leafs ==>
      x in Deletes(t) || UnderAny(x, OutermostFolders(t))
  {
    forall x | x in t.folders || x in t.leafs
      ensures x in Deletes(t) || UnderAny(x, OutermostFolders(t))
    {
      KeepOutsideMembers(t.leafs, t.folders);
      KeepOutsideMembers(SortByLength(t.folders), t.folders);
      if UnderAny(x, t.folders) {
        var a :| a in t.folders && a != "" && InFolder(x, a);
        LiftToOutermost(t, x, a);
      } else if x in t.folders {
        assert x in multiset(t.folders);
        assert x in SortByLength(t.folders);
      }
    }
  }

  /**
   What deleting the result recursively removes: exactly the snapshot's
   entries and what lies inside its folders, as long as no returned leaf has
   anything inside it.
   */
  lemma DeletesCover(t: Snapshot, x: string)
    requires forall l :: l in t.leafs ==> !InFolder(x, l)
    ensures Covers(Deletes(t), x) <==> x in t.leafs || x in t.folders || UnderAny(x, t.folders)
  {
    DeletesFromSnapshot(t);
    DeletesLoseNothing(t);
    if UnderAny(x, Deletes(t)) {
      var r :| r in Deletes(t) && r != "" && InFolder(x, r);
      assert r in t.folders;
    }
    if UnderAny(x, t.folders) {
      var a :| a in t.folders && a != "" && InFolder(x, a);
      LiftToOutermost(t, x, a);
      var r :| r in OutermostFolders(t) && r != "" && InFolder(x, r);
      assert r in Deletes(t);
    }
    if x in t.leafs || x in t.folders {
      if UnderAny(x, OutermostFolders(t)) {
        var r :| r in OutermostFolders(t) && r != "" && InFolder(x, r);
        assert r in Deletes(t);
      }
    }
  }

  // ---------------------------------------------------------------------------
  // Proof steps of the collapsing pass in `getDeletes`.

  /**
   One visit of a non-empty folder `f` at index `i` of the length-sorted list:
   nothing at or before `i` lies inside `f`, so those entries stay where they
   are, and the list becomes the collapse under the first `i + 1` folders.
   */
  lemma CollapseStep(s0: seq<string>, cur: seq<string>, i: nat, f: string)
    requires i < |cur| && cur[i] == f && f != ""
    requires forall k :: 0 <= k <= i ==> |cur[k]| <= |f|
    requires cur == KeepOutside(s0, cur[..i])
    ensures var next := KeepOutside(cur, [f]);
      && i < |next| && next[..i + 1] == cur[..i + 1]
      && next == KeepOutside(s0, cur[..i + 1])
  {
    StepKeepsPrefix(cur, i, f);
    StepCollapses(s0, cur, i, f);
  }

  /** Collapsing under the entry at `i` leaves the entries up to `i` in place. */
  lemma StepKeepsPrefix(cur: seq<string>, i: nat, f: string)
    requires i < |cur| && f != ""
    requires forall k :: 0 <= k <= i ==> |cur[k]| <= |f|
    ensures var next := KeepOutside(cur, [f]);
      i < |next| && next[..i + 1] == cur[..i + 1]
  {
    var pre, rest := cur[..i + 1], cur[i + 1..];
    assert cur == pre + rest;
    assert forall k :: 0 <= k < |pre| ==> |pre[k]| <= |f| by {
      forall k | 0 <= k < |pre| ensures |pre[k]| <= |f| {
        assert pre[k] == cur[k];
      }
    }
    PrefixNotInside(cur, pre, rest, f);
    var tail := KeepOutside(rest, [f]);
    assert (pre + tail)[..i + 1] == pre;
  }

  /** Collapsing once more, under the entry at `i`, is collapsing under the first `i + 1` entries. */
  lemma StepCollapses(s0: seq<string>, cur: seq<string>, i: nat, f: string)
    requires i < |cur| && cur[i] == f
    requires cur == KeepOutside(s0, cur[..i])
    ensures KeepOutside(cur, [f]) == KeepOutside(s0, cur[..i + 1])
  {
    assert cur[..i] + [f] == cur[..i + 1];
    KeepOutsideTwice(s0, cur[..i], [f]);
  }

  /** In a length-sorted list nothing at or before index `i` is longer than the entry at `i`. */
  lemma PrefixShorter(cur: seq<string>, i: nat)
    requires SortedByLength(cur) && i < |cur|
    ensures forall k :: 0 <= k <= i ==> |cur[k]| <= |cur[i]|
  {
  }

  /** Collapsing under `f` keeps a leading run of entries no longer than `f`. */
  lemma PrefixNotInside(cur: seq<string>, pre: seq<string>, rest: seq<string>, f: string)
    requires f != "" && cur == pre + rest
    requires forall k :: 0 <= k < |pre| ==> |pre[k]| <= |f|
    ensures KeepOutside(cur, [f]) == pre + KeepOutside(rest, [f])
  {
    SplitAtShorter(pre, rest, f);
  }

  lemma SplitAtShorter(pre: seq<string>, rest: seq<string>, f: string)
    requires f != "" && forall k :: 0 <= k < |pre| ==> |pre[k]| <= |f|
    ensures KeepOutside(pre + rest, [f]) == pre + KeepOutside(rest, [f])
  {
    NoneInsideShorter(pre, f);
    KeepOutsideAppend(pre, rest, [f]);
  }

  /** Entries no longer than `f` are never inside it, so collapsing under `f` keeps them all. */
  lemma NoneInsideShorter(xs: seq<string>, f: string)
    requires f != "" && forall k :: 0 <= k < |xs| ==> |xs[k]| <= |f|
    ensures KeepOutside(xs, [f]) == xs
  {
    forall y | y in xs ensures !UnderAny(y, [f]) {
      UnderSingle(y, f);
      InFolderLonger(y, f);
    }
    KeepOutsideNothingUnder(xs, [f]);
  }

  /** Skipping an empty folder name at index `i` keeps the same collapse. */
  lemma CollapseSkipEmpty(xs: seq<string>, cur: seq<string>, i: nat)
    requires i < |cur| && cur[i] == ""
    ensures KeepOutside(xs, cur[..i + 1]) == KeepOutside(xs, cur[..i])
  {
    assert cur[..i + 1] == cur[..i] + [""];
    forall x | x in xs ensures UnderAny(x, cur[..i + 1]) <==> UnderAny(x, cur[..i]) {
      UnderAnyEmptyRoot(x, cur[..i]);
    }
    KeepOutsideSameCover(xs, cur[..i + 1], cur[..i]);
  }

  /**
   Once the surviving folders are the collapse of the sorted snapshot under
   themselves, they cover what the snapshot's folders cover.
   */
  lemma CollapseFixedPoint(xs: seq<string>, s0: seq<string>, f0: seq<string>, cur: seq<string>)
    requires multiset(s0) == multiset(f0)
    requires cur == KeepOutside(s0, cur)
    ensures KeepOutside(xs, cur) == KeepOutside(xs, f0)
  {
    KeepOutsideMembers(s0, cur);
    forall x | x in xs ensures UnderAny(x, cur) <==> UnderAny(x, f0) {
      if UnderAny(x, cur) {
        var r :| r in cur && r != "" && InFolder(x, r);
        assert r in multiset(s0);
        assert r in f0;
      }
      if UnderAny(x, f0) {
        var r :| r in f0 && r != "" && InFolder(x, r);
        assert r in multiset(s0);
        if r !in cur {
          var c :| c in cur && c != "" && InFolder(r, c);
          InFolderTransitive(x, r, c);
        }
      }
    }
    KeepOutsideSameCover(xs, cur, f0);
  }

  /**
   The invariant of the collapsing pass after `i` visits: the folders are
   sorted by length, and both lists are the collapse of their starting value
   under the folders visited so far, which are the first `i` of the list.
   */
  predicate CollapsedUpTo(s0: seq<string>, l0: seq<string>, folders: seq<string>, leafs: seq<string>, i: nat) {
    && SortedByLength(folders)
    && |folders| <= |s0|
    && folders == KeepOutside(s0, folders[..Min(i, |folders|)])
    && leafs == KeepOutside(l0, folders[..Min(i, |folders|)])
  }

  /** Before the first visit nothing has been dropped. */
  lemma CollapseStart(s0: seq<string>, l0: seq<string>)
    requires SortedByLength(s0)
    ensures CollapsedUpTo(s0, l0, s0, l0, 0)
  {
    assert s0[..0] == [];
    KeepOutsideNothingUnder(s0, []);
    KeepOutsideNothingUnder(l0, []);
  }

  /**
   After as many visits as there were folders, the folders are the outermost
   ones of the snapshot and the leafs those inside none of its folders.
   */
  lemma CollapseDone(s0: seq<string>, l0: seq<string>, f0: seq<string>, folders: seq<string>, leafs: seq<string>, n: nat)
    requires s0 == SortByLength(f0) && n == |s0|
    requires CollapsedUpTo(s0, l0, folders, leafs, n)
    requires Tracked(Snapshot(f0, l0))
    ensures folders == OutermostFolders(Snapshot(f0, l0))
    ensures leafs == KeepOutside(l0, f0)
    ensures Tracked(Snapshot(folders, leafs))
  {
    assert folders[..|folders|] == folders;
    CollapseFixedPoint(s0, s0, f0, folders);
    CollapseFixedPoint(l0, s0, f0, folders);
    KeepOutsideMembers(l0, f0);
  }

  /** Visiting a non-empty folder at index `i` drops what lies inside it from both lists. */
  lemma VisitFolder(s0: seq<string>, l0: seq<string>, folders: seq<string>, leafs: seq<string>, i: nat)
    requires CollapsedUpTo(s0, l0, folders, leafs, i)
    requires i < |folders| && folders[i] != ""
    ensures CollapsedUpTo(s0, l0, KeepOutside(folders, [folders[i]]), KeepOutside(leafs, [folders[i]]), i + 1)
  {
    var f := folders[i];
    PrefixShorter(folders, i);
    CollapseStep(s0, folders, i, f);
    KeepOutsideTwice(l0, folders[..i], [f]);
    assert folders[..i] + [f] == folders[..i + 1];
    KeepOutsideSorted(folders, [f]);
  }

  /** Index `i` past the end, or an empty folder name there, changes nothing but the index. */
  lemma VisitSkip(s0: seq<string>, l0: seq<string>, folders: seq<string>, leafs: seq<string>, i: nat)
    requires CollapsedUpTo(s0, l0, folders, leafs, i)
    requires i >= |folders| || folders[i] == ""
    ensures CollapsedUpTo(s0, l0, folders, leafs, i + 1)
  {
    if i < |folders| {
      CollapseSkipEmpty(s0, folders, i);
      CollapseSkipEmpty(l0, folders, i);
    }
  }

  /** Collects, in list order, every entry of `xs` that starts with `folder + "/"`. */
  method CollectInside(xs: seq<string>, folder: string) returns (found: seq<string>)
    ensures found == Descendants(xs, folder)
    ensures forall x :: x in found <==> x in xs && InFolder(x, folder)
  {
    found := [];
    for k := 0 to |xs|
      invariant found == Descendants(xs[..k], folder)
    {
      DescendantsAppend(xs[..k], xs[k], folder);
      assert xs[..k + 1] == xs[..k] + [xs[k]];
      if StartsWith(xs[k], folder + "/") {
        found := found + [xs[k]];
      }
    }
    assert xs[..|xs|] == xs;
  }

  class BucketTree {
    var folders: seq<string>
    var leafs: seq<string>

    function View(): Snapshot
      reads this
    {
      Snapshot(folders, leafs)
    }

    ghost predicate Valid()
      reads this
    {
      Tracked(View())
    }

    constructor (folders: seq<string>, leafs: seq<string>)
      requires Tracked(Snapshot(folders, leafs))
      ensures Valid() && View() == Snapshot(folders, leafs)
    {
      this.folders := folders;
      this.leafs := leafs;
    }

    /** Splices out the first occurrence of `folder`; returns where it was, or -1. */
    method RemoveFolder(folder: string) returns (knownIndex: int)
      modifies this
      ensures knownIndex == IndexOf(old(folders), folder)
      ensures folders == RemoveFirst(old(folders), folder)
      ensures knownIndex == -1 ==> folders == old(folders)
      ensures leafs == old(leafs)
    {
      knownIndex := IndexOf(folders, folder);
      RemoveFirstIsSplice(folders, folder, knownIndex);
      if knownIndex > -1 {
        folders := folders[..knownIndex] + folders[knownIndex + 1..];
      }
    }

    /** Splices out the first occurrence of `path`; returns where it was, or -1. */
    method RemoveLeaf(path: string) returns (knownIndex: int)
      modifies this
      ensures knownIndex == IndexOf(old(leafs), path)
      ensures leafs == RemoveFirst(old(leafs), path)
      ensures knownIndex == -1 ==> leafs == old(leafs)
      ensures folders == old(folders)
    {
      knownIndex := IndexOf(leafs, path);
      RemoveFirstIsSplice(leafs, path, knownIndex);
      if knownIndex > -1 {
        leafs := leafs[..knownIndex] + leafs[knownIndex + 1..];
      }
    }

    /** Strips the last segment off `path` again and again, removing each folder reached. */
    method RemoveAncestors(path: string)
      requires WellFormed(path)
      modifies this
      ensures folders == RemoveEach(old(folders), Ancestors(path))
      ensures leafs == old(leafs)
    {
      StripWellFormed(path);
      var folder := StripLast(path);
      while |folder| > 0
        invariant folder == "" || WellFormed(folder)
        invariant leafs == old(leafs)
        invariant RemoveEach(folders, Chain(folder)) == RemoveEach(old(folders), Ancestors(path))
        decreases |folder|
      {
        StripWellFormed(folder);
        assert Chain(folder) == [folder] + Chain(StripLast(folder));
        var _ := RemoveFolder(folder);
        folder := StripLast(folder);
      }
    }

    /**
     `remove(path)`: a path not starting with '/' fails with "Unsupported path"
     and changes nothing; a path that is not a known leaf changes nothing; a
     known leaf loses its first occurrence and its ancestors theirs.
     */
    method Remove(path: string) returns (outcome: Outcome)
      requires Valid()
      modifies this
      ensures Valid()
      ensures outcome == if IsAbsolute(path) then Pass else Fail(UnsupportedPath)
      ensures outcome.Fail? ==> View() == old(View())
      ensures path !in old(leafs) ==> View() == old(View())
      ensures outcome.Pass? ==> View() == AfterRemove(old(View()), path)
    {
      if |path| == 0 || path[0] != '/' {
        return Fail(UnsupportedPath);
      }
      var knownLeaf := RemoveLeaf(path);
      if knownLeaf > -1 {
        RemoveAncestors(path);
      }
      RemoveFirstMultiset(old(leafs), path);
      return Pass;
    }

    /**
     The corrected `remove` for a well-formed path: the leaf and every
     ancestor folder are struck off whether or not the path was a known leaf.
     */
    method MarkPresent(path: string)
      requires Valid() && WellFormed(path)
      modifies this
      ensures Valid()
      ensures View() == AfterMarkPresent(old(View()), path)
    {
      var _ := RemoveLeaf(path);
      RemoveAncestors(path);
      RemoveFirstMultiset(old(leafs), path);
    }

    /** Removes each collected folder in turn with `RemoveFolder`. */
    method DropFolders(drops: seq<string>, ghost folder: string)
      requires folder != "" && drops == Descendants(folders, folder)
      modifies this
      ensures folders == KeepOutside(old(folders), [folder])
      ensures leafs == old(leafs)
    {
      for k := 0 to |drops|
        invariant leafs == old(leafs)
        invariant KeepOutside(folders, [folder]) == KeepOutside(old(folders), [folder])
        invariant Descendants(folders, folder) == drops[k..]
      {
        DropFirstDescendant(folders, folder);
        var _ := RemoveFolder(drops[k]);
      }
      NoDescendants(folders, folder);
    }

    /** Removes each collected leaf in turn with `RemoveLeaf`. */
    method DropLeafs(drops: seq<string>, ghost folder: string)
      requires folder != "" && drops == Descendants(leafs, folder)
      modifies this
      ensures leafs == KeepOutside(old(leafs), [folder])
      ensures folders == old(folders)
    {
      for k := 0 to |drops|
        invariant folders == old(folders)
        invariant KeepOutside(leafs, [folder]) == KeepOutside(old(leafs), [folder])
        invariant Descendants(leafs, folder) == drops[k..]
      {
        DropFirstDescendant(leafs, folder);
        var _ := RemoveLeaf(drops[k]);
      }
      NoDescendants(leafs, folder);
    }

    /**
     `getDeletes()`: sorts the folders by length in place, then visits index
     0 to the original folder count of that same, shrinking list; each folder
     still there drops every folder and leaf inside it. Returns the leafs and
     then the folders that are left, which are also the tracker's new lists.
     */
    method GetDeletes() returns (deletes: seq<string>)
      requires Valid()
      modifies this
      ensures Valid()
      ensures folders == OutermostFolders(old(View()))
      ensures leafs == KeepOutside(old(leafs), old(folders))
      ensures deletes == leafs + folders == Deletes(old(View()))
    {
      ghost var f0, l0 := folders, leafs;
      var dirCount := |folders|;
      folders := SortByLength(folders);
      ghost var s0 := folders;
      assert |multiset(s0)| == |multiset(f0)|;
      var i := 0;
      CollapseStart(s0, l0);
      while i < dirCount
        invariant 0 <= i <= dirCount == |s0|
        invariant CollapsedUpTo(s0, l0, folders, leafs, i)
      {
        // `sorted` is `this.folders`; past its end `sorted[i]` is undefined, and
        // both undefined and the empty string are skipped by `!folder`.
        var folder := if i < |folders| then folders[i] else "";
        if folder == "" {
          VisitSkip(s0, l0, folders, leafs, i);
          i := i + 1;
          continue;
        }
        VisitFolder(s0, l0, folders, leafs, i);
        var folderDeletions := CollectInside(folders, folder);
        DropFolders(folderDeletions, folder);
        var fileDeletions := CollectInside(leafs, folder);
        DropLeafs(fileDeletions, folder);
        i := i + 1;
      }
      CollapseDone(s0, l0, f0, folders, leafs, i);
      deletes := leafs + folders;
    }
  }
}
