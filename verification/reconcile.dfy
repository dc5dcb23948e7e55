/**
 One synchronisation run as the tracker sees it: every local file `/${file}`
 is struck off the remote snapshot in turn, then the deletion list is taken.
 `RemoveAll` is the run as the tracker's `remove` performs it; `MarkAllPresent`
 is the run with the corrected strike-off, which also clears the ancestors of
 files the snapshot did not know.
 */
module Reconcile {
  import opened Seqs
  import opened Paths
  import opened BucketTrees

  /** Every path of `ps` starts with '/', as every `/${file}` does. */
  predicate AllAbsolute(ps: seq<string>) {
    forall p :: p in ps ==> IsAbsolute(p)
  }

  /**
   `remove` applied to each path of `ps`, in order. The paths are absolute:
   on any other path `remove` throws and the run stops.
   */
  function RemoveAll(t: Snapshot, ps: seq<string>): (u: Snapshot)
    requires Tracked(t) && AllAbsolute(ps)
    ensures Tracked(u)
    ensures multiset(u.folders) <= multiset(t.folders) && multiset(u.leafs) <= multiset(t.leafs)
    decreases |ps|
  {
    if ps == [] then t else RemoveAll(AfterRemove(t, ps[0]), ps[1..])
  }

  /** The corrected strike-off applied to each path of `ps`, in order. */
  function MarkAllPresent(t: Snapshot, ps: seq<string>): (u: Snapshot)
    requires Tracked(t) && forall p :: p in ps ==> WellFormed(p)
    ensures Tracked(u)
    ensures multiset(u.folders) <= multiset(t.folders) && multiset(u.leafs) <= multiset(t.leafs)
    decreases |ps|
  {
    if ps == [] then t else MarkAllPresent(AfterMarkPresent(t, ps[0]), ps[1..])
  }

  /** `a` is a folder prefix of one of the paths in `ps`. */
  predicate AncestorOfAny(a: string, ps: seq<string>) {
    exists p :: p in ps && IsAncestor(a, p)
  }

  /** A snapshot as the listing produces it: no folder and no leaf twice. */
  predicate Distinct(t: Snapshot) {
    NoDup(t.folders) && NoDup(t.leafs)
  }

  /**
   Without duplicates, the corrected run leaves exactly the folders that are
   no ancestor of a local path and exactly the leafs that are no local path.
   */
  lemma {:induction false} MarkAllPresentMembers(t: Snapshot, ps: seq<string>)
    requires Tracked(t) && Distinct(t) && forall p :: p in ps ==> WellFormed(p)
    ensures Distinct(MarkAllPresent(t, ps))
    ensures forall x :: x in MarkAllPresent(t, ps).folders <==> x in t.folders && !AncestorOfAny(x, ps)
    ensures forall x :: x in MarkAllPresent(t, ps).leafs <==> x in t.leafs && x !in ps
    decreases |ps|
  {
    if ps != [] {
      var p := ps[0];
      var t1 := AfterMarkPresent(t, p);
      RemoveEachNoDup(t.folders, Ancestors(p));
      RemoveFirstNoDup(t.leafs, p);
      AncestorsAreProperPrefixes(p);
      MarkAllPresentMembers(t1, ps[1..]);
      assert ps == [p] + ps[1..];
      forall x ensures AncestorOfAny(x, ps) <==> IsAncestor(x, p) || AncestorOfAny(x, ps[1..]) {
        if AncestorOfAny(x, ps) {
          var q :| q in ps && IsAncestor(x, q);
          if q != p {
            assert q in ps[1..];
          }
        }
        if AncestorOfAny(x, ps[1..]) {
          var q :| q in ps[1..] && IsAncestor(x, q);
          assert q in ps;
        }
      }
    }
  }

  /**
   Safety of the corrected run: no local file is deleted, directly or by
   deleting a folder it lies in. It needs the local files to be consistent
   with the snapshot: a local file is not a remote folder, and no remote file
   is a folder of a local file.
   */
  lemma CorrectedKeepsLocalFiles(t: Snapshot, ps: seq<string>, p: string)
    requires Tracked(t) && Distinct(t) && forall q :: q in ps ==> WellFormed(q)
    requires p in ps && p !in t.folders
    requires forall l :: l in t.leafs ==> !InFolder(p, l)
    ensures !Covers(Deletes(MarkAllPresent(t, ps)), p)
  {
    var u := MarkAllPresent(t, ps);
    MarkAllPresentMembers(t, ps);
    DeletesFromSnapshot(u);
  }

  /**
   Completeness of the corrected run: a remote entry that is no local file
   and no folder of one is still deleted, directly or by its folder.
   */
  lemma CorrectedDeletesOrphans(t: Snapshot, ps: seq<string>, x: string)
    requires Tracked(t) && Distinct(t) && forall q :: q in ps ==> WellFormed(q)
    requires x in t.leafs || x in t.folders
    requires x !in ps && !AncestorOfAny(x, ps)
    ensures Covers(Deletes(MarkAllPresent(t, ps)), x)
  {
    var u := MarkAllPresent(t, ps);
    MarkAllPresentMembers(t, ps);
    DeletesLoseNothing(u);
    if UnderAny(x, OutermostFolders(u)) {
      var r :| r in OutermostFolders(u) && r != "" && InFolder(x, r);
      assert r in Deletes(u);
    }
  }

  /**
   The run as written never strikes off too much: a leaf that is no local
   file, and a folder that is no folder of a local file, are still there.
   */
  lemma {:induction false} RemoveAllKeeps(t: Snapshot, ps: seq<string>, x: string)
    requires Tracked(t) && AllAbsolute(ps) && x !in ps && !AncestorOfAny(x, ps)
    ensures x in t.folders ==> x in RemoveAll(t, ps).folders
    ensures x in t.leafs ==> x in RemoveAll(t, ps).leafs
    decreases |ps|
  {
    if ps != [] {
      var p := ps[0];
      var t1 := AfterRemove(t, p);
      assert p in ps && x != p && !IsAncestor(x, p);
      assert !AncestorOfAny(x, ps[1..]) by {
        forall q | q in ps[1..] ensures !IsAncestor(x, q) {
          assert q in ps;
        }
      }
      if p in t.leafs {
        AncestorsAreProperPrefixes(p);
        if x in t.folders {
          RemoveEachKeeps(t.folders, Ancestors(p), x);
        }
        RemoveFirstMultiset(t.leafs, p);
        assert multiset(t1.leafs)[x] == multiset(t.leafs)[x];
      }
      RemoveAllKeeps(t1, ps[1..], x);
    }
  }

  /**
   Completeness of the run as written: a remote entry that is no local file
   and no folder of one is still deleted, directly or by its folder.
   */
  lemma AsWrittenDeletesOrphans(t: Snapshot, ps: seq<string>, x: string)
    requires Tracked(t) && AllAbsolute(ps) && (x in t.leafs || x in t.folders)
    requires x !in ps && !AncestorOfAny(x, ps)
    ensures Covers(Deletes(RemoveAll(t, ps)), x)
  {
    var u := RemoveAll(t, ps);
    RemoveAllKeeps(t, ps, x);
    DeletesLoseNothing(u);
    if UnderAny(x, OutermostFolders(u)) {
      var r :| r in OutermostFolders(u) && r != "" && InFolder(x, r);
      assert r in Deletes(u);
    }
  }

  /** `a` is a folder prefix of one of the paths in `ps` that is a leaf of `leafs`. */
  predicate AncestorOfKnown(a: string, ps: seq<string>, leafs: seq<string>) {
    exists p :: p in ps && p in leafs && IsAncestor(a, p)
  }

  /**
   Exactly what the run as written strikes off, without duplicates in the
   snapshot or among the local files: every local file that is a leaf, and
   the folders of those local files only. The folders of a local file the
   snapshot did not know stay.
   */
  lemma {:induction false} AsWrittenMembers(t: Snapshot, ps: seq<string>)
    requires Tracked(t) && Distinct(t) && NoDup(ps) && AllAbsolute(ps)
    ensures Distinct(RemoveAll(t, ps))
    ensures forall x :: x in RemoveAll(t, ps).leafs <==> x in t.leafs && x !in ps
    ensures forall x :: x in RemoveAll(t, ps).folders <==>
      x in t.folders && !AncestorOfKnown(x, ps, t.leafs)
    decreases |ps|
  {
    if ps != [] {
      var p, rest := ps[0], ps[1..];
      NoDupTail(ps);
      RemoveStepMembers(t, p);
      AsWrittenMembers(AfterRemove(t, p), rest);
      KnownAncestorSplit(ps, t.leafs, AfterRemove(t, p).leafs);
    }
  }

  /** One `remove` on a duplicate-free snapshot, as membership. */
  lemma RemoveStepMembers(t: Snapshot, p: string)
    requires Tracked(t) && Distinct(t)
    ensures Distinct(AfterRemove(t, p))
    ensures forall x :: x in AfterRemove(t, p).leafs <==> x in t.leafs && x != p
    ensures forall x :: x in AfterRemove(t, p).folders <==>
      x in t.folders && !(p in t.leafs && IsAncestor(x, p))
  {
    if p in t.leafs {
      RemoveKnownLeafMembers(t, p);
      RemoveEachNoDup(t.folders, Ancestors(p));
      RemoveFirstNoDup(t.leafs, p);
    }
  }

  /**
   Splitting off the first local file: the known ancestors of `ps` are those
   of its head, if known, and those of the rest, which do not depend on
   whether the head is still a leaf.
   */
  lemma KnownAncestorSplit(ps: seq<string>, leafs: seq<string>, leafs1: seq<string>)
    requires NoDup(ps) && ps != []
    requires forall x :: x in leafs1 <==> x in leafs && x != ps[0]
    ensures forall x :: AncestorOfKnown(x, ps, leafs) <==>
      (ps[0] in leafs && IsAncestor(x, ps[0])) || AncestorOfKnown(x, ps[1..], leafs1)
  {
    var p, rest := ps[0], ps[1..];
    assert ps == [p] + rest;
    forall x ensures AncestorOfKnown(x, ps, leafs) <==>
      (p in leafs && IsAncestor(x, p)) || AncestorOfKnown(x, rest, leafs1)
    {
      if AncestorOfKnown(x, ps, leafs) {
        var q :| q in ps && q in leafs && IsAncestor(x, q);
        if q != p {
          assert q in rest && q in leafs1;
        }
      }
      if AncestorOfKnown(x, rest, leafs1) {
        var q :| q in rest && q in leafs1 && IsAncestor(x, q);
        assert q in ps;
      }
    }
  }

  /**
   When every local file is a known leaf (no duplicates among leafs or local
   files), the run as written and the corrected run agree.
   */
  lemma {:induction false} RunsAgreeOnKnownLeafs(t: Snapshot, ps: seq<string>)
    requires Tracked(t) && NoDup(t.leafs) && NoDup(ps)
    requires forall p :: p in ps ==> p in t.leafs
    ensures forall p :: p in ps ==> WellFormed(p)
    ensures RemoveAll(t, ps) == MarkAllPresent(t, ps)
    decreases |ps|
  {
    if ps != [] {
      var p := ps[0];
      RemoveFirstNoDup(t.leafs, p);
      var t1 := AfterRemove(t, p);
      assert t1 == AfterMarkPresent(t, p);
      forall q | q in ps[1..] ensures q in t1.leafs {
        assert q != p;
      }
      NoDupTail(ps);
      RunsAgreeOnKnownLeafs(t1, ps[1..]);
    }
  }

  /**
   Safety of the run as written, when every local file was already a remote
   file: then no local file is deleted.
   */
  lemma AsWrittenKeepsKnownFiles(t: Snapshot, ps: seq<string>, p: string)
    requires Tracked(t) && Distinct(t) && NoDup(ps)
    requires forall q :: q in ps ==> q in t.leafs
    requires p in ps && p !in t.folders
    requires forall l :: l in t.leafs ==> !InFolder(p, l)
    ensures !Covers(Deletes(RemoveAll(t, ps)), p)
  {
    RunsAgreeOnKnownLeafs(t, ps);
    CorrectedKeepsLocalFiles(t, ps, p);
  }

  /** A snapshot of one folder holding one file deletes just the folder. */
  lemma OneFolderOneLeaf(f: string, l: string)
    requires f != "" && InFolder(l, f)
    ensures Deletes(Snapshot([f], [l])) == [f]
  {
    assert SortByLength([f]) == [f];
    UnderSingle(l, f);
    UnderSingle(f, f);
    InFolderLonger(f, f);
    assert KeepOutside([l], [f]) == [];
    assert KeepOutside([f], [f]) == [f];
  }

  /**
   The run as written can delete a freshly uploaded file: the remote folder
   `/d` holds only `/d/old.txt`, the local tree holds only `/d/new.txt`.
   `remove("/d/new.txt")` finds no known leaf and leaves `/d` in place, so the
   deletion list is `["/d"]`, which takes `/d/new.txt` with it.
   */
  lemma UnknownLeafIsDeleted()
    ensures var t := Snapshot(["/d"], ["/d/old.txt"]);
      && RemoveAll(t, ["/d/new.txt"]) == t
      && Deletes(t) == ["/d"]
      && Covers(Deletes(t), "/d/new.txt")
  {
    var t := Snapshot(["/d"], ["/d/old.txt"]);
    assert "/d/new.txt" !in t.leafs;
    assert RemoveAll(t, ["/d/new.txt"]) == RemoveAll(t, []);
    OneFolderOneLeaf("/d", "/d/old.txt");
    assert "/d" in ["/d"] && InFolder("/d/new.txt", "/d");
  }

  /** The corrected run strikes the folder off when it strikes a new file below it. */
  lemma CorrectedOneFolder(f: string, l: string, p: string)
    requires WellFormed(l) && WellFormed(p) && l != p && IsAncestor(f, p)
    ensures MarkAllPresent(Snapshot([f], [l]), [p]) == Snapshot([], [l])
  {
    var t := Snapshot([f], [l]);
    var u := MarkAllPresent(t, [p]);
    MarkAllPresentMembers(t, [p]);
    assert AncestorOfAny(f, [p]);
    WithoutOnly(u.folders, f);
    OnlyOne(u.leafs, l);
  }

  lemma WithoutOnly(s: seq<string>, x: string)
    requires multiset(s) <= multiset([x]) && x !in s
    ensures s == []
  {
    assert multiset(s) == multiset{};
  }

  lemma OnlyOne(s: seq<string>, x: string)
    requires multiset(s) <= multiset([x]) && x in s
    ensures s == [x]
  {
    assert multiset(s) == multiset([x]);
    assert |s| == |multiset(s)| == 1;
    assert s[0] in multiset(s);
  }

  /** The corrected run on the same input deletes only the stale file. */
  lemma CorrectedSparesNewFile()
    ensures var t := Snapshot(["/d"], ["/d/old.txt"]);
      && MarkAllPresent(t, ["/d/new.txt"]) == Snapshot([], ["/d/old.txt"])
      && Deletes(MarkAllPresent(t, ["/d/new.txt"])) == ["/d/old.txt"]
  {
    var l, p := "/d/old.txt", "/d/new.txt";
    assert WellFormed(l) && WellFormed(p) && l != p;
    assert IsAncestor("/d", p);
    CorrectedOneFolder("/d", l, p);
    assert Deletes(Snapshot([], [l])) == KeepOutside([l], []);
    assert !UnderAny(l, []);
  }
}
