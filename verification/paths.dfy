/**
 Bucket paths as the tracker sees them: absolute, '/'-separated strings.
 This module gives the string operations the tracker performs on them
 (`startsWith`, and the regular-expression replace that drops the last
 segment), the chain of ancestor folders that `remove` walks, and the
 "lies inside a folder" filter that `getDeletes` applies.
 */
module Paths {
  import opened Seqs

  /** `s.startsWith(prefix)` */
  predicate StartsWith(s: string, prefix: string) {
    prefix <= s
  }

  /** `p.startsWith(f + "/")`: `p` names something inside folder `f`. */
  predicate InFolder(p: string, f: string) {
    StartsWith(p, f + "/")
  }

  /** The position of the last '/' in `p`, or -1 when `p` has none. */
  function LastSlash(p: string): (k: int)
    ensures -1 <= k < |p|
    ensures 0 <= k ==> p[k] == '/'
    ensures forall j :: k < j < |p| ==> p[j] != '/'
  {
    if p == [] then -1
    else if p[|p| - 1] == '/' then |p| - 1
    else LastSlash(p[..|p| - 1])
  }

  /**
   `p.replace(/\/[^\/]+$/, '')`: drops a final '/' together with the non-empty
   run of non-'/' characters after it. When `p` has no '/' or ends in '/',
   the pattern does not match and `p` comes back unchanged.
   */
  function StripLast(p: string): (q: string)
    ensures q <= p
    ensures q != p ==>
      |q| + 1 < |p| && p[|q|] == '/' && forall j :: |q| < j < |p| ==> p[j] != '/'
    ensures q == p ==>
      p == [] || p[|p| - 1] == '/' || forall j :: 0 <= j < |p| ==> p[j] != '/'
  {
    var k := LastSlash(p);
    if 0 <= k < |p| - 1 then p[..k] else p
  }

  /**
   A path as the tree listing builds them (`${path}/${name}` from the root):
   it starts with '/', has no empty segment and no trailing '/'.
   */
  predicate WellFormed(p: string) {
    && |p| > 0
    && p[0] == '/'
    && p[|p| - 1] != '/'
    && forall i :: 0 <= i < |p| - 1 && p[i] == '/' ==> p[i + 1] != '/'
  }

  /**
   On a well-formed path the replace always shortens it, and what is left is
   either empty or again well-formed: this is why `remove`'s loop ends.
   */
  lemma StripWellFormed(p: string)
    requires WellFormed(p)
    ensures |StripLast(p)| < |p|
    ensures StripLast(p) == "" || WellFormed(StripLast(p))
  {
    var k := LastSlash(p);
    assert 0 <= k < |p| - 1;
    var q := StripLast(p);
    assert q == p[..k];
    if k > 0 {
      assert p[k - 1] != '/';
      assert q[k - 1] != '/';
      forall i | 0 <= i < |q| - 1 && q[i] == '/' ensures q[i + 1] != '/' {
        assert p[i] == '/';
      }
    }
  }

  /** On a path ending in '/' the replace does not match, so `remove` would loop forever. */
  lemma StripStallsOnTrailingSlash(p: string)
    requires |p| > 0 && p[|p| - 1] == '/'
    ensures StripLast(p) == p
  {
    assert LastSlash(p) == |p| - 1;
  }

  /** The folders that `remove` visits starting at `f`: `f`, then `f` stripped, and so on. */
  function Chain(f: string): seq<string>
    requires f == "" || WellFormed(f)
    decreases |f|
  {
    if f == "" then []
    else
      StripWellFormed(f);
      [f] + Chain(StripLast(f))
  }

  /** The folders `remove` visits for a leaf `p`, deepest first. */
  function Ancestors(p: string): seq<string>
    requires WellFormed(p)
  {
    StripWellFormed(p);
    Chain(StripLast(p))
  }

  /** `a` is a non-empty proper folder prefix of `p`. */
  predicate IsAncestor(a: string, p: string) {
    |a| > 0 && InFolder(p, a)
  }

  /** One strip step: the folders containing `f` are the stripped path and the folders containing it. */
  lemma StripStep(f: string, a: string)
    requires WellFormed(f) && |a| > 0
    ensures InFolder(f, a) <==> a == StripLast(f) || InFolder(StripLast(f), a)
  {
    var q := StripLast(f);
    var k := |q|;
    StripWellFormed(f);
    assert f[k] == '/';
    if InFolder(f, a) {
      assert f[|a|] == '/';
      assert |a| <= k;
      if |a| == k {
        assert a == f[..k] == q;
      } else {
        assert a + "/" == f[..|a| + 1] == q[..|a| + 1];
      }
    }
    if a == q {
      assert a + "/" == f[..k + 1];
    }
  }

  lemma {:induction false} ChainMembers(f: string, a: string)
    requires f == "" || WellFormed(f)
    ensures a in Chain(f) <==> |a| > 0 && (a == f || InFolder(f, a))
    decreases |f|
  {
    if f != "" {
      StripWellFormed(f);
      var q := StripLast(f);
      ChainMembers(q, a);
      assert Chain(f) == [f] + Chain(q);
      if |a| > 0 {
        StripStep(f, a);
      }
    }
  }

  /**
   The folders `remove` strips off a leaf, by repeated regular-expression
   replace, are exactly the leaf's non-empty proper folder prefixes.
   */
  lemma AncestorsAreProperPrefixes(p: string)
    requires WellFormed(p)
    ensures forall a :: a in Ancestors(p) <==> IsAncestor(a, p)
  {
    StripWellFormed(p);
    var q := StripLast(p);
    forall a ensures a in Ancestors(p) <==> IsAncestor(a, p) {
      ChainMembers(q, a);
      if |a| > 0 {
        StripStep(p, a);
      }
    }
  }

  /** Folder nesting is transitive. */
  lemma InFolderTransitive(x: string, a: string, b: string)
    requires InFolder(x, a) && InFolder(a, b)
    ensures InFolder(x, b)
  {
    assert b + "/" <= a;
    assert (b + "/") == a[..|b| + 1] == x[..|b| + 1];
  }

  /** Nothing lies inside a folder at least as long as itself. */
  lemma InFolderLonger(x: string, f: string)
    ensures InFolder(x, f) ==> |x| > |f|
  {
    assert |f + "/"| == |f| + 1;
  }

  // ---------------------------------------------------------------------------
  // Collapsing: dropping every entry that lies inside one of a set of folders.

  /** `x` lies inside some non-empty folder of `roots`. */
  predicate UnderAny(x: string, roots: seq<string>) {
    exists r :: r in roots && r != "" && InFolder(x, r)
  }

  /** The entries of `xs`, in order, that do not lie inside any non-empty folder of `roots`. */
  function KeepOutside(xs: seq<string>, roots: seq<string>): (r: seq<string>)
    ensures |r| <= |xs|
  {
    if xs == [] then []
    else (if UnderAny(xs[0], roots) then [] else [xs[0]]) + KeepOutside(xs[1..], roots)
  }

  /** The collapse keeps exactly the entries of `xs` that lie inside no root. */
  lemma {:induction false} KeepOutsideMembers(xs: seq<string>, roots: seq<string>)
    ensures forall x :: x in KeepOutside(xs, roots) <==> x in xs && !UnderAny(x, roots)
  {
    if xs != [] {
      KeepOutsideMembers(xs[1..], roots);
      assert xs == [xs[0]] + xs[1..];
    }
  }

  /** The entries of `xs`, in order, that lie inside folder `f`. */
  function Descendants(xs: seq<string>, f: string): (r: seq<string>)
    ensures forall x :: x in r <==> x in xs && InFolder(x, f)
  {
    if xs == [] then []
    else (if InFolder(xs[0], f) then [xs[0]] else []) + Descendants(xs[1..], f)
  }

  lemma {:induction false} DescendantsAppend(xs: seq<string>, y: string, f: string)
    ensures Descendants(xs + [y], f) == Descendants(xs, f) + (if InFolder(y, f) then [y] else [])
  {
    if xs != [] {
      assert (xs + [y])[1..] == xs[1..] + [y];
      DescendantsAppend(xs[1..], y, f);
    }
  }

  lemma {:induction false} KeepOutsideAppend(a: seq<string>, b: seq<string>, roots: seq<string>)
    ensures KeepOutside(a + b, roots) == KeepOutside(a, roots) + KeepOutside(b, roots)
  {
    if a == [] {
      assert a + b == b;
    } else {
      assert (a + b)[0] == a[0];
      assert (a + b)[1..] == a[1..] + b;
      KeepOutsideAppend(a[1..], b, roots);
      var head := if UnderAny(a[0], roots) then [] else [a[0]];
      assert head + (KeepOutside(a[1..], roots) + KeepOutside(b, roots))
          == (head + KeepOutside(a[1..], roots)) + KeepOutside(b, roots);
    }
  }

  /** When nothing in `xs` lies inside a root, nothing is dropped. */
  lemma {:induction false} KeepOutsideNothingUnder(xs: seq<string>, roots: seq<string>)
    requires forall x :: x in xs ==> !UnderAny(x, roots)
    ensures KeepOutside(xs, roots) == xs
  {
    if xs != [] {
      KeepOutsideNothingUnder(xs[1..], roots);
    }
  }

  /** Only which entries are covered matters, not how the roots are listed. */
  lemma {:induction false} KeepOutsideSameCover(xs: seq<string>, a: seq<string>, b: seq<string>)
    requires forall x :: x in xs ==> (UnderAny(x, a) <==> UnderAny(x, b))
    ensures KeepOutside(xs, a) == KeepOutside(xs, b)
  {
    if xs != [] {
      KeepOutsideSameCover(xs[1..], a, b);
    }
  }

  lemma UnderAnyAppend(x: string, a: seq<string>, b: seq<string>)
    ensures UnderAny(x, a + b) <==> UnderAny(x, a) || UnderAny(x, b)
  {
    if UnderAny(x, a + b) {
      var r :| r in a + b && r != "" && InFolder(x, r);
    }
    if UnderAny(x, a) {
      var r :| r in a && r != "" && InFolder(x, r);
      assert r in a + b;
    }
    if UnderAny(x, b) {
      var r :| r in b && r != "" && InFolder(x, r);
      assert r in a + b;
    }
  }

  /** Collapsing under `a` and then under `b` is collapsing under both at once. */
  lemma {:induction false} KeepOutsideTwice(xs: seq<string>, a: seq<string>, b: seq<string>)
    ensures KeepOutside(KeepOutside(xs, a), b) == KeepOutside(xs, a + b)
  {
    if xs != [] {
      KeepOutsideTwice(xs[1..], a, b);
      UnderAnyAppend(xs[0], a, b);
      var head := if UnderAny(xs[0], a) then [] else [xs[0]];
      KeepOutsideAppend(head, KeepOutside(xs[1..], a), b);
    }
  }

  /** An empty root covers nothing. */
  lemma UnderAnyEmptyRoot(x: string, roots: seq<string>)
    ensures UnderAny(x, roots + [""]) <==> UnderAny(x, roots)
  {
    UnderAnyAppend(x, roots, [""]);
  }

  /** A single non-empty root covers exactly what lies inside it. */
  lemma UnderSingle(x: string, f: string)
    requires f != ""
    ensures UnderAny(x, [f]) <==> InFolder(x, f)
  {
    if InFolder(x, f) {
      assert f in [f];
    }
  }

  /** Collapsing keeps the order of what it keeps, so it keeps a length order. */
  lemma {:induction false} KeepOutsideSorted(xs: seq<string>, roots: seq<string>)
    requires SortedByLength(xs)
    ensures SortedByLength(KeepOutside(xs, roots))
  {
    if xs != [] {
      KeepOutsideSorted(xs[1..], roots);
      KeepOutsideMembers(xs[1..], roots);
      var rest := KeepOutside(xs[1..], roots);
      forall j | 0 <= j < |rest| ensures |xs[0]| <= |rest[j]| {
        assert rest[j] in xs[1..];
      }
    }
  }

  /**
   Removing, one at a time, the first occurrence of the first entry inside `f`
   drops that entry from the collapse's point of view and changes nothing else:
   the entries outside `f` stay, and the entries inside `f` lose their head.
   */
  lemma {:induction false} DropFirstDescendant(xs: seq<string>, f: string)
    requires f != "" && Descendants(xs, f) != []
    ensures var d := Descendants(xs, f)[0];
      && KeepOutside(RemoveFirst(xs, d), [f]) == KeepOutside(xs, [f])
      && Descendants(RemoveFirst(xs, d), f) == Descendants(xs, f)[1..]
  {
    var d := Descendants(xs, f)[0];
    UnderSingle(xs[0], f);
    if xs[0] == d {
      assert InFolder(xs[0], f);
    } else {
      assert !InFolder(xs[0], f);
      DropFirstDescendant(xs[1..], f);
      assert RemoveFirst(xs, d) == [xs[0]] + RemoveFirst(xs[1..], d);
      assert ([xs[0]] + RemoveFirst(xs[1..], d))[1..] == RemoveFirst(xs[1..], d);
    }
  }

  /** With no entry inside `f` left, collapsing under `f` changes nothing. */
  lemma NoDescendants(xs: seq<string>, f: string)
    requires f != "" && Descendants(xs, f) == []
    ensures KeepOutside(xs, [f]) == xs
  {
    forall x | x in xs ensures !UnderAny(x, [f]) {
      UnderSingle(x, f);
    }
    KeepOutsideNothingUnder(xs, [f]);
  }
}
