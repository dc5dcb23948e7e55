/**
 The JavaScript array operations the bucket tree relies on: `indexOf`,
 a one-element `splice`, and the stable `sort` by string length; also
 `Math.min`, which bounds the slices and the visited prefix.
 */
module Seqs {

  /** `Math.min` on integers. */
  function Min(a: int, b: int): int {
    if a <= b then a else b
  }

  /** `s.indexOf(x)`: the position of the first occurrence of `x`, or -1. */
  function IndexOf<T(==)>(s: seq<T>, x: T): (k: int)
    ensures -1 <= k < |s|
    ensures k == -1 <==> x !in s
    ensures 0 <= k ==> s[k] == x && forall i :: 0 <= i < k ==> s[i] != x
  {
    if s == [] then -1
    else if s[0] == x then 0
    else
      var j := IndexOf(s[1..], x);
      if j == -1 then -1 else j + 1
  }

  /** The sequence without its first occurrence of `x` (unchanged when there is none). */
  function RemoveFirst<T(==)>(s: seq<T>, x: T): seq<T>
  {
    if s == [] then []
    else if s[0] == x then s[1..]
    else [s[0]] + RemoveFirst(s[1..], x)
  }

  /** `RemoveFirst` takes away exactly one copy of `x`, and only when there is one. */
  lemma {:induction false} RemoveFirstMultiset<T>(s: seq<T>, x: T)
    ensures multiset(RemoveFirst(s, x)) == multiset(s) - multiset{x}
    ensures forall y :: y in RemoveFirst(s, x) ==> y in s
  {
    if s != [] {
      assert s == [s[0]] + s[1..];
      if s[0] != x {
        RemoveFirstMultiset(s[1..], x);
      }
    }
  }

  /** Removing the first occurrence is the one-element splice at `indexOf`. */
  lemma {:induction false} RemoveFirstIsSplice<T>(s: seq<T>, x: T, k: int)
    requires k == IndexOf(s, x)
    ensures k == -1 ==> RemoveFirst(s, x) == s
    ensures k >= 0 ==> RemoveFirst(s, x) == s[..k] + s[k + 1..]
  {
    if s == [] {
    } else if s[0] == x {
      assert s[..0] + s[1..] == s[1..];
    } else {
      var j := IndexOf(s[1..], x);
      RemoveFirstIsSplice(s[1..], x, j);
      SpliceCons(s, j, RemoveFirst(s[1..], x));
    }
  }

  /** Splicing the tail at `j` is splicing the whole sequence at `j + 1`. */
  lemma SpliceCons<T>(s: seq<T>, j: int, r: seq<T>)
    requires s != [] && -1 <= j < |s| - 1
    requires j == -1 ==> r == s[1..]
    requires j >= 0 ==> r == s[1..][..j] + s[1..][j + 1..]
    ensures j == -1 ==> [s[0]] + r == s
    ensures j >= 0 ==> [s[0]] + r == s[..j + 1] + s[j + 2..]
  {
    if j >= 0 {
      assert [s[0]] + s[1..][..j] == s[..j + 1];
      assert s[1..][j + 1..] == s[j + 2..];
    }
  }

  /** Removes the first occurrence of each element of `xs`, in the order of `xs`. */
  function RemoveEach<T(==)>(s: seq<T>, xs: seq<T>): (r: seq<T>)
    ensures multiset(r) <= multiset(s)
    decreases xs
  {
    if xs == [] then s
    else
      RemoveFirstMultiset(s, xs[0]);
      RemoveEach(RemoveFirst(s, xs[0]), xs[1..])
  }

  predicate NoDup<T(==)>(s: seq<T>) {
    forall i, j :: 0 <= i < j < |s| ==> s[i] != s[j]
  }

  lemma NoDupCount<T>(s: seq<T>, x: T)
    requires NoDup(s)
    ensures multiset(s)[x] <= 1
  {
    if s != [] {
      assert s == [s[0]] + s[1..];
      NoDupCount(s[1..], x);
      if s[0] == x {
        assert x !in s[1..];
      }
    }
  }

  lemma MultisetNoDup<T>(s: seq<T>)
    requires forall x :: multiset(s)[x] <= 1
    ensures NoDup(s)
  {
    forall i, j | 0 <= i < j < |s| ensures s[i] != s[j] {
      assert s == s[..i] + [s[i]] + s[i + 1..j] + [s[j]] + s[j + 1..];
      assert multiset([s[i], s[j]]) <= multiset(s);
    }
  }

  lemma NoDupTail<T>(s: seq<T>)
    requires NoDup(s) && s != []
    ensures NoDup(s[1..])
  {
    forall i, j | 0 <= i < j < |s| - 1 ensures s[1..][i] != s[1..][j] {
      assert s[1..][i] == s[i + 1] && s[1..][j] == s[j + 1];
    }
  }

  /** Without duplicates, removing the first occurrence removes the element altogether. */
  lemma RemoveFirstNoDup<T>(s: seq<T>, x: T)
    requires NoDup(s)
    ensures NoDup(RemoveFirst(s, x))
    ensures forall y :: y in RemoveFirst(s, x) <==> y in s && y != x
  {
    var r := RemoveFirst(s, x);
    RemoveFirstMultiset(s, x);
    forall y ensures multiset(r)[y] <= 1 && (y in r <==> y in s && y != x) {
      NoDupCount(s, y);
    }
    MultisetNoDup(r);
  }

  /**
   Without duplicates in `s`, removing each element of `xs` leaves exactly the
   elements of `s` that are not in `xs`, still without duplicates.
   */
  lemma {:induction false} RemoveEachNoDup<T>(s: seq<T>, xs: seq<T>)
    requires NoDup(s)
    ensures NoDup(RemoveEach(s, xs))
    ensures forall y :: y in RemoveEach(s, xs) <==> y in s && y !in xs
    decreases xs
  {
    if xs != [] {
      RemoveFirstNoDup(s, xs[0]);
      RemoveEachNoDup(RemoveFirst(s, xs[0]), xs[1..]);
      assert xs == [xs[0]] + xs[1..];
    }
  }

  /** An element that is in `s` and not in `xs` survives `RemoveEach`, duplicates or not. */
  lemma {:induction false} RemoveEachKeeps<T>(s: seq<T>, xs: seq<T>, y: T)
    requires y in s && y !in xs
    ensures y in RemoveEach(s, xs)
    decreases xs
  {
    if xs != [] {
      RemoveFirstMultiset(s, xs[0]);
      assert y != xs[0] && y !in xs[1..];
      assert multiset(RemoveFirst(s, xs[0]))[y] == multiset(s)[y];
      RemoveEachKeeps(RemoveFirst(s, xs[0]), xs[1..], y);
    }
  }

  // ---------------------------------------------------------------------------
  // `array.sort((a, b) => a.length - b.length)`: a stable sort, shortest first.

  predicate SortedByLength(s: seq<string>) {
    forall i, j :: 0 <= i < j < |s| ==> |s[i]| <= |s[j]|
  }

  lemma SortedTail(s: seq<string>)
    requires SortedByLength(s) && s != []
    ensures SortedByLength(s[1..])
  {
    forall i, j | 0 <= i < j < |s| - 1 ensures |s[1..][i]| <= |s[1..][j]| {
      assert s[1..][i] == s[i + 1] && s[1..][j] == s[j + 1];
    }
  }

  lemma SortedCons(a: string, rest: seq<string>)
    requires SortedByLength(rest) && (rest != [] ==> |a| <= |rest[0]|)
    ensures SortedByLength([a] + rest)
  {
    var r := [a] + rest;
    forall i, j | 0 <= i < j < |r| ensures |r[i]| <= |r[j]| {
      if i == 0 {
        assert r[j] == rest[j - 1];
        assert |rest[0]| <= |rest[j - 1]| || j == 1;
      } else {
        assert r[i] == rest[i - 1] && r[j] == rest[j - 1];
      }
    }
  }

  /** Inserts `x` before the first element that is at least as long. */
  function Insert(x: string, s: seq<string>): (r: seq<string>)
    requires SortedByLength(s)
    ensures SortedByLength(r)
    ensures multiset(r) == multiset(s) + multiset{x}
    ensures r[0] == x || (s != [] && r[0] == s[0])
  {
    if s == [] then [x]
    else if |x| <= |s[0]| then
      SortedCons(x, s);
      [x] + s
    else
      SortedTail(s);
      var rest := Insert(x, s[1..]);
      assert s[1..] != [] ==> |s[0]| <= |s[1..][0]|;
      SortedCons(s[0], rest);
      assert s == [s[0]] + s[1..];
      [s[0]] + rest
  }

  /** Insertion sort by length; elements of equal length keep their relative order. */
  function SortByLength(s: seq<string>): (r: seq<string>)
    ensures SortedByLength(r)
    ensures multiset(r) == multiset(s)
  {
    if s == [] then []
    else
      assert s == [s[0]] + s[1..];
      Insert(s[0], SortByLength(s[1..]))
  }

  /** The entries of `s` whose length is `n`, in order. */
  function OfLength(s: seq<string>, n: nat): seq<string> {
    if s == [] then [] else (if |s[0]| == n then [s[0]] else []) + OfLength(s[1..], n)
  }

  lemma OfLengthCons(a: string, t: seq<string>, n: nat)
    ensures OfLength([a] + t, n) == (if |a| == n then [a] else []) + OfLength(t, n)
  {
    assert ([a] + t)[1..] == t;
  }

  /** Inserting `x` puts it in front of every entry of its own length. */
  lemma {:induction false} InsertOfLength(x: string, s: seq<string>, n: nat)
    requires SortedByLength(s)
    ensures OfLength(Insert(x, s), n) == (if |x| == n then [x] else []) + OfLength(s, n)
  {
    if s == [] || |x| <= |s[0]| {
      assert Insert(x, s) == [x] + s;
      OfLengthCons(x, s, n);
    } else {
      SortedTail(s);
      InsertOfLength(x, s[1..], n);
      InsertPastHead(x, s, n);
    }
  }

  /** Inserting past a shorter head leaves the head's length class in front. */
  lemma InsertPastHead(x: string, s: seq<string>, n: nat)
    requires SortedByLength(s) && s != [] && |x| > |s[0]|
    requires SortedByLength(s[1..])
    requires OfLength(Insert(x, s[1..]), n) == (if |x| == n then [x] else []) + OfLength(s[1..], n)
    ensures OfLength(Insert(x, s), n) == (if |x| == n then [x] else []) + OfLength(s, n)
  {
    var head, tail := s[0], s[1..];
    var rest := Insert(x, tail);
    assert Insert(x, s) == [head] + rest;
    OfLengthCons(head, rest, n);
    assert s == [head] + tail;
    OfLengthCons(head, tail, n);
    if |x| == n {
      assert OfLength(Insert(x, s), n) == OfLength(rest, n) == [x] + OfLength(tail, n);
      assert OfLength(s, n) == OfLength(tail, n);
    } else {
      assert OfLength(rest, n) == OfLength(tail, n);
    }
  }

  /** The sort is stable: the entries of each length keep their relative order. */
  lemma {:induction false} SortStable(s: seq<string>, n: nat)
    ensures OfLength(SortByLength(s), n) == OfLength(s, n)
  {
    if s != [] {
      SortStable(s[1..], n);
      InsertOfLength(s[0], SortByLength(s[1..]), n);
    }
  }
}
