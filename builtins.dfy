/**
  The JavaScript building blocks the set library is written with.

  A JavaScript `Set` is observed here through its spread `[...s]`: a sequence
  of its elements in insertion order, in which no element occurs twice. The
  array methods `every` and `filter`, the fold `reduce` with `concat`, and the
  `new Set(iterable)` constructor become functions on such sequences, each
  proved against a declarative description of what it computes.
 */
module Builtins {

  /** No element occurs twice: every spread of a `Set` has this shape. */
  ghost predicate NoDups<T>(s: seq<T>) {
    forall i, j :: 0 <= i < j < |s| ==> s[i] != s[j]
  }

  /** The elements of a sequence, forgetting order and multiplicity. */
  ghost function Elems<T>(s: seq<T>): set<T> {
    set x | x in s
  }

  /** The elements found in at least one of `sets`. */
  ghost function ElemsOfAll<T>(sets: seq<seq<T>>): set<T> {
    set k, x | 0 <= k < |sets| && x in sets[k] :: x
  }

  /** The position of the first occurrence of `x` in `s`. */
  ghost function IndexOf<T>(s: seq<T>, x: T): (i: nat)
    requires x in s
    ensures i < |s| && s[i] == x && x !in s[..i]
  {
    if s[0] == x then 0
    else
      var i' := IndexOf(s[1..], x);
      assert s[..1 + i'] == [s[0]] + s[1..][..i'];
      1 + i'
  }

  /**
    `r` lists its elements in the order in which they first occur in `s`,
    the order of a `Set` filled by inserting the elements of `s` one by one:
    every element of `r` occurs in `s`, and wherever a later element of `r`
    occurs in `s`, each earlier element of `r` has already occurred.
   */
  ghost predicate InFirstOccurrenceOrder<T>(r: seq<T>, s: seq<T>) {
    && (forall i :: 0 <= i < |r| ==> r[i] in s)
    && (forall i, j, p :: 0 <= i < j < |r| && 0 <= p < |s| && s[p] == r[j] ==> r[i] in s[..p])
  }

  /** `Array.prototype.every` with a one-argument callback. */
  function Every<T>(s: seq<T>, p: T -> bool): (r: bool)
    ensures r <==> forall i :: 0 <= i < |s| ==> p(s[i])
  {
    s == [] || (p(s[0]) && Every(s[1..], p))
  }

  /**
    `Array.prototype.every` whose callback also receives the index, scanning
    from position `k` on; the whole array is `EveryIndexed(s, p, 0)`.
   */
  function EveryIndexed<T>(s: seq<T>, p: (T, nat) -> bool, k: nat): (r: bool)
    requires k <= |s|
    ensures r <==> forall i :: k <= i < |s| ==> p(s[i], i)
    decreases |s| - k
  {
    k == |s| || (p(s[k], k) && EveryIndexed(s, p, k + 1))
  }

  /** `Array.prototype.filter`: the elements satisfying `p`, in their order. */
  function Filter<T>(s: seq<T>, p: T -> bool): (r: seq<T>)
    ensures |r| <= |s|
    ensures forall i :: 0 <= i < |r| ==> r[i] in s && p(r[i])
    ensures forall i :: 0 <= i < |s| && p(s[i]) ==> s[i] in r
    ensures NoDups(s) ==> NoDups(r)
  {
    if s == [] then []
    else (if p(s[0]) then [s[0]] else []) + Filter(s[1..], p)
  }

  /**
    `sets.reduce((prev, next) => prev.concat([...next]), [])`: the arrays
    joined left to right, folded from the left as `reduce` does.
   */
  function ConcatAll<T>(sets: seq<seq<T>>): (r: seq<T>)
    ensures |sets| > 0 ==> |sets[0]| <= |r| && r[..|sets[0]|] == sets[0]
    ensures forall i :: 0 <= i < |r| ==> exists k :: 0 <= k < |sets| && r[i] in sets[k]
    ensures forall k, i :: 0 <= k < |sets| && 0 <= i < |sets[k]| ==> sets[k][i] in r
  {
    if sets == [] then []
    else ConcatAll(sets[..|sets| - 1]) + sets[|sets| - 1]
  }

  /**
    `new Set(iterable)`: the elements of `s` added one at a time to an empty
    set, where adding an element already present changes nothing.
   */
  function Dedup<T(==)>(s: seq<T>): (r: seq<T>)
    ensures NoDups(r)
    ensures forall i :: 0 <= i < |r| ==> r[i] in s
    ensures forall i :: 0 <= i < |s| ==> s[i] in r
  {
    if s == [] then []
    else
      var seen := Dedup(s[..|s| - 1]);
      var x := s[|s| - 1];
      if x in seen then seen else seen + [x]
  }

  /** A duplicate-free sequence has as many elements as its length. */
  lemma {:induction false} CardElems<T>(s: seq<T>)
    ensures |Elems(s)| <= |s|
    ensures NoDups(s) ==> |Elems(s)| == |s|
  {
    if s != [] {
      var n := |s| - 1;
      CardElems(s[..n]);
      assert s == s[..n] + [s[n]];
      assert Elems(s) == Elems(s[..n]) + {s[n]};
      if NoDups(s) {
        assert s[n] !in Elems(s[..n]);
      }
    }
  }

  /** A subset at least as large as its superset is the whole superset. */
  lemma SubsetOfEqualCard<T>(a: set<T>, b: set<T>)
    requires a <= b && |b| <= |a|
    ensures a == b
  {
    assert a * b == a;
    assert |b - a| == 0;
  }

  /** The first occurrence is the only index holding `x` with no `x` before it. */
  lemma IndexOfUnique<T>(s: seq<T>, x: T, k: nat)
    requires k < |s| && s[k] == x && x !in s[..k]
    ensures IndexOf(s, x) == k
  {
    var i := IndexOf(s, x);
  }

  /**
    Cutting off a tail does not move a first occurrence that survives, so
    `x` occurring before position `m` first occurs before `m`.
   */
  lemma IndexOfPrefix<T>(s: seq<T>, m: nat, x: T)
    requires m <= |s| && x in s[..m]
    ensures x in s && IndexOf(s[..m], x) == IndexOf(s, x) && IndexOf(s, x) < m
  {
    var i := IndexOf(s[..m], x);
    assert s[..m][..i] == s[..i];
    IndexOfUnique(s, x, i);
  }

  /** `new Set(s)` lists its elements in the order they first occur in `s`. */
  lemma {:induction false} DedupOrder<T>(s: seq<T>)
    ensures InFirstOccurrenceOrder(Dedup(s), s)
  {
    if s != [] {
      var n := |s| - 1;
      var t := s[..n];
      DedupOrder(t);
      var seen := Dedup(t);
      var r := Dedup(s);
      assert forall p :: 0 <= p <= n ==> s[..p] == t[..p];
      forall i, j, p | 0 <= i < j < |r| && 0 <= p < |s| && s[p] == r[j]
        ensures r[i] in s[..p]
      {
        assert r[i] in seen;
        if j < |seen| {
          assert r[j] in seen;
          if p < n {
            assert s[p] == t[p];
          }
        } else {
          assert r[j] == s[n] && s[n] !in t;
          assert p == n;
        }
      }
    }
  }

  /** `new Set` of a longer input starts with `new Set` of its prefix. */
  lemma {:induction false} DedupPrefix<T>(s: seq<T>, n: nat)
    requires n <= |s|
    ensures |Dedup(s[..n])| <= |Dedup(s)| && Dedup(s)[..|Dedup(s[..n])|] == Dedup(s[..n])
    decreases |s| - n
  {
    if n == |s| {
      assert s[..n] == s;
    } else {
      var t := s[..|s| - 1];
      assert t[..n] == s[..n];
      DedupPrefix(t, n);
      var ds, dt, dn := Dedup(s), Dedup(t), Dedup(s[..n]);
      assert ds[..|dt|] == dt;
      assert ds[..|dn|] == dt[..|dn|];
    }
  }

  /** `new Set(s)` of a duplicate-free `s` is a copy of `s`. */
  lemma {:induction false} DedupNoDups<T>(s: seq<T>)
    ensures NoDups(s) ==> Dedup(s) == s
  {
    if s != [] && NoDups(s) {
      var n := |s| - 1;
      assert NoDups(s[..n]);
      DedupNoDups(s[..n]);
      assert s[n] !in s[..n];
      assert s == s[..n] + [s[n]];
    }
  }

  /** Putting a new element in front of `s` keeps any order taken from `s`. */
  lemma ConsKeepsOrder<T>(h: T, t: seq<T>, f: seq<T>)
    requires h !in f && InFirstOccurrenceOrder(f, t)
    ensures InFirstOccurrenceOrder(f, [h] + t)
  {
    var s := [h] + t;
    forall i, j, q | 0 <= i < j < |f| && 0 <= q < |s| && s[q] == f[j]
      ensures f[i] in s[..q]
    {
      assert f[j] != h;
      assert s[q] == t[q - 1];
      assert s[..q] == [h] + t[..q - 1];
    }
  }

  /** An element put in front of both keeps the order of `f` taken from `t`. */
  lemma ConsBothKeepsOrder<T>(h: T, t: seq<T>, f: seq<T>)
    requires h !in f && InFirstOccurrenceOrder(f, t)
    ensures InFirstOccurrenceOrder([h] + f, [h] + t)
  {
    ConsKeepsOrder(h, t, f);
    var s, r := [h] + t, [h] + f;
    forall i, j, q | 0 <= i < j < |r| && 0 <= q < |s| && s[q] == r[j]
      ensures r[i] in s[..q]
    {
      assert r[j] == f[j - 1] && r[j] != h;
      if i > 0 {
        assert r[i] == f[i - 1];
      } else {
        assert s[..q][0] == h;
      }
    }
  }

  /** A duplicate-free sequence is in first-occurrence order of anything it begins. */
  lemma PrefixInOrder<T>(a: seq<T>, b: seq<T>)
    requires NoDups(a)
    ensures InFirstOccurrenceOrder(a, a + b)
  {
    var c := a + b;
    forall i, j, p | 0 <= i < j < |a| && 0 <= p < |c| && c[p] == a[j]
      ensures a[i] in c[..p]
    {
      assert p >= j by {
        if p < |a| {
          assert c[p] == a[p];
        }
      }
      assert c[..p][i] == a[i];
    }
  }

  /** Filtering a duplicate-free sequence keeps the relative order. */
  lemma {:induction false} FilterOrder<T>(s: seq<T>, p: T -> bool)
    ensures NoDups(s) ==> InFirstOccurrenceOrder(Filter(s, p), s)
  {
    if s != [] && NoDups(s) {
      var t := s[1..];
      assert NoDups(t);
      FilterOrder(t, p);
      var f := Filter(t, p);
      assert s == [s[0]] + t;
      assert s[0] !in f;
      if p(s[0]) {
        ConsBothKeepsOrder(s[0], t, f);
      } else {
        ConsKeepsOrder(s[0], t, f);
      }
    }
  }

  /** Dropping the head keeps a sequence duplicate-free and in order. */
  lemma TailInOrder<T>(r: seq<T>, s: seq<T>)
    requires r != [] && NoDups(r) && InFirstOccurrenceOrder(r, s)
    ensures NoDups(r[1..])
    ensures InFirstOccurrenceOrder(r[1..], s)
  {
    var t := r[1..];
    forall i, j | 0 <= i < j < |t|
      ensures t[i] != t[j]
    {
      assert t[i] == r[i + 1] && t[j] == r[j + 1];
    }
  }

  /** Two duplicate-free sequences with a common head and common members have tails with common members. */
  lemma TailsSameMembers<T>(r1: seq<T>, r2: seq<T>, x: T)
    requires r1 != [] && r2 != [] && r1[0] == r2[0] && NoDups(r1) && NoDups(r2)
    requires forall y :: y in r1 <==> y in r2
    ensures x in r1[1..] ==> x in r2[1..]
  {
    if x in r1[1..] {
      var i :| 0 <= i < |r1[1..]| && r1[1..][i] == x;
      assert r1[i + 1] == x && x != r1[0];
      assert x in r2;
      var j :| 0 <= j < |r2| && r2[j] == x;
      assert j != 0;
      assert r2[1..][j - 1] == x;
    }
  }

  /** The head of a sequence in first-occurrence order of `s` occurs in `s` no later than any other element. */
  lemma HeadFirst<T>(r: seq<T>, s: seq<T>, j: nat)
    requires j < |r| && InFirstOccurrenceOrder(r, s)
    ensures IndexOf(s, r[0]) <= IndexOf(s, r[j])
  {
    if j > 0 {
      IndexOfPrefix(s, IndexOf(s, r[j]), r[0]);
    }
  }

  /** Of two sequences in first-occurrence order of `s` with the same members, the heads agree. */
  lemma SameHead<T>(r1: seq<T>, r2: seq<T>, s: seq<T>)
    requires r1 != [] && r2 != [] && r1[0] in r2 && r2[0] in r1
    requires InFirstOccurrenceOrder(r1, s) && InFirstOccurrenceOrder(r2, s)
    ensures r1[0] == r2[0]
  {
    var m :| 0 <= m < |r1| && r1[m] == r2[0];
    var k :| 0 <= k < |r2| && r2[k] == r1[0];
    HeadFirst(r1, s, m);
    HeadFirst(r2, s, k);
  }

  /**
    The order, the members and the absence of duplicates determine a result
    completely: two duplicate-free sequences with the same members, both in
    first-occurrence order of `s`, are equal.
   */
  lemma {:induction false} FirstOccurrenceOrderUnique<T>(r1: seq<T>, r2: seq<T>, s: seq<T>)
    requires NoDups(r1) && NoDups(r2) && Elems(r1) == Elems(r2)
    requires InFirstOccurrenceOrder(r1, s) && InFirstOccurrenceOrder(r2, s)
    ensures r1 == r2
    decreases |r1|
  {
    CardElems(r1);
    CardElems(r2);
    forall x ensures x in r1 <==> x in r2 {
      assert x in r1 <==> x in Elems(r1);
      assert x in r2 <==> x in Elems(r2);
    }
    if r1 != [] {
      assert r1[0] in r2 && r2[0] in r1;
      SameHead(r1, r2, s);
      TailInOrder(r1, s);
      TailInOrder(r2, s);
      forall x ensures x in Elems(r1[1..]) <==> x in Elems(r2[1..]) {
        TailsSameMembers(r1, r2, x);
        TailsSameMembers(r2, r1, x);
      }
      FirstOccurrenceOrderUnique(r1[1..], r2[1..], s);
      assert r1 == [r1[0]] + r1[1..] && r2 == [r2[0]] + r2[1..];
    }
  }
}
