/**
  The set-algebra library: equality, ordered equality, subset and superset
  tests (strict and not), union, intersection and difference of JavaScript
  `Set`s.

  A `Set` argument is the sequence `[...s]` of its elements in insertion
  order (see module Builtins). Every operation is written as the library
  writes it, from `every`, `filter`, `reduce` with `concat` and the
  `new Set(iterable)` constructor; the lemmas and postconditions say what the
  results mean in terms of the sets of elements and of insertion order.
  The operations accept any sequence; where a property holds only because a
  `Set` never holds an element twice, the lemma asks for `NoDups`.
 */
module SetsUtils {
  import opened Builtins

  // ---------------------------------------------------------------------
  // Predicates
  // ---------------------------------------------------------------------

  /** `setsEqual`: the sizes agree and every element of `a` is in `b`. */
  function SetsEqual<T(==)>(a: seq<T>, b: seq<T>): bool {
    |a| == |b| && Every(a, e => e in b)
  }

  /**
    `orderedSetsEqual`: every element of `a` equals the element of `b` at the
    same position. The sizes are never compared.
   */
  function OrderedSetsEqual<T(==)>(a: seq<T>, b: seq<T>): bool {
    EveryIndexed(a, (e: T, i: nat) => i < |b| && b[i] == e, 0)
  }

  /** `isSubset`: `a` is no larger than `b` and every element of `a` is in `b`. */
  function IsSubset<T(==)>(a: seq<T>, b: seq<T>): bool {
    |a| <= |b| && Every(a, e => e in b)
  }

  /** `isProperSubset`: `a` is smaller than `b` and a subset of it. */
  function IsProperSubset<T(==)>(a: seq<T>, b: seq<T>): bool {
    |a| < |b| && IsSubset(a, b)
  }

  /** `isSuperset`: delegates to `IsSubset` with the arguments swapped. */
  function IsSuperset<T(==)>(a: seq<T>, b: seq<T>): bool {
    IsSubset(b, a)
  }

  /** `isProperSuperset`: delegates to `IsProperSubset` with the arguments swapped. */
  function IsProperSuperset<T(==)>(a: seq<T>, b: seq<T>): bool {
    IsProperSubset(b, a)
  }

  // ---------------------------------------------------------------------
  // Constructors of new sets
  // ---------------------------------------------------------------------

  /**
    `union(...sets)`: the arguments concatenated in call order, then put
    through `new Set(...)`. The result holds every element of every argument
    once, at the position of its first occurrence in the concatenation.
   */
  function Union<T(==)>(sets: seq<seq<T>>): (r: seq<T>)
    ensures NoDups(r)
    ensures Elems(r) == ElemsOfAll(sets)
    ensures InFirstOccurrenceOrder(r, ConcatAll(sets))
  {
    var joined := ConcatAll(sets);
    DedupOrder(joined);
    DedupElems(joined);
    ConcatAllElems(sets);
    Dedup(joined)
  }

  /** The elements that lie in every one of `sets`. */
  ghost function ElemsOfEvery<T>(sets: seq<seq<T>>): set<T>
    requires |sets| >= 1
  {
    set x | x in sets[0] && forall k :: 0 <= k < |sets| ==> x in sets[k]
  }

  /**
    `intersect(...sets)`: the elements of the first argument, in its order,
    that every later argument also has. Called with no argument at all, the
    library throws a `TypeError` while spreading the missing first set; the
    precondition rules that call out.
   */
  function Intersect<T(==)>(sets: seq<seq<T>>): (r: seq<T>)
    requires |sets| >= 1
    ensures NoDups(r)
    ensures Elems(r) == ElemsOfEvery(sets)
    ensures NoDups(sets[0]) ==> InFirstOccurrenceOrder(r, sets[0])
  {
    var reference := sets[0];
    var rest := sets[1..];
    var kept := Filter(reference, e => Every(rest, s => e in s));
    FilterOrder(reference, e => Every(rest, s => e in s));
    DedupNoDups(kept);
    DedupElems(kept);
    IntersectElems(sets, kept);
    Dedup(kept)
  }

  /** `difference(a, b)`: the elements of `a`, in its order, that `b` lacks. */
  function Difference<T(==)>(a: seq<T>, b: seq<T>): (r: seq<T>)
    ensures NoDups(r)
    ensures Elems(r) == Elems(a) - Elems(b)
    ensures NoDups(a) ==> InFirstOccurrenceOrder(r, a)
  {
    var kept := Filter(a, e => e !in b);
    FilterOrder(a, e => e !in b);
    DedupNoDups(kept);
    DedupElems(kept);
    Dedup(kept)
  }

  // ---------------------------------------------------------------------
  // Lemmas behind the constructors' postconditions
  // ---------------------------------------------------------------------

  /** `new Set(s)` has exactly the elements of `s`. */
  lemma DedupElems<T>(s: seq<T>)
    ensures Elems(Dedup(s)) == Elems(s)
  {
    var r := Dedup(s);
    forall x ensures x in Elems(r) <==> x in Elems(s) {
      if x in r {
        var i :| 0 <= i < |r| && r[i] == x;
      }
      if x in s {
        var i :| 0 <= i < |s| && s[i] == x;
      }
    }
  }

  /** The concatenation of all arguments has exactly their elements. */
  lemma ConcatAllElems<T>(sets: seq<seq<T>>)
    ensures Elems(ConcatAll(sets)) == ElemsOfAll(sets)
  {
    var c := ConcatAll(sets);
    forall x ensures x in Elems(c) <==> x in ElemsOfAll(sets) {
      if x in c {
        var i :| 0 <= i < |c| && c[i] == x;
        var k :| 0 <= k < |sets| && c[i] in sets[k];
      }
      if x in ElemsOfAll(sets) {
        var k :| 0 <= k < |sets| && x in sets[k];
        var i :| 0 <= i < |sets[k]| && sets[k][i] == x;
      }
    }
  }

  /** What `intersect`'s filter keeps is what all arguments share. */
  lemma IntersectElems<T>(sets: seq<seq<T>>, kept: seq<T>)
    requires |sets| >= 1
    requires kept == Filter(sets[0], e => Every(sets[1..], s => e in s))
    ensures Elems(kept) == ElemsOfEvery(sets)
  {
    var rest := sets[1..];
    forall x ensures x in Elems(kept) <==> x in ElemsOfEvery(sets) {
      if x in kept {
        var i :| 0 <= i < |kept| && kept[i] == x;
        assert Every(rest, s => x in s);
        forall k | 0 <= k < |sets| ensures x in sets[k] {
          if k > 0 {
            assert rest[k - 1] == sets[k];
          }
        }
      }
      if x in ElemsOfEvery(sets) {
        var i :| 0 <= i < |sets[0]| && sets[0][i] == x;
        forall k | 0 <= k < |rest| ensures x in rest[k] {
          assert rest[k] == sets[k + 1];
        }
        assert Every(rest, s => x in s);
      }
    }
  }

  // ---------------------------------------------------------------------
  // What the predicates mean
  // ---------------------------------------------------------------------

  /**
    `setsEqual` compares sizes and one-way membership; on duplicate-free
    arguments that is equality of the element sets, whatever the order.
   */
  lemma SetsEqualMeaning<T>(a: seq<T>, b: seq<T>)
    ensures SetsEqual(a, b) <==> |a| == |b| && Elems(a) <= Elems(b)
    ensures NoDups(a) && NoDups(b) ==> (SetsEqual(a, b) <==> Elems(a) == Elems(b))
  {
    EveryInMeaning(a, b);
    CardElems(a);
    CardElems(b);
    if NoDups(a) && SetsEqual(a, b) {
      SubsetOfEqualCard(Elems(a), Elems(b));
    }
  }

  /** `[...a].every(e => b.has(e))` is containment of the element sets. */
  lemma EveryInMeaning<T>(a: seq<T>, b: seq<T>)
    ensures Every(a, e => e in b) <==> Elems(a) <= Elems(b)
  {
    if Elems(a) <= Elems(b) {
      forall i | 0 <= i < |a| ensures a[i] in b {
        assert a[i] in Elems(a);
      }
    }
  }

  /**
    `orderedSetsEqual(a, b)` holds exactly when `a` is a prefix of `b`: the
    same sequence, or the first elements of a longer one.
   */
  lemma OrderedSetsEqualMeaning<T>(a: seq<T>, b: seq<T>)
    ensures OrderedSetsEqual(a, b) <==> |a| <= |b| && b[..|a|] == a
    ensures |a| == |b| ==> (OrderedSetsEqual(a, b) <==> a == b)
  {
    var matches := (e: T, i: nat) => i < |b| && b[i] == e;
    assert OrderedSetsEqual(a, b) == EveryIndexed(a, matches, 0);
    if OrderedSetsEqual(a, b) && |a| > 0 {
      assert matches(a[|a| - 1], |a| - 1);
    }
  }

  /**
    The comparison the documentation of `orderedSetsEqual` describes: the
    same elements at the same positions, and nothing more in either set.
   */
  function OrderedSetsEqualExact<T(==)>(a: seq<T>, b: seq<T>): bool {
    |a| == |b| && OrderedSetsEqual(a, b)
  }

  /** The exact comparison is sequence equality, and it implies `setsEqual`. */
  lemma OrderedSetsEqualExactMeaning<T>(a: seq<T>, b: seq<T>)
    ensures OrderedSetsEqualExact(a, b) <==> a == b
    ensures OrderedSetsEqualExact(a, b) ==> SetsEqual(a, b)
  {
    OrderedSetsEqualMeaning(a, b);
    EveryInMeaning(a, a);
  }

  /**
    As written, `orderedSetsEqual` also accepts a set whose insertion
    sequence is a proper prefix of the other's: `{1, 2}` against `{1, 2, 3}`.
   */
  lemma OrderedSetsEqualAcceptsPrefix()
    ensures OrderedSetsEqual([1, 2], [1, 2, 3])
    ensures !SetsEqual([1, 2], [1, 2, 3])
    ensures !OrderedSetsEqualExact([1, 2], [1, 2, 3])
  {
    OrderedSetsEqualMeaning([1, 2], [1, 2, 3]);
    assert [1, 2, 3][..2] == [1, 2];
  }

  /**
    `isSubset` holds only when every element of `a` is in `b`; for a
    duplicate-free `a` the size guard follows from membership, so the test
    is exactly containment of the element sets.
   */
  lemma IsSubsetMeaning<T>(a: seq<T>, b: seq<T>)
    ensures IsSubset(a, b) ==> Elems(a) <= Elems(b)
    ensures NoDups(a) ==> (IsSubset(a, b) <==> Elems(a) <= Elems(b))
  {
    EveryInMeaning(a, b);
    CardElems(a);
    CardElems(b);
    if NoDups(a) && Elems(a) <= Elems(b) {
      assert |Elems(a)| <= |Elems(b)| by {
        assert Elems(b) == Elems(a) + (Elems(b) - Elems(a));
      }
    }
  }

  /** Every set is a subset of itself and never a proper subset of itself. */
  lemma SubsetReflexive<T>(a: seq<T>)
    ensures IsSubset(a, a)
    ensures !IsProperSubset(a, a)
  {
  }

  /**
    For duplicate-free arguments `isProperSubset` is strict containment of
    the element sets; in particular two sets with the same elements, in any
    order, are never proper subsets of each other.
   */
  lemma IsProperSubsetMeaning<T>(a: seq<T>, b: seq<T>)
    ensures IsProperSubset(a, b) ==> Elems(a) <= Elems(b) && |a| < |b|
    ensures NoDups(a) && NoDups(b) ==> (IsProperSubset(a, b) <==> Elems(a) < Elems(b))
  {
    IsSubsetMeaning(a, b);
    CardElems(a);
    CardElems(b);
    if NoDups(a) && NoDups(b) {
      if IsProperSubset(a, b) {
        assert Elems(a) != Elems(b);
      }
      if Elems(a) < Elems(b) {
        assert |Elems(a)| < |Elems(b)| by {
          assert Elems(b) == Elems(a) + (Elems(b) - Elems(a));
        }
      }
    }
  }

  /** The superset tests are the subset tests with the arguments swapped. */
  lemma Duality<T>(a: seq<T>, b: seq<T>)
    ensures IsSuperset(a, b) == IsSubset(b, a)
    ensures IsProperSuperset(a, b) == IsProperSubset(b, a)
  {
  }

  /** For duplicate-free arguments the superset tests are (strict) containment the other way. */
  lemma IsSupersetMeaning<T>(a: seq<T>, b: seq<T>)
    ensures NoDups(b) ==> (IsSuperset(a, b) <==> Elems(b) <= Elems(a))
    ensures NoDups(a) && NoDups(b) ==> (IsProperSuperset(a, b) <==> Elems(b) < Elems(a))
  {
    IsSubsetMeaning(b, a);
    IsProperSubsetMeaning(b, a);
  }

  /** Subset both ways is `setsEqual`, for duplicate-free arguments. */
  lemma SubsetAntisymmetric<T>(a: seq<T>, b: seq<T>)
    requires NoDups(a) && NoDups(b)
    ensures IsSubset(a, b) && IsSuperset(a, b) <==> SetsEqual(a, b)
  {
    IsSubsetMeaning(a, b);
    IsSubsetMeaning(b, a);
    SetsEqualMeaning(a, b);
  }

  // ---------------------------------------------------------------------
  // Properties of the constructors
  // ---------------------------------------------------------------------

  /**
    Union has no arguments' elements but theirs, in a determined order: any
    duplicate-free sequence with the elements of all `sets`, listed in the
    order they first occur across the arguments, is `Union(sets)`.
   */
  lemma UnionIsDetermined<T>(sets: seq<seq<T>>, r: seq<T>)
    requires NoDups(r)
    requires Elems(r) == ElemsOfAll(sets)
    requires InFirstOccurrenceOrder(r, ConcatAll(sets))
    ensures r == Union(sets)
  {
    FirstOccurrenceOrderUnique(r, Union(sets), ConcatAll(sets));
  }

  /**
    Intersection is determined the same way: any duplicate-free sequence
    holding the elements common to all `sets`, in the order of the first
    argument, is `Intersect(sets)`.
   */
  lemma IntersectIsDetermined<T>(sets: seq<seq<T>>, r: seq<T>)
    requires |sets| >= 1 && NoDups(sets[0])
    requires NoDups(r) && Elems(r) == ElemsOfEvery(sets)
    requires InFirstOccurrenceOrder(r, sets[0])
    ensures r == Intersect(sets)
  {
    FirstOccurrenceOrderUnique(r, Intersect(sets), sets[0]);
  }

  /**
    And so is difference: any duplicate-free sequence holding the elements of
    `a` missing from `b`, in the order of `a`, is `Difference(a, b)`.
   */
  lemma DifferenceIsDetermined<T>(a: seq<T>, b: seq<T>, r: seq<T>)
    requires NoDups(a) && NoDups(r) && Elems(r) == Elems(a) - Elems(b)
    requires InFirstOccurrenceOrder(r, a)
    ensures r == Difference(a, b)
  {
    FirstOccurrenceOrderUnique(r, Difference(a, b), a);
  }

  /**
    `union()` is empty, and the union of a set alone or with the empty set
    is a copy of it, in the same order.
   */
  lemma UnionIdentity<T>(a: seq<T>)
    requires NoDups(a)
    ensures Union<T>([]) == []
    ensures Union([a]) == a
    ensures Union([a, []]) == a
  {
    assert ConcatAll([a]) == a;
    assert ConcatAll([a, []]) == a by {
      assert [a, []][..1] == [a];
    }
    DedupNoDups(a);
  }

  /**
    A set united with sets whose elements it already has is unchanged, in
    content and in order.
   */
  lemma UnionWithSubset<T>(a: seq<T>, b: seq<T>)
    requires NoDups(a) && Elems(b) <= Elems(a)
    ensures Union([a, b]) == a
  {
    ConcatPair(a, b);
    ConcatAllElems([a, b]);
    assert Elems(a + b) == Elems(a) + Elems(b);
    PrefixInOrder(a, b);
    UnionIsDetermined([a, b], a);
  }

  /**
    A union compares equal, under `setsEqual`, to any set holding exactly the
    elements of its arguments.
   */
  lemma UnionSetsEqual<T>(want: seq<T>, sets: seq<seq<T>>)
    requires NoDups(want) && Elems(want) == ElemsOfAll(sets)
    ensures SetsEqual(want, Union(sets))
  {
    var r := Union(sets);
    CardElems(r);
    CardElems(want);
    SetsEqualMeaning(want, r);
  }

  /** Two arguments are joined as `a.concat(b)`. */
  lemma ConcatPair<T>(a: seq<T>, b: seq<T>)
    ensures ConcatAll([a, b]) == a + b
  {
    assert [a, b][..1] == [a];
    assert ConcatAll([a]) == a;
  }

  /** A union keeps the first argument's elements at the front, in its order. */
  lemma UnionKeepsFirstArgument<T>(sets: seq<seq<T>>)
    requires |sets| >= 1 && NoDups(sets[0])
    ensures |sets[0]| <= |Union(sets)| && Union(sets)[..|sets[0]|] == sets[0]
  {
    var c := ConcatAll(sets);
    var n := |sets[0]|;
    assert c[..n] == sets[0];
    DedupPrefix(c, n);
    DedupNoDups(sets[0]);
  }

  /**
    `intersect` of a set alone is a copy of it, and the intersection with
    the empty set is empty.
   */
  lemma IntersectIdentities<T>(a: seq<T>)
    ensures NoDups(a) ==> Intersect([a]) == a
    ensures Intersect([a, []]) == []
  {
    if NoDups(a) {
      var r := Intersect([a]);
      assert Elems(r) == Elems(a);
      assert InFirstOccurrenceOrder(a, a) by {
        DedupOrder(a);
        DedupNoDups(a);
      }
      FirstOccurrenceOrderUnique(r, a, a);
    }
    var e := Intersect([a, []]);
    assert Elems(e) == {};
    CardElems(e);
  }

  /** The difference of two sets is empty exactly when the first is contained in the second. */
  lemma DifferenceEmpty<T>(a: seq<T>, b: seq<T>)
    ensures Difference(a, b) == [] <==> Elems(a) <= Elems(b)
    ensures IsSubset(a, b) ==> Difference(a, b) == []
  {
    var r := Difference(a, b);
    CardElems(r);
    if Elems(a) - Elems(b) != {} {
      var x :| x in Elems(a) - Elems(b);
      assert x in Elems(r);
    }
    IsSubsetMeaning(a, b);
  }

  /**
    `difference` is not commutative: swapping the arguments gives the same
    result only when both results are empty, that is, when the two sets have
    the same elements.
   */
  lemma DifferenceNotCommutative<T>(a: seq<T>, b: seq<T>)
    ensures Difference(a, b) == Difference(b, a) <==> Elems(a) == Elems(b)
    ensures Elems(a) == Elems(b) ==> Difference(a, b) == [] && Difference(b, a) == []
  {
    DifferenceEmpty(a, b);
    DifferenceEmpty(b, a);
    var r, r' := Difference(a, b), Difference(b, a);
    assert Elems(r) !! Elems(r');
    CardElems(r);
  }
}
