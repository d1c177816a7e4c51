/**
  The concrete scenarios of the library's test suite (test.js), restated as
  lemmas about the model. Sets are written as their insertion sequences.
 */
module SetsUtilsExamples {
  import opened Builtins
  import opened SetsUtils

  /** Equality ignores order but not missing or extra elements. */
  lemma SetsEqualScenarios()
    ensures SetsEqual([1, 2, 3, 4], [2, 4, 3, 1])
    ensures !SetsEqual([1, 2, 3, 4], [2, 3, 4, 1, 5])
    ensures !SetsEqual([1, 2, 3, 4], [1, 2, 3, 5])
  {
  }

  /** Ordered equality accepts the same order and rejects another one. */
  lemma OrderedSetsEqualScenarios()
    ensures OrderedSetsEqual([1, 2, 3, 4], [1, 2, 3, 4])
    ensures !OrderedSetsEqual([1, 2, 3, 4], [2, 4, 3, 1])
  {
  }

  /** The subset and superset scenarios, strict and not. */
  lemma ContainmentScenarios()
    ensures IsSubset([1, 2, 3, 4], [1, 2, 3, 4]) && IsSubset([1, 2, 3, 4], [2, 4, 1, 3])
    ensures IsSubset([2, 4, 1], [1, 2, 3, 4])
    ensures !IsSubset([1, 2, 3, 4], [2, 4, 1]) && !IsSubset([1, 2, 3, 4], [2, 4, 5])
    ensures !IsProperSubset([1, 2, 3, 4], [1, 2, 3, 4]) && !IsProperSubset([1, 2, 3, 4], [2, 4, 1, 3])
    ensures IsProperSubset([2, 4, 1], [1, 2, 3, 4])
    ensures IsSuperset([1, 2, 3, 4], [1, 2, 3, 4]) && IsSuperset([1, 2, 3, 4], [2, 4, 1, 3])
    ensures IsSuperset([1, 2, 3, 4], [2, 4, 1])
    ensures !IsSuperset([2, 4, 1], [1, 2, 3, 4]) && !IsSuperset([1, 2, 3, 4], [2, 4, 5])
    ensures !IsProperSuperset([1, 2, 3, 4], [1, 2, 3, 4]) && !IsProperSuperset([1, 2, 3, 4], [2, 4, 1, 3])
    ensures IsProperSuperset([1, 2, 3, 4], [2, 4, 1])
  {
  }

  /** The six arguments of the deduplication scenario hold the numbers 1 to 10. */
  lemma UnionArgumentsElems()
    ensures ElemsOfAll([[1, 2, 3], [2, 4, 5, 10], [6, 7, 9], [8], [1, 2], []]) == {1, 2, 3, 4, 5, 6, 7, 8, 9, 10}
  {
    var sets: seq<seq<int>> := [[1, 2, 3], [2, 4, 5, 10], [6, 7, 9], [8], [1, 2], []];
    forall x | x in ElemsOfAll(sets) ensures x in {1, 2, 3, 4, 5, 6, 7, 8, 9, 10} {
      var k :| 0 <= k < |sets| && x in sets[k];
    }
    forall x | x in {1, 2, 3, 4, 5, 6, 7, 8, 9, 10} ensures x in ElemsOfAll(sets) {
      if x in sets[0] { assert 0 < |sets|; }
      else if x in sets[1] { assert 1 < |sets|; }
      else if x in sets[2] { assert 2 < |sets|; }
      else { assert x in sets[3]; }
    }
  }

  /**
    `union({1, 2, 3}, {2, 4, 5, 10}, {6, 7, 9}, {8}, {1, 2}, {})` holds the
    numbers 1 to 10, each once; `UnionSetsEqual` turns this into `setsEqual`
    with `{1, ..., 10}`.
   */
  lemma UnionDedupScenario()
    ensures Elems(Union([[1, 2, 3], [2, 4, 5, 10], [6, 7, 9], [8], [1, 2], []])) == {1, 2, 3, 4, 5, 6, 7, 8, 9, 10}
  {
    UnionArgumentsElems();
  }

  /** `union({1, 2, 3}, {1, 2})` and `union({1, 2, 3}, {})` are `{1, 2, 3}`. */
  lemma UnionScenarios()
    ensures Union([[1, 2, 3], [1, 2]]) == [1, 2, 3]
    ensures Union([[1, 2, 3], []]) == [1, 2, 3]
  {
    UnionWithSubset([1, 2, 3], [1, 2]);
    UnionIdentity([1, 2, 3]);
  }

  /** `intersect({1, 2, 3}, {2, 4, 5, 10})` is `{2}`. */
  lemma IntersectTwoScenario()
    ensures Intersect([[1, 2, 3], [2, 4, 5, 10]]) == [2]
  {
    var sets: seq<seq<int>> := [[1, 2, 3], [2, 4, 5, 10]];
    assert Elems([2]) == ElemsOfEvery(sets) by {
      forall x | x in ElemsOfEvery(sets) ensures x == 2 {
        assert x in sets[1];
      }
    }
    IntersectIsDetermined(sets, [2]);
  }

  /** Intersecting with the empty set, or two disjoint sets, gives the empty set. */
  lemma IntersectEmptyScenarios()
    ensures Intersect([[1, 2, 3], []]) == []
    ensures Intersect([[6, 7, 9], [8]]) == []
  {
    IntersectIdentities([1, 2, 3]);
    var sets: seq<seq<int>> := [[6, 7, 9], [8]];
    var e := Intersect(sets);
    assert forall x :: x in sets[1] ==> x == 8;
    assert Elems(e) == {};
    CardElems(e);
  }

  /** The three-set scenario: `intersect({1, 2, 3}, {2, 4, 5, 10}, {1, 2})` is `{2}`. */
  lemma IntersectThreeScenario()
    ensures Intersect([[1, 2, 3], [2, 4, 5, 10], [1, 2]]) == [2]
  {
    var sets: seq<seq<int>> := [[1, 2, 3], [2, 4, 5, 10], [1, 2]];
    assert Elems([2]) == ElemsOfEvery(sets) by {
      forall x | x in ElemsOfEvery(sets) ensures x == 2 {
        assert x in sets[1] && x in sets[2];
      }
    }
    IntersectIsDetermined(sets, [2]);
  }

  /** The difference of two sets with the same elements is empty. */
  lemma DifferenceEqualScenario()
    ensures Difference([1, 2, 3, 4], [2, 4, 3, 1]) == []
  {
    assert Elems([1, 2, 3, 4]) == {1, 2, 3, 4} && Elems([2, 4, 3, 1]) == {1, 2, 3, 4};
    DifferenceEmpty([1, 2, 3, 4], [2, 4, 3, 1]);
  }

  /** `difference({1, 2, 3, 4}, {1, 2, 3})` is `{4}`. */
  lemma DifferenceSubsetScenario()
    ensures Difference([1, 2, 3, 4], [1, 2, 3]) == [4]
  {
    var a, c := [1, 2, 3, 4], [1, 2, 3];
    assert Elems([4]) == Elems(a) - Elems(c) by {
      assert Elems(a) == {1, 2, 3, 4} && Elems(c) == {1, 2, 3} && Elems([4]) == {4};
    }
    DifferenceIsDetermined(a, c, [4]);
  }

  /** `difference({1, 5, 6, 4}, {2, 4, 3, 1})` is `{5, 6}`. */
  lemma DifferenceScenario()
    ensures Difference([1, 5, 6, 4], [2, 4, 3, 1]) == [5, 6]
  {
    var d, b := [1, 5, 6, 4], [2, 4, 3, 1];
    assert Elems([5, 6]) == Elems(d) - Elems(b) by {
      assert Elems(d) == {1, 5, 6, 4} && Elems(b) == {1, 2, 3, 4} && Elems([5, 6]) == {5, 6};
    }
    DifferenceIsDetermined(d, b, [5, 6]);
  }

  /** Swapping the arguments: `difference({1, 2, 3, 4}, {1, 5, 6, 4})` is `{2, 3}`. */
  lemma DifferenceSwappedScenario()
    ensures Difference([1, 2, 3, 4], [1, 5, 6, 4]) == [2, 3]
  {
    var a, d := [1, 2, 3, 4], [1, 5, 6, 4];
    assert Elems([2, 3]) == Elems(a) - Elems(d) by {
      assert Elems(a) == {1, 2, 3, 4} && Elems(d) == {1, 5, 6, 4} && Elems([2, 3]) == {2, 3};
    }
    DifferenceIsDetermined(a, d, [2, 3]);
  }
}
