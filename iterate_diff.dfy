/**
 * Comparator mode: iterateDiffAndIntersect and removeFrom (CollectionDiffAndIntersectUtil.java:145-166 and
 * 215-220) run against the ArrayList model, with the fail-fast iterator that removeFrom walks written out,
 * next to the corrected versions that the rest of the model relies on.
 */
module IterateDiff {
  import opened Results
  import opened JavaList
  import opened GreedySpec

  /** removeFrom as written: a for-each over the list (ArrayList's iterator: hasNext is cursor != size, next
      first compares modCount with the count it expects) that calls remove(k) on every k matching entity.
      The first removal ends the walk: the iterator either finds cursor == size, or throws on its next step. */
  method RemoveFrom<T(==)>(collection: ArrayList<T>, entity: T, compare: (T, T) -> bool) returns (outcome: Completion<()>)
    modifies collection
    ensures FirstMatch(old(collection.elems), entity, compare).None? ==>
              outcome == Normal(()) && collection.elems == old(collection.elems) &&
              collection.modCount == old(collection.modCount)
    ensures FirstMatch(old(collection.elems), entity, compare).Some? ==>
              var m := FirstMatch(old(collection.elems), entity, compare).value;
              && collection.elems == old(collection.elems)[..m] + old(collection.elems)[m + 1..]
              && collection.modCount == old(collection.modCount) + 1
              && (outcome.Normal? <==> m == |old(collection.elems)| - 2)
  {
    ghost var s := collection.elems;
    ghost var first := FirstMatch(s, entity, compare);
    var cursor := 0;
    var expectedModCount := collection.modCount;
    while cursor != |collection.elems|
      invariant collection.modCount == expectedModCount ==>
                  collection.elems == s && cursor <= |s| && forall i :: 0 <= i < cursor ==> !compare(s[i], entity)
      invariant collection.modCount != expectedModCount ==>
                  && first.Some?
                  && collection.elems == s[..first.value] + s[first.value + 1..]
                  && cursor == first.value + 1
                  && collection.modCount == expectedModCount + 1
      decreases if collection.modCount != expectedModCount then 0 else |collection.elems| - cursor + 1
    {
      if collection.modCount != expectedModCount {
        return ConcurrentModification;
      }
      var k := collection.elems[cursor];
      if compare(k, entity) {
        assert s[cursor] !in s[..cursor] by {
          forall i | 0 <= i < cursor ensures s[i] != s[cursor] {
            assert !compare(s[i], entity);
          }
        }
        RemoveFirstAt(s, cursor);
        var _ := collection.Remove(k);
      }
      cursor := cursor + 1;
    }
    return Normal(());
  }

  /** iterateDiffAndIntersect as written. B is walked in order; each entity that a remaining element of A
      matches goes to intersect and is removed from A through removeFrom, the others go to diffB; what is
      left of A is diffA. Whatever returnNew says, intersect holds B's entities. The pass ends with the
      exception thrown by removeFrom unless every removal hit the second-to-last element of A, and A keeps
      the removals made up to that point. */
  method IterateDiffAndIntersect<T(==)>(collectionA: ArrayList<T>, collectionB: seq<T>, compare: (T, T) -> bool,
                                         returnNew: bool)
    returns (r: Completion<DiffAndIntersect<T>>)
    modifies collectionA
    ensures var g := Greedy(old(collectionA.elems), collectionB, compare);
            Survives(old(collectionA.elems), collectionB, compare) ==>
              r == Normal(DiffAndIntersect(g.rest, g.diffB, g.fromB)) && collectionA.elems == g.rest
    ensures !Survives(old(collectionA.elems), collectionB, compare) ==>
              var n := FailureStep(old(collectionA.elems), collectionB, compare);
              r == ConcurrentModification &&
              collectionA.elems == Greedy(old(collectionA.elems), collectionB[..n], compare).rest
  {
    ghost var a0 := collectionA.elems;
    ghost var m := Greedy(a0, [], compare);
    var diffB: seq<T> := [];
    var intersect: seq<T> := [];
    for i := 0 to |collectionB|
      invariant Survives(a0, collectionB[..i], compare)
      invariant m == Greedy(a0, collectionB[..i], compare)
      invariant collectionA.elems == m.rest && diffB == m.diffB && intersect == m.fromB
    {
      var entity := collectionB[i];
      GreedyStep(a0, collectionB, i, compare);
      var matched, outcome := TakeEntity(collectionA, entity, compare, m);
      if outcome.ConcurrentModification? {
        FailureStepAt(a0, collectionB, i + 1, compare);
        return ConcurrentModification;
      }
      if matched {
        intersect := intersect + [entity];
      } else {
        diffB := diffB + [entity];
      }
      m := Step(m, entity, compare);
    }
    assert collectionB[..|collectionB|] == collectionB;
    r := Normal(DiffAndIntersect(collectionA.elems, diffB, intersect));
  }

  /** One pass of the loop over B (lines 153-158): containsCheck, then removeFrom when it holds. A leaves
      the step as the greedy step says, and the step throws exactly when the pass does not survive it. */
  method TakeEntity<T(==)>(collectionA: ArrayList<T>, entity: T, compare: (T, T) -> bool, ghost m: Matching<T>)
    returns (matched: bool, outcome: Completion<()>)
    requires collectionA.elems == m.rest
    modifies collectionA
    ensures matched == ContainsCheck(m.rest, entity, compare)
    ensures outcome.Normal? == StepSurvives(m.rest, entity, compare)
    ensures collectionA.elems == Step(m, entity, compare).rest
  {
    StepCases(m, entity, compare);
    matched := ContainsCheck(collectionA.elems, entity, compare);
    if matched {
      outcome := RemoveFrom(collectionA, entity, compare);
    } else {
      outcome := Normal(());
    }
  }

  /** removeFrom corrected: remove the first element matching entity and stop, so the iterator is never
      advanced past a structural modification. Returns the element removed, if any. */
  method RemoveFirstMatch<T(==)>(collection: ArrayList<T>, entity: T, compare: (T, T) -> bool) returns (removed: Option<T>)
    modifies collection
    ensures FirstMatch(old(collection.elems), entity, compare).None? ==>
              removed == None && collection.elems == old(collection.elems)
    ensures FirstMatch(old(collection.elems), entity, compare).Some? ==>
              var m := FirstMatch(old(collection.elems), entity, compare).value;
              removed == Some(old(collection.elems)[m]) &&
              collection.elems == old(collection.elems)[..m] + old(collection.elems)[m + 1..]
  {
    ghost var s := collection.elems;
    var cursor := 0;
    while cursor < |collection.elems|
      invariant collection.elems == s && cursor <= |s|
      invariant forall i :: 0 <= i < cursor ==> !compare(s[i], entity)
    {
      var k := collection.elems[cursor];
      if compare(k, entity) {
        assert s[cursor] !in s[..cursor] by {
          forall i | 0 <= i < cursor ensures s[i] != s[cursor] {
            assert !compare(s[i], entity);
          }
        }
        RemoveFirstAt(s, cursor);
        var _ := collection.Remove(k);
        return Some(k);
      }
      cursor := cursor + 1;
    }
    return None;
  }

  /** iterateDiffAndIntersect corrected: it always completes with the greedy pass over all of B, and
      intersect holds A's matched elements when returnNew is set and B's entities otherwise. */
  method DiffAndIntersectByComparator<T(==)>(collectionA: ArrayList<T>, collectionB: seq<T>,
                                             compare: (T, T) -> bool, returnNew: bool)
    returns (r: DiffAndIntersect<T>)
    modifies collectionA
    ensures var g := Greedy(old(collectionA.elems), collectionB, compare);
            r == DiffAndIntersect(g.rest, g.diffB, if returnNew then g.fromA else g.fromB) &&
            collectionA.elems == g.rest
  {
    ghost var a0 := collectionA.elems;
    ghost var m := Greedy(a0, [], compare);
    var diffB: seq<T> := [];
    var intersect: seq<T> := [];
    for i := 0 to |collectionB|
      invariant m == Greedy(a0, collectionB[..i], compare)
      invariant collectionA.elems == m.rest && diffB == m.diffB
      invariant intersect == if returnNew then m.fromA else m.fromB
    {
      var entity := collectionB[i];
      GreedyStep(a0, collectionB, i, compare);
      StepCases(m, entity, compare);
      var removed := RemoveFirstMatch(collectionA, entity, compare);
      match removed {
        case Some(k) =>
          intersect := intersect + [if returnNew then k else entity];
        case None =>
          diffB := diffB + [entity];
      }
      m := Step(m, entity, compare);
    }
    assert collectionB[..|collectionB|] == collectionB;
    r := DiffAndIntersect(collectionA.elems, diffB, intersect);
  }

  /** Entities identified by their first component, compared as a comparator keyed on an id would. */
  function SameId(x: (int, string), y: (int, string)): bool
  {
    x.0 == y.0
  }

  /** A match on A's last element makes the source throw, although the greedy pass has a well-defined
      result: A = [(1,"a"), (2,"b")], B = [(2,"b"), (3,"c")]. */
  lemma LastPositionMatchThrows()
    ensures var listA, listB := [(1, "a"), (2, "b")], [(2, "b"), (3, "c")];
            && !Survives(listA, listB, SameId)
            && FailureStep(listA, listB, SameId) == 1
            && Greedy(listA, listB, SameId) == Matching([(1, "a")], [(3, "c")], [(2, "b")], [(2, "b")])
  {
    var listA, listB := [(1, "a"), (2, "b")], [(2, "b"), (3, "c")];
    ExampleFirstStep();
    GreedyStep(listA, listB, 1, SameId);
    var m1 := Matching([(1, "a")], [], [(2, "b")], [(2, "b")]);
    assert FirstMatch(m1.rest, (3, "c"), SameId) == None by {
      assert !SameId(m1.rest[0], (3, "c"));
    }
    StepCases(m1, (3, "c"), SameId);
    assert listB[..2] == listB;
    FailureStepAt(listA, listB, 1, SameId);
  }

  /** The first step of LastPositionMatchThrows: (2,"b") matches A's last element. */
  lemma ExampleFirstStep()
    ensures var listA, listB := [(1, "a"), (2, "b")], [(2, "b"), (3, "c")];
            && Greedy(listA, listB[..1], SameId) == Matching([(1, "a")], [], [(2, "b")], [(2, "b")])
            && Survives(listA, listB[..0], SameId) && !Survives(listA, listB[..1], SameId)
  {
    var listA, listB := [(1, "a"), (2, "b")], [(2, "b"), (3, "c")];
    assert listB[..0] == [];
    assert FirstMatch(listA, (2, "b"), SameId) == Some(1) by {
      assert !SameId(listA[0], (2, "b")) && SameId(listA[1], (2, "b"));
    }
    GreedyStep(listA, listB, 0, SameId);
    StepCases(Greedy(listA, [], SameId), (2, "b"), SameId);
    assert listA[..1] + listA[2..] == [(1, "a")];
  }

  /** With a single element left in A, any match makes the source throw: position 0 is never the
      second-to-last of a one-element list. */
  lemma SingletonMatchThrows<T>(listA: seq<T>, listB: seq<T>, compare: (T, T) -> bool)
    requires |listA| == 1 && |listB| > 0 && compare(listA[0], listB[0])
    ensures !Survives(listA, listB, compare) && FailureStep(listA, listB, compare) == 1
  {
    GreedyStep(listA, listB, 0, compare);
    assert listB[..0] == [];
    FailureStepAt(listA, listB, 1, compare);
  }

  /** The source completes here, yet with returnNew set it returns B's entity (2,"old") in intersect instead
      of A's (2,"new"): A = [(2,"new"), (9,"z")], B = [(2,"old")]. */
  lemma ReturnNewIgnored()
    ensures var listA, listB := [(2, "new"), (9, "z")], [(2, "old")];
            && Survives(listA, listB, SameId)
            && Greedy(listA, listB, SameId).fromB == [(2, "old")]
            && Greedy(listA, listB, SameId).fromA == [(2, "new")]
  {
    var listA, listB := [(2, "new"), (9, "z")], [(2, "old")];
    GreedyStep(listA, listB, 0, SameId);
    assert listB[..0] == [];
    assert listB[..1] == listB;
  }
}
