/**
  Worked scenarios for the combinators: what a caller can conclude from
  their contracts alone about concrete inputs.
 */
module Scenarios {
  import opened Fungi

  /** The element is even; the index is ignored. */
  predicate IsEven(i: int, x: int)
  {
    x % 2 == 0
  }

  /** [1, 2, 3, 4] filtered by "is even" keeps 2 and 4. */
  method FilterEvenNumbers()
  {
    var s := [1, 2, 3, 4];
    FilteredSnoc([], 1, IsEven);
    FilteredSnoc([1], 2, IsEven);
    FilteredSnoc([1, 2], 3, IsEven);
    FilteredSnoc([1, 2, 3], 4, IsEven);
    var kept := Filter(s, IsEven);
    assert kept == [2, 4];
  }

  /** The first even number of [1, 2, 3, 4] is 2, found at the second call. */
  method FindEvenNumber()
  {
    var s := [1, 2, 3, 4];
    var item, found, calls := Find(s, IsEven, 0);
    assert found && item == 2 && calls == 2;
  }

  /** [1, 2, 3, 4] is not all even (the first call fails) but holds an even number. */
  method EveryAndSomeEvenNumbers()
  {
    var s := [1, 2, 3, 4];
    var all, allCalls := Every(s, IsEven);
    assert !all && allCalls == 1;
    var any, anyCalls := Some(s, IsEven);
    assert any && anyCalls == 2;
  }

  /** The empty sequence with any predicate. */
  method EmptyInput(p: (int, int) -> bool)
  {
    var s: seq<int> := [];

    var all, _ := Every(s, p);
    assert all;

    var any, _ := Some(s, p);
    assert !any;

    var item, found, _ := Find(s, p, 0);
    assert !found && item == 0;

    var kept := Filter(s, p);
    assert kept == [];

    var total := Reduce(s, 7, (i: int, acc: int, x: int) => acc + x);
    assert total == 7;
  }

  /** Three steps of which the second fails: the third is never invoked. */
  method SecondStepFails<E>(e: E, third: Error<E>)
  {
    var steps := [Nil, Err(e), third];
    assert steps[0].Nil? && steps[1].Err?;
    var err, invoked := Process(steps);
    assert err == Err(e) && invoked == 2;
  }

  /** Counting with a fold gives the length, and mapping the identity changes nothing. */
  method CountAndCopy(s: seq<char>)
  {
    var n := Reduce(s, 0, (i: int, acc: int, x: char) => acc + 1);
    FoldCount(s);
    assert n == |s|;

    var copy := Map(s, (i: int, x: char) => x);
    MapIdentity(s);
    assert copy == s;
  }
}
