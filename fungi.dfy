/**
  A model of the sequence combinators of the `fungi` package.

  Every combinator is a method with a single forward loop over the input
  sequence, as in the package, and is proved against a pure reference
  definition: an index-aware map, filter, left fold, "all"/"any" predicate,
  or the least index at which a predicate holds.

  A Go `error` is a value of the type parameter `E`; a nil error is `Nil`
  and a non-nil one is `Err(e)`.  Callbacks are total Dafny functions of
  the index and the element.  The ghost out-parameters named `calls` or
  `invoked` are incremented next to every callback (or step) evaluation, and
  the loop invariant `calls == i` ties them to the loop index, so a method
  that evaluated a callback past the point where it stops could not meet its
  `ensures`.
 */
module Fungi {

  /** A Go `error` value: `Nil` for nil, `Err(e)` for a non-nil error `e`. */
  datatype Error<+E> = Nil | Err(error: E)

  // ---------------------------------------------------------------------------
  // Shared reference definitions
  // ---------------------------------------------------------------------------

  /** The predicate that holds exactly where `p` does not. */
  function Negate<T>(p: (int, T) -> bool): (q: (int, T) -> bool)
  {
    (i: int, x: T) => !p(i, x)
  }

  /** The predicate "the callback reports an error at (i, x)". */
  function Fails<T, E>(callback: (int, T) -> Error<E>): (q: (int, T) -> bool)
  {
    (i: int, x: T) => callback(i, x).Err?
  }

  /** The least index `k >= from` with `p(k, s[k])`, or `|s|` when there is none. */
  function FirstFrom<T>(s: seq<T>, p: (int, T) -> bool, from: nat): (k: nat)
    requires from <= |s|
    ensures from <= k <= |s|
    ensures forall j :: from <= j < k ==> !p(j, s[j])
    ensures k < |s| ==> p(k, s[k])
    decreases |s| - from
  {
    if from == |s| then |s|
    else if p(from, s[from]) then from
    else FirstFrom(s, p, from + 1)
  }

  /** The least index `k` with `p(k, s[k])`, or `|s|` when no index satisfies `p`. */
  function FirstIndex<T>(s: seq<T>, p: (int, T) -> bool): (k: nat)
    ensures k <= |s|
    ensures forall j :: 0 <= j < k ==> !p(j, s[j])
    ensures k < |s| ==> p(k, s[k])
    ensures k == |s| <==> forall j :: 0 <= j < |s| ==> !p(j, s[j])
  {
    FirstFrom(s, p, 0)
  }

  // ---------------------------------------------------------------------------
  // Process
  // ---------------------------------------------------------------------------

  /**
    Runs the steps in order and stops at the first one that fails.
    `outcomes[j]` is what step `j` returns when it is invoked.  The result is
    the first error in list order, or `Nil`; `invoked` steps were run, and
    no step after the first failing one.
   */
  method Process<E>(outcomes: seq<Error<E>>) returns (err: Error<E>, ghost invoked: nat)
    ensures var k := FirstIndex(outcomes, (i: int, o: Error<E>) => o.Err?);
      && err == (if k < |outcomes| then outcomes[k] else Nil)
      && invoked == (if k < |outcomes| then k + 1 else |outcomes|)
    ensures err.Nil? <==> forall j :: 0 <= j < |outcomes| ==> outcomes[j].Nil?
  {
    invoked := 0;
    for i := 0 to |outcomes|
      invariant invoked == i
      invariant forall j :: 0 <= j < i ==> outcomes[j].Nil?
    {
      var e := outcomes[i];
      invoked := invoked + 1;
      if e.Err? {
        return e, invoked;
      }
    }
    return Nil, invoked;
  }

  // ---------------------------------------------------------------------------
  // Iter
  // ---------------------------------------------------------------------------

  /**
    Calls `callback(i, s[i])` for i = 0, 1, ... and stops at the first error,
    which it returns; `Nil` when every call succeeds.
   */
  method Iter<T, E>(s: seq<T>, callback: (int, T) -> Error<E>) returns (err: Error<E>, ghost calls: nat)
    ensures var k := FirstIndex(s, Fails(callback));
      && err == (if k < |s| then callback(k, s[k]) else Nil)
      && calls == (if k < |s| then k + 1 else |s|)
    ensures err.Nil? <==> forall j :: 0 <= j < |s| ==> callback(j, s[j]).Nil?
  {
    calls := 0;
    for i := 0 to |s|
      invariant calls == i
      invariant forall j :: 0 <= j < i ==> callback(j, s[j]).Nil?
    {
      var e := callback(i, s[i]);
      calls := calls + 1;
      if e.Err? {
        return e, calls;
      }
    }
    return Nil, calls;
  }

  // ---------------------------------------------------------------------------
  // Map
  // ---------------------------------------------------------------------------

  /** The index-aware map of `s` by `f`, defined on ever longer prefixes. */
  function Mapped<T, U>(s: seq<T>, f: (int, T) -> U): (r: seq<U>)
    ensures |r| == |s|
    ensures forall i :: 0 <= i < |s| ==> r[i] == f(i, s[i])
  {
    if s == [] then []
    else
      var n := |s| - 1;
      Mapped(s[..n], f) + [f(n, s[n])]
  }

  /** Mapping the identity gives back the input. */
  lemma MapIdentity<T>(s: seq<T>)
    ensures Mapped(s, (i: int, x: T) => x) == s
  {
  }

  /**
    Fills a freshly allocated, zero-initialised array of length `|s|` by
    index with `transform(i, s[i])`.
   */
  method Map<T, U(0)>(s: seq<T>, transform: (int, T) -> U) returns (r: seq<U>)
    ensures r == Mapped(s, transform)
  {
    var result := new U[|s|];
    for i := 0 to |s|
      invariant forall j :: 0 <= j < i ==> result[j] == transform(j, s[j])
    {
      result[i] := transform(i, s[i]);
    }
    r := result[..];
  }

  // ---------------------------------------------------------------------------
  // Filter
  // ---------------------------------------------------------------------------

  /** The indices `i` of `s` with `p(i, s[i])`, in ascending order. */
  function Kept<T>(s: seq<T>, p: (int, T) -> bool): (idx: seq<nat>)
    ensures |idx| <= |s|
    ensures forall k :: 0 <= k < |idx| ==> idx[k] < |s| && p(idx[k], s[idx[k]])
    ensures forall k, l :: 0 <= k < l < |idx| ==> idx[k] < idx[l]
    ensures forall i :: 0 <= i < |s| && p(i, s[i]) ==> i in idx
  {
    if s == [] then []
    else
      var n := |s| - 1;
      Kept(s[..n], p) + (if p(n, s[n]) then [n] else [])
  }

  /**
    The elements `s[i]` with `p(i, s[i])`, in their original order: the
    element at position `k` of the result is `s[Kept(s, p)[k]]`.
   */
  function Filtered<T>(s: seq<T>, p: (int, T) -> bool): (r: seq<T>)
    ensures |r| == |Kept(s, p)| <= |s|
    ensures forall k :: 0 <= k < |r| ==> r[k] == s[Kept(s, p)[k]]
  {
    if s == [] then []
    else
      var n := |s| - 1;
      Filtered(s[..n], p) + (if p(n, s[n]) then [s[n]] else [])
  }

  /** Extending the input by one element extends the filter by that element or by nothing. */
  lemma FilteredSnoc<T>(s: seq<T>, x: T, p: (int, T) -> bool)
    ensures Filtered(s + [x], p) == Filtered(s, p) + (if p(|s|, x) then [x] else [])
  {
    assert (s + [x])[..|s|] == s;
  }

  /** Every element of `s` is either kept by `p` or kept by its negation. */
  lemma {:induction false} FilterPartition<T>(s: seq<T>, p: (int, T) -> bool)
    ensures |Filtered(s, p)| + |Filtered(s, Negate(p))| == |s|
  {
    if s != [] {
      FilterPartition(s[..|s| - 1], p);
    }
  }

  /** The filter is empty exactly when no index satisfies the predicate. */
  lemma FilterEmpty<T>(s: seq<T>, p: (int, T) -> bool)
    ensures Filtered(s, p) == [] <==> forall i :: 0 <= i < |s| ==> !p(i, s[i])
  {
    forall i | 0 <= i < |s| && p(i, s[i]) ensures Filtered(s, p) != [] {
      assert i in Kept(s, p);
    }
  }

  /** The indices `i` of `s` with `p(i, s[i])`, as a set. */
  function Satisfying<T>(s: seq<T>, p: (int, T) -> bool): (indices: set<int>)
  {
    set i | 0 <= i < |s| && p(i, s[i])
  }

  /** Appending one element adds its index to the satisfying set, or nothing. */
  lemma SatisfyingSnoc<T>(s: seq<T>, p: (int, T) -> bool)
    requires s != []
    ensures var n := |s| - 1;
      |Satisfying(s, p)| == |Satisfying(s[..n], p)| + (if p(n, s[n]) then 1 else 0)
  {
    var n := |s| - 1;
    var before := Satisfying(s[..n], p);
    assert n !in before;
    if p(n, s[n]) {
      assert Satisfying(s, p) == before + {n};
    } else {
      assert Satisfying(s, p) == before;
    }
  }

  /** The number of kept elements is the number of indices that satisfy the predicate. */
  lemma {:induction false} FilterCount<T>(s: seq<T>, p: (int, T) -> bool)
    ensures |Filtered(s, p)| == |Satisfying(s, p)|
  {
    if s != [] {
      FilterCount(s[..|s| - 1], p);
      SatisfyingSnoc(s, p);
    }
  }

  /** Keeps, in order, the elements for which `pred(i, s[i])` holds. */
  method Filter<T>(s: seq<T>, pred: (int, T) -> bool) returns (r: seq<T>)
    ensures r == Filtered(s, pred)
  {
    r := [];
    for i := 0 to |s|
      invariant r == Filtered(s[..i], pred)
    {
      assert s[..i + 1][..i] == s[..i];
      if pred(i, s[i]) {
        r := r + [s[i]];
      }
    }
    assert s[..|s|] == s;
  }

  // ---------------------------------------------------------------------------
  // Reduce
  // ---------------------------------------------------------------------------

  /**
    The left fold: acc_0 = initial and acc_{i+1} = f(i, acc_i, s[i]); the
    value is acc_{|s|}.
   */
  function Folded<T, U>(s: seq<T>, initial: U, f: (int, U, T) -> U): (acc: U)
  {
    if s == [] then initial
    else
      var n := |s| - 1;
      f(n, Folded(s[..n], initial, f), s[n])
  }

  /** Counting the elements with a fold gives the length. */
  lemma {:induction false} FoldCount<T>(s: seq<T>)
    ensures Folded(s, 0, (i: int, acc: int, x: T) => acc + 1) == |s|
  {
    if s != [] {
      FoldCount(s[..|s| - 1]);
    }
  }

  /** Folds `s` from the left, starting with `initial`. */
  method Reduce<T, U>(s: seq<T>, initial: U, reducer: (int, U, T) -> U) returns (acc: U)
    ensures acc == Folded(s, initial, reducer)
    ensures s == [] ==> acc == initial
  {
    acc := initial;
    for i := 0 to |s|
      invariant acc == Folded(s[..i], initial, reducer)
    {
      assert s[..i + 1][..i] == s[..i];
      acc := reducer(i, acc, s[i]);
    }
    assert s[..|s|] == s;
  }

  // ---------------------------------------------------------------------------
  // Find
  // ---------------------------------------------------------------------------

  /**
    The first element `s[k]` with `pred(k, s[k])`, paired with `true`;
    `zero` and `false` when no element matches.  No element after the match
    is examined.
   */
  method Find<T>(s: seq<T>, pred: (int, T) -> bool, zero: T)
    returns (item: T, found: bool, ghost calls: nat)
    ensures var k := FirstIndex(s, pred);
      && found == (k < |s|)
      && item == (if found then s[k] else zero)
      && calls == (if found then k + 1 else |s|)
    ensures found <==> exists i :: 0 <= i < |s| && pred(i, s[i])
  {
    calls := 0;
    for i := 0 to |s|
      invariant calls == i
      invariant forall j :: 0 <= j < i ==> !pred(j, s[j])
    {
      var hit := pred(i, s[i]);
      calls := calls + 1;
      if hit {
        return s[i], true, calls;
      }
    }
    return zero, false, calls;
  }

  // ---------------------------------------------------------------------------
  // Every and Some
  // ---------------------------------------------------------------------------

  /** `p(i, s[i])` holds at every index. */
  predicate All<T>(s: seq<T>, p: (int, T) -> bool)
  {
    s == [] || (All(s[..|s| - 1], p) && p(|s| - 1, s[|s| - 1]))
  }

  /** `p(i, s[i])` holds at some index. */
  predicate Any<T>(s: seq<T>, p: (int, T) -> bool)
  {
    s != [] && (Any(s[..|s| - 1], p) || p(|s| - 1, s[|s| - 1]))
  }

  lemma {:induction false} AllAt<T>(s: seq<T>, p: (int, T) -> bool)
    ensures All(s, p) <==> forall i :: 0 <= i < |s| ==> p(i, s[i])
  {
    if s != [] {
      var n := |s| - 1;
      AllAt(s[..n], p);
      assert forall i :: 0 <= i < n ==> s[..n][i] == s[i];
    }
  }

  lemma {:induction false} AnyAt<T>(s: seq<T>, p: (int, T) -> bool)
    ensures Any(s, p) <==> exists i :: 0 <= i < |s| && p(i, s[i])
  {
    if s != [] {
      var n := |s| - 1;
      AnyAt(s[..n], p);
      assert forall i :: 0 <= i < n ==> s[..n][i] == s[i];
    }
  }

  /** De Morgan: every index satisfies `p` iff no index satisfies its negation. */
  lemma {:induction false} AllIsNotAnyNegated<T>(s: seq<T>, p: (int, T) -> bool)
    ensures All(s, p) == !Any(s, Negate(p))
  {
    if s != [] {
      AllIsNotAnyNegated(s[..|s| - 1], p);
    }
  }

  /**
    Whether `pred(i, s[i])` holds for every `i`; stops at the first
    index where it fails.
   */
  method Every<T>(s: seq<T>, pred: (int, T) -> bool) returns (r: bool, ghost calls: nat)
    ensures r == All(s, pred)
    ensures r <==> forall i :: 0 <= i < |s| ==> pred(i, s[i])
    ensures var k := FirstIndex(s, Negate(pred));
      calls == (if r then |s| else k + 1)
  {
    AllAt(s, pred);
    calls := 0;
    for i := 0 to |s|
      invariant calls == i
      invariant forall j :: 0 <= j < i ==> pred(j, s[j])
    {
      var holds := pred(i, s[i]);
      calls := calls + 1;
      if !holds {
        return false, calls;
      }
    }
    return true, calls;
  }

  /**
    Whether `pred(i, s[i])` holds for some `i`; stops at the first
    index where it holds.
   */
  method Some<T>(s: seq<T>, pred: (int, T) -> bool) returns (r: bool, ghost calls: nat)
    ensures r == Any(s, pred)
    ensures r <==> exists i :: 0 <= i < |s| && pred(i, s[i])
    ensures var k := FirstIndex(s, pred);
      calls == (if r then k + 1 else |s|)
  {
    AnyAt(s, pred);
    calls := 0;
    for i := 0 to |s|
      invariant calls == i
      invariant forall j :: 0 <= j < i ==> !pred(j, s[j])
    {
      var holds := pred(i, s[i]);
      calls := calls + 1;
      if holds {
        return true, calls;
      }
    }
    return false, calls;
  }
}
