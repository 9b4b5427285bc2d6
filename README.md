# fungi — a verified model of its sequence combinators

`fungi` is a small Go package of generic, index-aware combinators over
slices: `Process` runs fallible steps until the first error, `Iter` does the
same with a callback per element, `Map`, `Filter` and `Reduce` transform,
select and fold, `Find` returns the first match with a found-flag, and
`Every` and `Some` are short-circuiting universal and existential tests.

This project models all eight in Dafny (`fungi.dfy`, module `Fungi`). Each one
is a method with a single forward loop, as in Go. The loop's invariants tie
the method to a pure reference definition:

- `Mapped`: an index-aware map.
- `Filtered` and `Kept`: a filter, and the ascending list of kept indices.
- `Folded`: a left fold.
- `All` and `Any`: recursive "every" and "some" predicates.
- `FirstIndex`: the least index at which a predicate holds.

Lemmas then prove what the package promises about those definitions.

Modelling choices:

- A Go `error` is `Error<E>`, where `Nil` is a nil error and `Err(e)` is a
  non-nil error. The error value `e` is only passed along, never inspected.
- Callbacks are total Dafny functions. `Map` takes `(int, T) -> U`. `Filter`,
  `Find`, `Every` and `Some` take `(int, T) -> bool`. `Reduce` takes
  `(int, U, T) -> U`. `Iter` takes `(int, T) -> Error<E>`.
- A `Process` step takes no arguments. It is modelled by the value it returns
  when invoked: `outcomes[j]` is step `j`'s result.
- Go does not return how many callbacks were made. Each short-circuiting
  method counts them in a ghost out-parameter (`invoked` or `calls`),
  incremented next to each callback or step evaluation and kept equal to the
  loop index by an invariant. The contracts fix this count at one past the
  stopping index. This is how "later steps or callbacks are not invoked" is
  stated.
- `Find`'s zero value is an explicit `zero: T` parameter.
- `Map` allocates a zero-initialised array (`U(0)`), as Go's `make` does, and
  fills it by index.

`scenarios.dfy` (module `Scenarios`) uses the contracts on concrete inputs:

- `[1, 2, 3, 4]` with "is even": `Filter` gives `[2, 4]`, `Find` gives
  `(2, true)` after two calls, `Every` is false after one call, and `Some`
  is true.
- An empty input: `Every` is true, `Some` is false, `Find` gives
  `(zero, false)`, `Filter` gives `[]`, and `Reduce` returns its initial value.
- Three steps where the second fails: `Process` returns that error and
  invokes two steps.

## Model

| member | source | states |
|---|---|---|
| `Fungi.FirstIndex` | fungi.go:62-67 | the result k is the least index with `p(k, s[k])`: no earlier index satisfies `p`, and k is `|s|` exactly when no index does |
| `Fungi.Process` | fungi.go:5-12 | returns the outcome of the first failing step in list order, or `Nil`. It is `Nil` iff every step returns nil. It invokes steps up to and including the first failing one, and none after it |
| `Fungi.Iter` | fungi.go:16-24 | calls the callback at indices 0, 1, … in order and returns the first error `callback(k, s[k])`. It makes no call after index k. It returns `Nil` iff every call returns nil, so an empty slice gives `Nil` |
| `Fungi.Mapped` | fungi.go:28-34 | the map has exactly `|s|` elements, and element i is `f(i, s[i])` |
| `Fungi.MapIdentity` | fungi.go:28-34 | mapping `(i, x) => x` gives back the input sequence |
| `Fungi.Map` | fungi.go:28-34 | the array filled by index equals the reference map `Mapped(s, transform)` |
| `Fungi.Kept` | fungi.go:38-46 | the kept indices are in range and strictly ascending. Each satisfies the predicate, and every satisfying index is among them |
| `Fungi.Filtered` | fungi.go:38-46 | the filter has one element per kept index: element k is `s[Kept(s, p)[k]]`. So order is preserved and the length is at most `|s|` |
| `Fungi.FilteredSnoc` | fungi.go:40-43 | one more input element `x` at index `|s|` appends `x` to the filter when the predicate holds at it, and leaves the filter unchanged otherwise |
| `Fungi.FilterPartition` | fungi.go:38-46 | the lengths of the filter by `p` and by its negation add up to `|s|` |
| `Fungi.FilterEmpty` | fungi.go:38-46 | the filter is empty iff no index satisfies the predicate; in particular for an empty input |
| `Fungi.FilterCount` | fungi.go:38-46 | the filter's length equals the number of indices that satisfy the predicate |
| `Fungi.Filter` | fungi.go:38-46 | appending the satisfying elements in order produces exactly `Filtered(s, pred)` |
| `Fungi.Folded` | fungi.go:50-56 | the reference left fold: `acc_0 = initial`, `acc_{i+1} = f(i, acc_i, s[i])` |
| `Fungi.FoldCount` | fungi.go:50-56 | the fold `(_, acc, _) => acc + 1` from 0 gives `|s|` |
| `Fungi.Reduce` | fungi.go:50-56 | the final accumulator is the left fold `acc_0 = initial`, `acc_{i+1} = reducer(i, acc_i, s[i])`. An empty slice gives `initial` |
| `Fungi.Find` | fungi.go:60-68 | returns `(s[k], true)` for the least matching index k and examines no later element. Otherwise it returns `(zero, false)` after examining all elements. `found` holds iff some element matches |
| `Fungi.All` | fungi.go:72-79 | the reference "every" predicate, defined on ever longer prefixes |
| `Fungi.Any` | fungi.go:83-90 | the reference "some" predicate, defined on ever longer prefixes |
| `Fungi.AllAt` | fungi.go:72-79 | the recursive `All(s, p)` holds iff `p(i, s[i])` holds at every index |
| `Fungi.AnyAt` | fungi.go:83-90 | the recursive `Any(s, p)` holds iff `p(i, s[i])` holds at some index |
| `Fungi.AllIsNotAnyNegated` | fungi.go:72-90 | De Morgan: `All(s, p)` equals `!Any(s, (i, x) => !p(i, x))` |
| `Fungi.Every` | fungi.go:72-79 | true iff the predicate holds at every index, so an empty slice gives true. On failure it stops right after the first failing index |
| `Fungi.Some` | fungi.go:83-90 | true iff the predicate holds at some index, so an empty slice gives false. On success it stops right after the first matching index |

## Left out

- Side effects of callbacks and steps. Only their returned values are
  modelled.
- A callback that writes into the input slice. Go's range loop reads each
  element when it reaches it (fungi.go:17, 30, 40, 52, 62, 73, 84), so such a
  write changes what later calls receive and what `Filter` and `Find` return.
  Here `s` is an immutable `seq`.
- Stateful callbacks. A Go closure's result may depend on state changed by
  its earlier calls. Here a callback's result depends only on the index and
  the element it is given.
- A step's result is listed in `outcomes` even when the step is never
  invoked. Such a listed value has no effect on the result.
- The identity and contents of Go `error` values. `E` is an opaque type
  parameter that is only propagated.
- Go's nil slice versus empty slice in `Filter` (fungi.go:39). Both are the
  empty `seq`.
- Go's implicit zero value in `Find` (fungi.go:61). It is an explicit
  parameter instead.
- Panics raised inside callbacks, and whether callbacks are safe to run
  concurrently. Both are outside the library's contract.
- Nil function values. Go panics when the loop reaches a call of a nil
  callback or a nil `Process` step (fungi.go:7, 18, 31, 41, 53, 63, 74, 85),
  and not before: `Iter` on an empty slice with a nil callback returns nil, and
  `Process(f1, nil)` with a failing `f1` returns `f1`'s error. Dafny arrow types
  are total and never null, so the model cannot express this.
- Slice capacity and the growth of `append` and `make`. The model speaks of
  contents only.
- Go's `int` (32 or 64 bits) for indices and for the count in `FoldCount`:
  `len(s)` always fits in `int`, so neither an index nor an `acc + 1` count
  up to `len(s)` overflows.
