# ABC templates: the `Sequence` adapter

The repository uses C++ templates to imitate Python's abstract base classes.
Marker classes (`Sized`, `ConstIterable`, `MutIterable`, `Iterable`,
`Container`, `Clonable`) check at compile time that a type has certain
member functions. `Sequence<T, U>` builds on them. It keeps a pointer `m_obj`
to the container it adapts. From that container's `Size()`, `operator[]` and
`begin()`/`end()`, it derives three operations that only read:

- `Contains(value)`, through `std::any_of` over the iteration range;
- `index(value)`, a scan of `operator[]` for indices below `Size()` that
  returns the first match or -1;
- `count(value)`, one iterator traversal that counts the matches.

The adapter exists twice: in `src/abc.h`, inside `namespace ABC`, and in the
root `abc.h` with no namespace and a non-virtual destructor. The constructor
and the three operations are the same code in both copies
(`src/abc.h:175-223` and `abc.h:155-203`). The model describes them once, and
the table cites `src/abc.h`.

Module `ABC` (`abc.dfy`) contains:

- `Candidate<U>`: the surface a candidate type `T` exposes. It has three
  views: `size` is what `Size()` returns, `items` is what `operator[]` returns,
  and `range` is what `begin()`..`end()` visits. A generic `T` can implement
  these independently. The adapter assumes they agree, but the source never
  checks it. The model keeps the views separate and states the assumption as
  `Consistent()`.
- `Sequence<U>`: the adapter. `obj` is `m_obj`. Its type excludes null, and it
  is a `const` field, so it is never reseated. `Contains` is a function.
  `Index` and `Count` are methods with the source's loops. None of the three
  has a `modifies` clause, so Dafny checks that they change neither the
  container nor the adapter. In C++, `const` on these operations only keeps
  `m_obj` from being reseated. `m_obj` is a plain `T*`, so the calls through
  it reach T's non-const `begin()`/`end()` and `operator[]` when T has them.
  The model assumes those calls have no side effects (see "## Left out").
- `AnyOf` (`std::any_of`), `FirstIndex` (the intended meaning of `index`) and
  `ToInt32` (the `size_t` to `int` conversion at `return i`).

Module `Example` (`example.dfy`) replays the demonstration client on the
vector `0, 1, ..., 9, 6`. It makes the client's three queries, and then
asks for 42, a value the vector does not contain.

## Model

| member | source | states |
|---|---|---|
| `ABC.ToInt32` | src/abc.h:200-204 | The result is the one 32-bit `int` congruent to the argument modulo 2^32. Every value already in `int` range is unchanged. |
| `ABC.AnyOf` | src/abc.h:190-194 | `std::any_of` with a predicate is true iff the predicate holds for some element of the traversed range. |
| `ABC.FirstIndex` | src/abc.h:197-208 | The intended result of `index`. It is -1 iff the value is absent. Otherwise it is a valid position that holds the value, and no earlier position holds it. |
| `ABC.FirstIndexUnique` | src/abc.h:201-204 | A position that holds the value, with no earlier position holding it, is the first index. So the scan's early return gives exactly `FirstIndex`. |
| `ABC.Candidate.FromVector` | src/main.cpp:54-74 | A list backed by one vector has all three views (`Size()`, `operator[]`, `begin()..end()`) equal to that vector, so it is `Consistent()`. |
| `ABC.Sequence.constructor` | src/abc.h:175-179 | Construction requires a non-null `childobj` and stores that handle. The field is constant afterwards, so it is never reseated. |
| `ABC.Sequence.Contains` | src/abc.h:186-195 | True iff some element of the iteration range equals the value. Reads only the container. |
| `ABC.Sequence.Index` | src/abc.h:197-208 | The result is the first index of the value among the `Size()` indexed elements, narrowed to 32-bit `int`, or -1. When `Size() <= INT_MAX`, the result is -1 iff no index below `Size()` holds the value. A result other than -1 is in bounds, holds the value, and has no earlier match. For a consistent container, -1 also means `!Contains`. No `modifies` clause. |
| `ABC.Sequence.Count` | src/abc.h:210-223 | The result is the multiplicity of the value in the iteration range. It is at most the range length, and at most `Size()` for a consistent container. It is 0 iff `!Contains(value)`. No `modifies` clause. |
| `ABC.Sequence.Agreement` | src/abc.h:189-223 | If the iteration range equals the indexed elements, then no first index, zero occurrences and `!Contains` are the same condition, and the first index points into the range at the value. |
| `ABC.IndexNarrowingLosesMatch` | src/abc.h:200-204 | For 2^32 elements whose only `1` is the last, `1` is present, its first index is 2^32 - 1, and narrowing that index to `int` gives -1. |
| `Example.ExampleClient` | src/main.cpp:84-98 | For the list `0..9, 6`: `Size()` is 11, `Contains(5)` holds, `index(4)` is 4, and `count(6)` is 2. For 42, which is absent, `index` is -1 and `count` is 0. |

## Left out

- The marker classes `Clonable`, `Sized`, `ConstIterable`, `MutIterable`, `Iterable` and `Container`, each `ValidateRequirements`, and the destructors that assert them: they only take member-function pointers, so the compiler checks the signatures. Their assertions always return true at run time. `Candidate` stands for the surface they require.
- `Clone`: no adapter operation uses it. Mutable iteration as a capability of its own is left out too. Where the adapter's calls reach T's non-const `begin()/end()`, the side-effect line below covers it.
- Virtual dispatch and overriding `Contains`: only the default body is modelled.
- The source passes `this` to the adapter, so the adapter and the container are one object there. The model uses two objects linked by `obj`, which follows the non-owning-handle reading.
- `size_t` width: `Size()`, the loop counter and `count`'s accumulator are `nat`. None of them can wrap: the counter stays below `Size()`, and the count stays at or below the number of elements traversed. Only the narrowing in `index`'s `int` result is modelled.
- `ABC.Sequence.constructor`: the null check is an `assert`, which disappears under `NDEBUG`. The model treats it as a precondition, so a null handle in a release build (undefined behaviour later) is not modelled.
- `ABC.Sequence.Index`: requires `operator[]` to be defined for every index below `Size()` (`Indexable()`). In the source, a container that falls short of this is undefined behaviour only once the scan reaches an index `operator[]` does not define. An earlier match returns normally, and the model does not cover that case.
- Side effects of the candidate's surface: `m_obj` is a non-const `T*`, so `Contains`, `index` and `count` call T's non-const `begin()`/`end()` and `operator[]` whenever T declares them, as every `MutIterable` type must. The model assumes that `Size()`, `operator[]` and `begin()/end()` change nothing, for example no copy-on-write detaching. It also assumes that the non-const iterators visit the same elements as the const ones (`range`).
- Element equality: the source compares elements with U's own `operator==`, which need not be reflexive. The model uses mathematical equality on `U`. So a type whose `operator==` is not an equivalence is not modelled: for `double`, `Contains(NaN)` on `[NaN]` is false in the source but true here, and `count` is 0 there but 1 here.
- Mutation of the container by other code while an operation runs: the model is sequential.
- The printing in `src/main.cpp` and `main.cpp`: only the client's data and queries appear, in `ExampleClient`.

## Findings

| source | as written | input that shows it | evidently intended | confidence | as-written member | corrected member |
|---|---|---|---|---|---|---|
| src/abc.h:200-204 (also abc.h:180-184) | `int index` returns the `size_t` counter `i`, so positions at or above 2^31 are narrowed to 32-bit `int` | a container of 2^32 elements whose only match is the last one: `index` returns -1, the not-found sentinel, although `Contains` is true; a match at position 2^31 gives a negative result that is not -1 | a signed result wide enough for every position, -1 only when the value is absent | medium (assumes 32-bit `int` and modulo conversion, which C++20 guarantees), not executed | `ABC.Sequence.Index`, `ABC.IndexNarrowingLosesMatch` | `ABC.FirstIndex` |
