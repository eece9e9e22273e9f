# Lazy evaluation primitives, modelled in Dafny

This project models the lazy-evaluation library `src/index.ts`. The library has three parts:

- **Deferred values and short-circuit logic.** A thunk is a zero-argument function. `addLazy` defers an
  addition. `lazyFirst` forces only its first argument. `and` and `or` force their second operand only
  when the first one does not already decide the result.
- **The lazy linked list.** A lazy list is a closure. Forcing it yields either the end marker (`null`) or a
  pair of a head thunk and another lazy list. The combinators are `arrToList`, the infinite `range`, the
  bounded prefix `take`, `filter` with the `isEven` test, and the consumer `printList`.
- **Memoised Fibonacci.** `getFibo` reads and writes a module-level sparse array `memo`.

Files:

- `lazy.dfy` (module `Lazy`): thunks (`Thunk<T> = () -> T`), `AddLazy`, `LazyFirst`, `And`, `Or`. Dafny
  functions are pure and total. So "the second operand is never invoked" is stated as "the result is the
  same whatever the second operand is".
- `lazy_lists.dfy` (module `LazyLists`): the lazy list type and what a consumer can observe of it.
  - A closure is written out explicitly as `LazyList(env, step)`. `env` is the state the closure captured
    and `step` is its code. Forcing the list is `step(env)`. The helper `Force` wraps the tail environment
    of the resulting cell back into a lazy list with the same code, as the source's `tail` is again a closure.
  - Forcing yields a `Cell`: `Nil`, or `Cons(head, tail)` where `head` is a thunk and `tail` is the
    environment of the next closure. So an infinite list such as a range is a finite value.
  - `step` may be partial. Where its precondition fails, forcing does not terminate in the source.
  - `Forceable(l, k)`: the first `k` forcings of a walk terminate.
  - `Prefix(k, l)`: the heads that walk sees.
  - `HasLength(l, n)`: `n + 1` forcings reach the end.
- `list_combinators.dfy` (module `ListCombinators`): the list combinators and their properties.
  - `filter`'s skip branch is not guarded: on a failing head it forces the filtered tail directly.
  - This is modelled by `Search`, which recurses on the tail. It terminates on the least number of cells
    (`Distance`) that are skipped before a passing head or the end of the list.
  - The filtered list's step is defined exactly where such a point is reachable (`MatchAhead`). Filtering
    an infinite list with no match ahead therefore diverges, as it does in the source.
  - `FilterSeq` is the reference filter on finite sequences.
  - `TruncRemTwo` models JavaScript's truncating `%` by two. Dafny's `%` is Euclidean, so the two are
    related explicitly.
- `fibonacci.dfy` (module `Fibonacci`): class `Memo` holds the sparse array as a `map<int, int>`, starting as
  `{0: 1}`. `GetFibo` is a recursive method that `modifies` it. `Valid()` is the table invariant: every entry
  at an index of 2 or more holds the Fibonacci number of that index.

A thunk's value is computed again at every forcing (nothing is cached), exactly as in the source. Forcing the
same list twice therefore gives the same cell by purity.

## Model

| member | source | states |
|---|---|---|
| Lazy.AddLazy | src/index.ts:6-12 | forcing the result gives the eager sum `add(a(), b())` |
| Lazy.LazyFirst | src/index.ts:20-22 | forcing the result gives `a()` |
| Lazy.LazyFirstIgnoresSecond | src/index.ts:20-24 | the result is the same for every second argument, so a diverging one is harmless |
| Lazy.And | src/index.ts:27-29 | the result is `a() && b()`; it is false whenever `a()` is false, and equals `b()` when `a()` is true |
| Lazy.AndIgnoresSecond | src/index.ts:27-29 | when `a()` is false, any two second operands give the same result, `false` |
| Lazy.Or | src/index.ts:31-33 | the result is `a()` or `b()`; it is true whenever `a()` is true, and equals `b()` when `a()` is false |
| Lazy.OrIgnoresSecond | src/index.ts:31-33 | when `a()` is true, any two second operands give the same result, `true` |
| LazyLists.Prefix | src/index.ts:57-60 | a walk of at most k forcings sees at most k heads |
| LazyLists.PrefixOfPrefix | src/index.ts:57-60 | a shorter walk of a list also terminates and sees a prefix of what a longer walk sees |
| LazyLists.ShortWalkEnds | src/index.ts:57-60 | a walk that sees fewer heads than its bound has hit the end: the list is finite with that length |
| LazyLists.LengthUnique | src/index.ts:57-60 | a lazy list has at most one length |
| ListCombinators.ArrToList | src/index.ts:63-74 | forcing always terminates; it is the end exactly for the empty array, else the head is `arr[0]` |
| ListCombinators.ArrToListPrefix | src/index.ts:63-74 | k forcings always terminate and see the first min(k, length of `arr`) elements of `arr` in order |
| ListCombinators.ArrToListContents | src/index.ts:63-78 | the list has exactly as many cells as `arr` has elements, holding the elements of `arr` in order, and then ends |
| ListCombinators.Range | src/index.ts:93-101 | forcing terminates, never yields the end, and the head is `begin()` |
| ListCombinators.RangePrefix | src/index.ts:93-101 | any k forcings terminate and see `begin() + 0, ..., begin() + k - 1` |
| ListCombinators.RangeEndless | src/index.ts:93-101 | a range never forces to the end |
| ListCombinators.Take | src/index.ts:120-134 | forcing needs one forcing of the list; the result is the end exactly when `n <= 0` or the list ended, otherwise it has the list's own head thunk |
| ListCombinators.TakePrefix | src/index.ts:120-134 | k forcings of `take(n, l)` need only k forcings of `l` and see the first max(n, 0) of the elements that walk sees |
| ListCombinators.TakeBounded | src/index.ts:120-137 | given max(n, 0) + 1 terminating forcings of `l`, any number of forcings of `take(n, l)` terminate and see at most max(n, 0) elements, even on an infinite `l` |
| ListCombinators.TakeFinite | src/index.ts:120-137 | `take(n, l)` is a finite list of at most max(n, 0) elements |
| ListCombinators.Search | src/index.ts:143-153 | the skip loop of one filter forcing terminates where a match or the end is reachable, and a cell it returns has a passing head |
| ListCombinators.Filter | src/index.ts:142-160 | on an empty list the filtered list is empty, whatever the predicate; where a match or the end is reachable, forcing terminates and any head has a passing value |
| ListCombinators.FilterSeq | src/index.ts:142-160 | the reference filter keeps only passing elements and never grows the sequence |
| ListCombinators.FilterPrefix | src/index.ts:142-160 | if m forcings of `l` see `xs`, the filter can be forced once per passing element of `xs`, and that walk sees exactly the passing elements of `xs` in order |
| ListCombinators.FiniteListMatchWithin | src/index.ts:143-153 | on a list of n cells, the filter's skip search ends within n cells, at a passing head or the end |
| ListCombinators.FilterFinite | src/index.ts:142-160 | filtering a finite list gives a finite list holding exactly its passing elements in order, then the end |
| ListCombinators.EvensOfSmallArray | src/index.ts:142-162 | filtering `arrToList([1, 2, 3, 4])` for even numbers yields 2 and 4, then the end |
| ListCombinators.TruncRemTwo | src/index.ts:162 | JavaScript's truncated `num % 2` equals Dafny's Euclidean remainder, minus 2 for an odd negative `num` |
| ListCombinators.IsEven | src/index.ts:162 | `isEven(num)` holds exactly when `num` is divisible by two, negative numbers included |
| ListCombinators.EvensOfOddRun | src/index.ts:162-164 | among 2j consecutive integers from an odd `c`, the even ones are c + 1, c + 3, ... |
| ListCombinators.EvensOfOddRange | src/index.ts:142-171 | `take(n, filter(isEven, range(c)))` for odd `c` has exactly n cells, c + 1, c + 3, ..., c + 2n - 1 |
| ListCombinators.TenEvensFromThree | src/index.ts:162-171 | the ten even numbers taken from `range(3)` are 4, 6, ..., 22, and the list then ends |
| ListCombinators.PrintList | src/index.ts:80-86 | on a finite list the loop emits the heads in list order and stops exactly when the tail forces to the end |
| ListCombinators.PrintedArray | src/index.ts:80-91 | walking `arrToList(arr)` to its end emits exactly `arr` |
| Fibonacci.Memo.constructor | src/index.ts:104 | the table starts with the single entry 1 at index 0 and satisfies the table invariant |
| Fibonacci.Memo.GetFibo | src/index.ts:106-117 | for `nth >= 0` the result is Fib(nth); `nth < 2` is returned unchanged without touching the table (so `memo[0] = 1` is never read); the invariant is kept; old entries stay; new entries lie in [2, nth], and `memo[nth]` holds the result |

## Left out

- All top-level demonstration output and the `console.log(memo)` trace inside `getFibo` (src/index.ts:24, 37-47, 50, 76-78, 89-91, 107, 136-137, 170-171): I/O with no logic. `printList` returns the emitted heads instead of printing them.
- `getInfinityLoop` (src/index.ts:14-16) exists only to diverge. "The second operand diverges" is covered by quantifying over every second operand.
- Floating-point `number`: the model uses unbounded `int`, while the program computes with doubles. Results agree only while every value stays below 2^53. Addition beyond that rounds: `getFibo(79)` returns 14472334024676220, not Fib(79) = 14472334024676221, and `getFibo(1477)` returns `Infinity`. Likewise a range stops ascending at 2^53, because `2^53 + 1` rounds to `2^53`.
- Fibonacci.Memo.GetFibo: `r == Fib(nth)` matches the program only up to `nth = 78`, the last index whose Fibonacci number (and every sum on the way) is below 2^53. Double rounding is not modelled.
- ListCombinators.RangePrefix: the k-th head `begin() + k` matches the program only while that value stays below 2^53 in magnitude. Double rounding is not modelled.
- Closure allocation, garbage collection, call-stack depth and how many times a thunk is invoked. Pure Dafny functions do not observe these. This includes the stack growth of `filter`'s direct-recursive skip.
- Divergence is never proved. The model proves that forcings terminate where the source's do, but no lemma shows that a forcing diverges (for example `printList` on a range, or `filter` with no match ahead). Dafny's precondition of a function value is only known from below.
- ListCombinators.Take: states that forcing it terminates when one forcing of the list does. It does not state the converse, that `take` diverges when the list's first forcing diverges (even for `n <= 0`).
- ListCombinators.Filter: the passing-head guarantee is stated only where a match or the end is reachable (`MatchAhead`), not for every forcing the step's precondition admits.
- ListCombinators.FilterPrefix: on an infinite input it describes the filtered walk produced by a given walk of the input. It does not state the converse, that every walk of the filtered list arises this way. That would need the step's precondition from above, which Dafny does not provide. The finite case is stated in full by FilterFinite.
