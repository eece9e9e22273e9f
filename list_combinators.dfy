/** The combinators of the lazy linked list: construction from an array
    (`arrToList`), the infinite ascending range (`range`), the bounded prefix
    (`take`), the filter (`filter`), the even test used with it and the
    consumer that walks a list to its end (`printList`). */
module ListCombinators {
  import opened Lazy
  import opened LazyLists

  function Min(a: int, b: int): int { if a <= b then a else b }
  function Max(a: int, b: int): int { if a <= b then b else a }

  // ---------------------------------------------------------------- arrToList

  /** The code of an `arrToList` closure; its environment is the part of the
      array not yet walked. */
  function ArrStep<T>(): seq<T> -> Cell<T, seq<T>>
  {
    (rest: seq<T>) =>
      if |rest| == 0 then Nil
      else var head := rest[0]; Cons(() => head, rest[1..])
  }

  /** The lazy list of the elements of `arr`; nothing is walked until the
      list is forced. */
  function ArrToList<T>(arr: seq<T>): (l: LazyList<seq<T>, T>)
    ensures CanForce(l)
    ensures Force(l).Nil? <==> |arr| == 0
    ensures Force(l).Cons? ==> Force(l).head() == arr[0]
  {
    LazyList(arr, ArrStep())
  }

  /** Walking `ArrToList(arr)` k times sees the first k elements of `arr`
      (all of them once k exceeds its length). */
  lemma {:induction false} ArrToListPrefix<T>(arr: seq<T>, k: nat)
    ensures Forceable(ArrToList(arr), k)
    ensures Prefix(k, ArrToList(arr)) == arr[..Min(k, |arr|)]
    decreases k
  {
    if k > 0 && |arr| > 0 {
      assert Force(ArrToList(arr)) == Cons(() => arr[0], ArrToList(arr[1..]));
      ArrToListPrefix(arr[1..], k - 1);
      assert arr[..Min(k, |arr|)] == [arr[0]] + arr[1..][..Min(k - 1, |arr| - 1)];
    }
  }

  /** `ArrToList(arr)` holds exactly the elements of `arr` in order and then
      ends. */
  lemma ArrToListContents<T>(arr: seq<T>)
    ensures HasLength(ArrToList(arr), |arr|)
    ensures Prefix(|arr| + 1, ArrToList(arr)) == arr
  {
    ArrToListPrefix(arr, |arr| + 1);
  }

  // -------------------------------------------------------------------- range

  /** The code of a `range` closure: it forces the start thunk once, and the
      rest of the list starts from that value plus one. */
  function RangeStep(): (Thunk<int>) -> Cell<int, Thunk<int>>
  {
    (begin: Thunk<int>) =>
      var beginRes := begin();
      Cons(() => beginRes, () => beginRes + 1)
  }

  /** The infinite ascending list of integers starting at `begin()`. */
  function Range(begin: Thunk<int>): (l: LazyList<Thunk<int>, int>)
    ensures CanForce(l) && Force(l).Cons?
    ensures Force(l).head() == begin()
  {
    LazyList(begin, RangeStep())
  }

  /** Any number of forcings of a range terminate, and the k-th head is the
      start value plus k. */
  lemma {:induction false} RangePrefix(begin: Thunk<int>, k: nat)
    ensures Forceable(Range(begin), k)
    ensures Prefix(k, Range(begin)) == seq(k, i => begin() + i)
    decreases k
  {
    if k > 0 {
      var v := begin();
      var next: Thunk<int> := () => v + 1;
      assert Force(Range(begin)) == Cons(() => v, Range(next));
      RangePrefix(next, k - 1);
      assert Prefix(k, Range(begin)) == [v] + seq(k - 1, i => next() + i);
      assert [v] + seq(k - 1, i => v + 1 + i) == seq(k, i => begin() + i);
    }
  }

  /** A range never reaches the end of the list. */
  lemma RangeEndless(begin: Thunk<int>)
    ensures Endless(Range(begin))
  {
    forall k: nat
      ensures Forceable(Range(begin), k) && |Prefix(k, Range(begin))| == k
    {
      RangePrefix(begin, k);
    }
  }

  // --------------------------------------------------------------------- take

  /** The environment of a `take` closure: the bound thunk and the
      environment of the list being bounded. */
  datatype TakeEnv<S> = TakeEnv(num: Thunk<int>, rest: S)

  /** The code of a `take` closure. It forces the bound and the underlying
      list (the latter even when the bound is not positive) and keeps the
      cell, with the bound one less, only when the bound is positive and the
      underlying list has not ended. */
  function TakeStep<S, T>(step: S --> Cell<T, S>): TakeEnv<S> --> Cell<T, TakeEnv<S>>
  {
    (e: TakeEnv<S>) requires step.requires(e.rest) =>
      var num := e.num();
      var pair := step(e.rest);
      if num > 0 && pair.Cons? then Cons(pair.head, TakeEnv(() => num - 1, pair.tail))
      else Nil
  }

  /** The list of at most `numLazy()` first elements of `l`. */
  function Take<S, T>(numLazy: Thunk<int>, l: LazyList<S, T>): (r: LazyList<TakeEnv<S>, T>)
    ensures CanForce(l) ==> CanForce(r)
    ensures CanForce(l) ==> (Force(r).Nil? <==> numLazy() <= 0 || Force(l).Nil?)
    ensures CanForce(l) && Force(r).Cons? ==> Force(r).head == Force(l).head
  {
    LazyList(TakeEnv(numLazy, l.env), TakeStep(l.step))
  }

  /** Forcing `Take(n, l)` k times forces `l` at most k times and sees the
      first max(n, 0) of the elements that walk of `l` sees. */
  lemma {:induction false} TakePrefix<S, T>(n: Thunk<int>, l: LazyList<S, T>, k: nat)
    requires Forceable(l, k)
    ensures Forceable(Take(n, l), k)
    ensures Prefix(k, Take(n, l)) == Prefix(k, l)[..Min(|Prefix(k, l)|, Max(n(), 0))]
    decreases k
  {
    if k > 0 {
      var num := n();
      match Force(l)
      case Nil =>
      case Cons(h, t) =>
        if num > 0 {
          var m: Thunk<int> := () => num - 1;
          assert Force(Take(n, l)) == Cons(h, Take(m, t));
          TakePrefix(m, t, k - 1);
          var xs := Prefix(k - 1, t);
          assert Prefix(k, l) == [h()] + xs;
          assert Prefix(k, l)[..Min(|Prefix(k, l)|, num)] == [h()] + xs[..Min(|xs|, Max(num - 1, 0))];
        }
    }
  }

  /** However often `Take(n, l)` is forced, only the first max(n, 0) + 1
      forcings of `l` are needed, and at most max(n, 0) elements are seen:
      a bounded list is finite even when `l` is infinite. */
  lemma {:induction false} TakeBounded<S, T>(n: Thunk<int>, l: LazyList<S, T>, k: nat)
    requires Forceable(l, Max(n(), 0) + 1)
    ensures Forceable(Take(n, l), k)
    ensures |Prefix(k, Take(n, l))| <= Max(n(), 0)
    decreases k
  {
    if k > 0 {
      var num := n();
      match Force(l)
      case Nil =>
      case Cons(h, t) =>
        if num > 0 {
          var m: Thunk<int> := () => num - 1;
          assert Force(Take(n, l)) == Cons(h, Take(m, t));
          TakeBounded(m, t, k - 1);
        }
    }
  }

  /** A bounded list ends after at most max(n, 0) elements. */
  lemma TakeFinite<S, T>(n: Thunk<int>, l: LazyList<S, T>)
    requires Forceable(l, Max(n(), 0) + 1)
    ensures exists j: nat :: j <= Max(n(), 0) && HasLength(Take(n, l), j)
  {
    var k := Max(n(), 0) + 1;
    TakeBounded(n, l, k);
    ShortWalkEnds(Take(n, l), k);
  }

  // ------------------------------------------------------------------- filter

  /** Starting from environment `s`, at most `k` cells are skipped before a
      cell whose head satisfies `p`, or the end of the list, is reached, and
      all the forcings on the way terminate. */
  ghost predicate MatchWithin<S, T>(p: T -> bool, step: S --> Cell<T, S>, s: S, k: nat)
    decreases k
  {
    step.requires(s) &&
    match step(s)
    case Nil => true
    case Cons(h, t) => p(h()) || (k > 0 && MatchWithin(p, step, t, k - 1))
  }

  /** Forcing the filtered list from environment `s` terminates. */
  ghost predicate MatchAhead<S, T>(p: T -> bool, step: S --> Cell<T, S>, s: S)
  {
    exists k: nat :: MatchWithin(p, step, s, k)
  }

  /** The least number of cells skipped from `s`, searching upwards from `j`. */
  ghost function LeastFrom<S, T>(p: T -> bool, step: S --> Cell<T, S>, s: S, j: nat, k: nat): (d: nat)
    requires j <= k && MatchWithin(p, step, s, k)
    requires forall i: nat :: i < j ==> !MatchWithin(p, step, s, i)
    ensures MatchWithin(p, step, s, d)
    ensures forall i: nat :: i < d ==> !MatchWithin(p, step, s, i)
    decreases k - j
  {
    if MatchWithin(p, step, s, j) then j else LeastFrom(p, step, s, j + 1, k)
  }

  /** How many cells the filter skips from `s`: the measure that makes the
      skipping recursion terminate. */
  ghost function Distance<S, T>(p: T -> bool, step: S --> Cell<T, S>, s: S): (d: nat)
    requires MatchAhead(p, step, s)
    ensures MatchWithin(p, step, s, d)
    ensures forall i: nat :: i < d ==> !MatchWithin(p, step, s, i)
  {
    var k: nat :| MatchWithin(p, step, s, k);
    LeastFrom(p, step, s, 0, k)
  }

  /** One forcing of a filtered list: force the underlying list and skip
      cells whose head fails `p` by forcing the filter of the tail directly,
      until a passing cell or the end is found. */
  function Search<S, T>(p: T -> bool, step: S --> Cell<T, S>, s: S): (c: Cell<T, S>)
    requires MatchAhead(p, step, s)
    ensures c.Cons? ==> p(c.head())
    decreases Distance(p, step, s)
  {
    assert MatchWithin(p, step, s, Distance(p, step, s));
    match step(s)
    case Nil => Nil
    case Cons(h, t) =>
      if !p(h()) then
        assert MatchWithin(p, step, t, Distance(p, step, s) - 1);
        Search(p, step, t)
      else Cons(h, t)
  }

  /** The code of a `filter` closure: it is defined exactly where the search
      for the next passing cell terminates. */
  function FilterStep<S, T>(p: T -> bool, step: S --> Cell<T, S>): S --> Cell<T, S>
  {
    (s: S) requires MatchAhead(p, step, s) => Search(p, step, s)
  }

  /** The list of the elements of `l` that satisfy `p`. */
  function Filter<S, T>(p: T -> bool, l: LazyList<S, T>): (r: LazyList<S, T>)
    ensures CanForce(l) && Force(l).Nil? ==> CanForce(r) && Force(r).Nil?
    ensures MatchAhead(p, l.step, l.env) ==> CanForce(r) && (Force(r).Cons? ==> p(Force(r).head()))
  {
    assert CanForce(l) && Force(l).Nil? ==> MatchWithin(p, l.step, l.env, 0);
    LazyList(l.env, FilterStep(p, l.step))
  }

  /** The elements of `xs` that satisfy `p`, in order: the reference that
      filtering a walked prefix is compared with. */
  function FilterSeq<T>(p: T -> bool, xs: seq<T>): (ys: seq<T>)
    ensures |ys| <= |xs|
    ensures forall i :: 0 <= i < |ys| ==> p(ys[i])
  {
    if xs == [] then []
    else (if p(xs[0]) then [xs[0]] else []) + FilterSeq(p, xs[1..])
  }

  /** If `m` forcings of `l` terminate and see elements `xs`, then the filtered
      list can be forced as often as `xs` has passing elements, and that walk
      sees exactly those elements in their original order. */
  lemma {:induction false} FilterPrefix<S, T>(p: T -> bool, l: LazyList<S, T>, m: nat)
    requires Forceable(l, m)
    ensures Forceable(Filter(p, l), |FilterSeq(p, Prefix(m, l))|)
    ensures Prefix(|FilterSeq(p, Prefix(m, l))|, Filter(p, l)) == FilterSeq(p, Prefix(m, l))
    ensures |FilterSeq(p, Prefix(m, l))| > 0 ==> MatchAhead(p, l.step, l.env)
    decreases m
  {
    if m > 0 {
      match Force(l)
      case Nil =>
      case Cons(h, t) =>
        var xs := Prefix(m - 1, t);
        assert Prefix(m, l) == [h()] + xs;
        assert ([h()] + xs)[1..] == xs;
        var ys := FilterSeq(p, xs);
        FilterPrefix(p, t, m - 1);
        if p(h()) {
          assert MatchWithin(p, l.step, l.env, 0);
          assert Force(Filter(p, l)) == Cons(h, Filter(p, t));
          assert Prefix(m, l)[0] == h() && Prefix(m, l)[1..] == xs;
        } else if |ys| > 0 {
          var k: nat :| MatchWithin(p, l.step, t.env, k);
          assert MatchWithin(p, l.step, l.env, k + 1);
          assert Force(Filter(p, l)) == Force(Filter(p, t));
        }
    }
  }

  /** On a finite list of `n` cells, the search of the filter ends within
      `n` skipped cells: at a passing head or at the end. */
  lemma {:induction false} FiniteListMatchWithin<S, T>(p: T -> bool, l: LazyList<S, T>, n: nat)
    requires HasLength(l, n)
    ensures MatchWithin(p, l.step, l.env, n)
    decreases n
  {
    match Force(l)
    case Nil =>
    case Cons(h, t) =>
      assert Prefix(n + 1, l) == [h()] + Prefix(n, t);
      FiniteListMatchWithin(p, t, n - 1);
  }

  /** Filtering a finite list gives a finite list: exactly the passing
      elements of the list, in their original order, and then the end. */
  lemma {:induction false} FilterFinite<S, T>(p: T -> bool, l: LazyList<S, T>, n: nat)
    requires HasLength(l, n)
    ensures HasLength(Filter(p, l), |FilterSeq(p, Prefix(n + 1, l))|)
    ensures Prefix(|FilterSeq(p, Prefix(n + 1, l))| + 1, Filter(p, l)) == FilterSeq(p, Prefix(n + 1, l))
    decreases n
  {
    FiniteListMatchWithin(p, l, n);
    match Force(l)
    case Nil =>
      assert Prefix(n + 1, l) == [];
      assert Force(Filter(p, l)).Nil?;
    case Cons(h, t) =>
      var xs := Prefix(n, t);
      assert Prefix(n + 1, l) == [h()] + xs;
      assert ([h()] + xs)[1..] == xs;
      FiniteListMatchWithin(p, t, n - 1);
      FilterFinite(p, t, n - 1);
      var j := |FilterSeq(p, xs)|;
      if p(h()) {
        assert Force(Filter(p, l)) == Cons(h, Filter(p, t));
        assert Prefix(j + 2, Filter(p, l)) == [h()] + Prefix(j + 1, Filter(p, t));
      } else {
        assert Force(Filter(p, l)) == Force(Filter(p, t));
        assert Prefix(j + 1, Filter(p, l)) == Prefix(j + 1, Filter(p, t));
      }
  }

  /** Filtering the array [1, 2, 3, 4] for even numbers yields 2 and 4, and
      the filtered list then ends. */
  lemma EvensOfSmallArray()
    ensures HasLength(Filter(IsEven, ArrToList([1, 2, 3, 4])), 2)
    ensures Prefix(3, Filter(IsEven, ArrToList([1, 2, 3, 4]))) == [2, 4]
  {
    var arr := [1, 2, 3, 4];
    ArrToListContents(arr);
    FilterFinite(IsEven, ArrToList(arr), 4);
    assert FilterSeq(IsEven, arr) == [2, 4] by {
      FilterSeqCons(IsEven, 1, [2, 3, 4]);
      FilterSeqCons(IsEven, 2, [3, 4]);
      FilterSeqCons(IsEven, 3, [4]);
      FilterSeqCons(IsEven, 4, []);
      assert [1, 2, 3, 4] == [1] + [2, 3, 4] && [2, 3, 4] == [2] + [3, 4] && [3, 4] == [3] + [4] && [4] == [4] + [];
    }
  }

  // ------------------------------------------------------------------- isEven

  /** JavaScript's `x % 2`: the remainder of division by two truncated
      toward zero, so it takes the sign of the dividend (Dafny's own `%` is
      Euclidean and never negative). */
  function TruncRemTwo(a: int): (r: int)
    ensures a >= 0 || a % 2 == 0 ==> r == a % 2
    ensures a < 0 && a % 2 != 0 ==> r == a % 2 - 2
  {
    if a >= 0 then a % 2 else -((-a) % 2)
  }

  /** The even test used with `filter`. */
  function IsEven(num: int): (r: bool)
    ensures r <==> num % 2 == 0
  {
    TruncRemTwo(num) == 0
  }

  /** Bounding the even numbers of a range that starts at an odd number `c`
      to `n` elements gives the n even numbers after `c`, then the end. */
  lemma EvensOfOddRange(c: int, n: nat)
    requires c % 2 == 1
    ensures HasLength(Take(() => n, Filter(IsEven, Range(() => c))), n)
    ensures Prefix(n + 1, Take(() => n, Filter(IsEven, Range(() => c)))) == seq(n, i => c + 1 + 2 * i)
  {
    var r := Range(() => c);
    var f := Filter(IsEven, r);
    var m := 2 * (n + 1);
    RangePrefix(() => c, m);
    EvensOfOddRun(c, n + 1);
    FilterPrefix(IsEven, r, m);
    assert Forceable(f, n + 1) && Prefix(n + 1, f) == seq(n + 1, i => c + 1 + 2 * i);
    TakePrefix(() => n, f, n + 1);
    assert Prefix(n + 1, f)[..n] == seq(n, i => c + 1 + 2 * i);
  }

  /** Among 2j consecutive integers from an odd `c`, the even ones are
      c + 1, c + 3, ... */
  lemma {:induction false} EvensOfOddRun(c: int, j: nat)
    requires c % 2 == 1
    ensures FilterSeq(IsEven, seq(2 * j, i => c + i)) == seq(j, i => (c + 1) + 2 * i)
    decreases j
  {
    if j > 0 {
      var rest := seq(2 * j - 2, i => c + 2 + i);
      ConsecutiveSplit(c, 2 * j);
      assert !IsEven(c) && IsEven(c + 1) && (c + 2) % 2 == 1;
      FilterSeqCons(IsEven, c, [c + 1] + rest);
      FilterSeqCons(IsEven, c + 1, rest);
      EvensOfOddRun(c + 2, j - 1);
      StrideSplit(c + 1, j);
    }
  }

  /** Consecutive integers from `c` start with c and c + 1. */
  lemma ConsecutiveSplit(c: int, n: nat)
    requires n >= 2
    ensures seq(n, i => c + i) == [c] + ([c + 1] + seq(n - 2, i => c + 2 + i))
  {
  }

  /** Every other integer from `d` starts with d. */
  lemma StrideSplit(d: int, j: nat)
    requires j >= 1
    ensures seq(j, i => d + 2 * i) == [d] + seq(j - 1, i => d + 2 + 2 * i)
  {
  }

  /** Filtering a sequence with a first element decides that element and
      filters the rest. */
  lemma FilterSeqCons<T>(p: T -> bool, x: T, xs: seq<T>)
    ensures FilterSeq(p, [x] + xs) == (if p(x) then [x] else []) + FilterSeq(p, xs)
  {
    assert ([x] + xs)[1..] == xs;
  }

  /** The demonstration in the source: ten even numbers from a range
      starting at 3 are 4, 6, ..., 22. */
  lemma TenEvensFromThree()
    ensures HasLength(Take(() => 10, Filter(IsEven, Range(() => 3))), 10)
    ensures Prefix(11, Take(() => 10, Filter(IsEven, Range(() => 3)))) == [4, 6, 8, 10, 12, 14, 16, 18, 20, 22]
  {
    EvensOfOddRange(3, 10);
  }

  // ---------------------------------------------------------------- printList

  /** Walks a finite list to its end, emitting each head it forces; the
      emitted values are returned instead of printed. */
  method PrintList<S, T>(list: LazyList<S, T>) returns (emitted: seq<T>)
    requires IsFinite(list)
    ensures HasLength(list, |emitted|)
    ensures Prefix(|emitted| + 1, list) == emitted
  {
    ghost var n: nat :| HasLength(list, n);
    ghost var rest := list;
    ghost var i: nat := 0;
    var pair := Force(list);
    emitted := [];
    while pair.Cons?
      invariant i <= n && |emitted| == i
      invariant HasLength(rest, n - i) && pair == Force(rest)
      invariant Prefix(n + 1, list) == emitted + Prefix(n + 1 - i, rest)
      decreases n - i
    {
      assert Prefix(n + 1 - i, rest) == [pair.head()] + Prefix(n - i, pair.tail);
      emitted := emitted + [pair.head()];
      rest := pair.tail;
      i := i + 1;
      pair := Force(pair.tail);
    }
  }

  /** Walking `ArrToList(arr)` to its end emits exactly `arr`. */
  lemma PrintedArray<T>(arr: seq<T>, emitted: seq<T>)
    requires HasLength(ArrToList(arr), |emitted|)
    requires Prefix(|emitted| + 1, ArrToList(arr)) == emitted
    ensures emitted == arr
  {
    ArrToListContents(arr);
    LengthUnique(ArrToList(arr), |emitted|, |arr|);
  }
}
