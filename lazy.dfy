/** Deferred values ("thunks") and the combinators built on them.
    A thunk is a zero-argument function value; invoking it is "forcing" it.
    Dafny functions are total and pure, so "b is never invoked" is stated as
    "the result is the same whatever b is". */
module Lazy {

  /** A deferred value of type T. */
  type Thunk<T> = () -> T

  /** Eager integer addition, the operation that AddLazy defers. */
  function Add(a: int, b: int): int
  {
    a + b
  }

  /** Defers the sum of two deferred numbers: nothing is computed until the
      result is forced. */
  function AddLazy(a: Thunk<int>, b: Thunk<int>): (r: Thunk<int>)
    ensures r() == Add(a(), b())
  {
    () => a() + b()
  }

  /** Returns a thunk that forces only its first argument; the second one
      does not take part in the result. */
  function LazyFirst(a: Thunk<int>, b: Thunk<int>): (r: Thunk<int>)
    ensures r() == a()
  {
    () => a()
  }

  /** Short-circuit conjunction of two deferred booleans. */
  function And(a: Thunk<bool>, b: Thunk<bool>): (r: Thunk<bool>)
    ensures r() <==> a() && b()
    ensures !a() ==> !r()
    ensures a() ==> r() == b()
  {
    () => if !a() then false else b()
  }

  /** Short-circuit disjunction of two deferred booleans. */
  function Or(a: Thunk<bool>, b: Thunk<bool>): (r: Thunk<bool>)
    ensures r() <==> a() || b()
    ensures a() ==> r()
    ensures !a() ==> r() == b()
  {
    () => if a() then true else b()
  }

  /** Once the first operand of And is false, the second one is irrelevant:
      any two choices of it give the same result. */
  lemma AndIgnoresSecond(a: Thunk<bool>, b1: Thunk<bool>, b2: Thunk<bool>)
    requires !a()
    ensures And(a, b1)() == And(a, b2)() == false
  {
  }

  /** Once the first operand of Or is true, the second one is irrelevant. */
  lemma OrIgnoresSecond(a: Thunk<bool>, b1: Thunk<bool>, b2: Thunk<bool>)
    requires a()
    ensures Or(a, b1)() == Or(a, b2)() == true
  {
  }

  /** The second operand of LazyFirst never matters. */
  lemma LazyFirstIgnoresSecond(a: Thunk<int>, b1: Thunk<int>, b2: Thunk<int>)
    ensures LazyFirst(a, b1)() == LazyFirst(a, b2)()
  {
  }
}
