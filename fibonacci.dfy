/** The memoised Fibonacci function and its module-level memo table. */
module Fibonacci {

  /** The Fibonacci numbers, with Fib(0) = 0 and Fib(1) = 1. */
  function Fib(n: nat): nat
  {
    if n < 2 then n else Fib(n - 1) + Fib(n - 2)
  }

  /** The memo table, a sparse array indexed by integers. */
  class Memo {
    var memo: map<int, int>

    /** Every entry cached at an index from 2 on holds the Fibonacci number
        of that index; entries below 2 are never read. */
    ghost predicate Valid()
      reads this
    {
      forall i :: i in memo && i >= 2 ==> memo[i] == Fib(i)
    }

    /** The table as the module initialises it: one entry, 1 at index 0. */
    constructor ()
      ensures memo == map[0 := 1]
      ensures Valid()
    {
      memo := map[0 := 1];
    }

    /** The nth Fibonacci number; indices below 2 are returned as they are
        without consulting the table, and missing entries are computed
        recursively and cached. */
    method GetFibo(nth: int) returns (r: int)
      requires Valid()
      modifies this
      ensures Valid()
      ensures nth >= 0 ==> r == Fib(nth)
      ensures nth < 2 ==> r == nth && memo == old(memo)
      ensures forall i :: i in old(memo) ==> i in memo && memo[i] == old(memo)[i]
      ensures forall i :: i in memo && i !in old(memo) ==> 2 <= i <= nth
      ensures nth >= 2 ==> nth in memo && memo[nth] == r
      decreases nth
    {
      if nth < 2 {
        return nth;
      }
      if nth in memo {
        return memo[nth];
      }
      var a := GetFibo(nth - 1);
      var b := GetFibo(nth - 2);
      memo := memo[nth := a + b];
      r := memo[nth];
    }
  }
}
