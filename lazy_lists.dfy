/** The lazy linked list and what a consumer can observe of it.

    In the source a lazy list is a closure which, when called, yields either
    the end marker or a pair of a head thunk and another lazy list. Here a
    closure is made explicit: `env` is what it captured and `step` is its
    code, so forcing the list is `step(env)`, which yields a `Cell` whose
    tail is the environment of the next closure (all cells of one list share
    the same code). Infinite lists need no infinite value: `env` only holds
    the state the next forcing starts from.

    `step` is a partial function: where its precondition fails, forcing the
    list does not terminate in the source. All observations below demand that
    the forcings they perform are defined. */
module LazyLists {

  /** The result of forcing a lazy list once: the end of the list, or a head
      thunk together with the environment of the rest of the list. */
  datatype Cell<T, S> = Nil | Cons(head: () -> T, tail: S)

  /** A lazy list: captured environment plus the code that forces it. */
  datatype LazyList<!S, T> = LazyList(env: S, step: S --> Cell<T, S>)

  /** Forcing `l` once terminates. */
  ghost predicate CanForce<S, T>(l: LazyList<S, T>)
  {
    l.step.requires(l.env)
  }

  /** Forces `l` once; the tail of a cell is again a lazy list. */
  function Force<S, T>(l: LazyList<S, T>): (c: Cell<T, LazyList<S, T>>)
    requires CanForce(l)
    ensures c.Nil? <==> l.step(l.env).Nil?
    ensures c.Cons? ==> c.head == l.step(l.env).head && c.tail.step == l.step
  {
    match l.step(l.env)
    case Nil => Nil
    case Cons(h, s) => Cons(h, LazyList(s, l.step))
  }

  /** Walking `l` cell by cell, the first `k` forcings all terminate (a walk
      stops early at the end of the list). */
  ghost predicate Forceable<S, T>(l: LazyList<S, T>, k: nat)
    decreases k
  {
    k == 0 ||
    (CanForce(l) &&
     match Force(l)
     case Nil => true
     case Cons(_, t) => Forceable(t, k - 1))
  }

  /** The head values a consumer sees when it forces `l` at most `k` times,
      forcing each head it meets. */
  function Prefix<S, T>(k: nat, l: LazyList<S, T>): (xs: seq<T>)
    requires Forceable(l, k)
    ensures |xs| <= k
    decreases k
  {
    if k == 0 then []
    else
      match Force(l)
      case Nil => []
      case Cons(h, t) => [h()] + Prefix(k - 1, t)
  }

  /** `l` has exactly `n` cells: forcing it `n + 1` times reaches the end. */
  ghost predicate HasLength<S, T>(l: LazyList<S, T>, n: nat)
  {
    Forceable(l, n + 1) && |Prefix(n + 1, l)| == n
  }

  /** `l` is a finite list. */
  ghost predicate IsFinite<S, T>(l: LazyList<S, T>)
  {
    exists n: nat :: HasLength(l, n)
  }

  /** `l` never forces to the end, and every forcing terminates. */
  ghost predicate Endless<S, T>(l: LazyList<S, T>)
  {
    forall k: nat :: Forceable(l, k) && |Prefix(k, l)| == k
  }

  /** Fewer forcings than a successful walk are also successful, and see a
      prefix of what the longer walk sees. */
  lemma {:induction false} PrefixOfPrefix<S, T>(l: LazyList<S, T>, j: nat, k: nat)
    requires j <= k && Forceable(l, k)
    ensures Forceable(l, j)
    ensures Prefix(j, l) == Prefix(k, l)[..if j < |Prefix(k, l)| then j else |Prefix(k, l)|]
    decreases j
  {
    if j > 0 {
      match Force(l)
      case Nil =>
      case Cons(h, t) =>
        PrefixOfPrefix(t, j - 1, k - 1);
    }
  }

  /** A walk that stops short of its bound has found the end of the list,
      so the list is finite and its length is what the walk saw. */
  lemma {:induction false} ShortWalkEnds<S, T>(l: LazyList<S, T>, k: nat)
    requires Forceable(l, k) && |Prefix(k, l)| < k
    ensures HasLength(l, |Prefix(k, l)|)
    decreases k
  {
    match Force(l)
    case Nil =>
    case Cons(h, t) =>
      ShortWalkEnds(t, k - 1);
  }

  /** A list has at most one length. */
  lemma {:induction false} LengthUnique<S, T>(l: LazyList<S, T>, n: nat, m: nat)
    requires HasLength(l, n) && HasLength(l, m)
    ensures n == m
    decreases n
  {
    match Force(l)
    case Nil =>
    case Cons(h, t) =>
      if n > 0 && m > 0 {
        LengthUnique(t, n - 1, m - 1);
      }
  }
}
