/** Two ways of going through a list of items: gathering a set that every item may add to,
    and folding a state until an item fails. */
module Traces {
  import opened Wrappers

  function Gathered<E, T>(adds: (set<T>, E) -> set<T>, run: seq<E>, n: nat): set<T>
    requires n <= |run|
  {
    if n == 0 then {}
    else Gathered(adds, run, n - 1) + adds(Gathered(adds, run, n - 1), run[n - 1])
  }

  lemma {:induction false} GatheredHasOrigin<E, T>(adds: (set<T>, E) -> set<T>, run: seq<E>, n: nat, x: T)
    returns (i: nat)
    requires n <= |run| && x in Gathered(adds, run, n)
    ensures i < n && x in adds(Gathered(adds, run, i), run[i])
    decreases n
  {
    if x in Gathered(adds, run, n - 1) {
      i := GatheredHasOrigin(adds, run, n - 1, x);
    } else {
      i := n - 1;
    }
  }

  lemma {:induction false} GatheredStays<E, T>(adds: (set<T>, E) -> set<T>, run: seq<E>, i: nat, n: nat)
    requires i < n <= |run|
    ensures adds(Gathered(adds, run, i), run[i]) <= Gathered(adds, run, n)
    decreases n
  {
    if i < n - 1 {
      GatheredStays(adds, run, i, n - 1);
    }
  }

  /** The state after the first `n` items, or the first failure. */
  function Folded<S, E, X>(step: (S, E) -> Result<S, X>, start: S, items: seq<E>, n: nat): Result<S, X>
    requires n <= |items|
  {
    if n == 0 then Ok(start)
    else
      match Folded(step, start, items, n - 1)
      case Err(e) => Err(e)
      case Ok(s) => step(s, items[n - 1])
  }

  lemma {:induction false} FailureStays<S, E, X>(step: (S, E) -> Result<S, X>, start: S, items: seq<E>, n: nat, m: nat)
    requires n <= m <= |items| && Folded(step, start, items, n).Err?
    ensures Folded(step, start, items, m) == Folded(step, start, items, n)
    decreases m
  {
    if n < m { FailureStays(step, start, items, n, m - 1); }
  }

  /** When, along good states, an item is accepted exactly under a condition of its own and
      keeps the state good, a whole list is accepted exactly when all its items are. */
  lemma {:induction false} FoldedExactly<S(!new), E, X>(
      step: (S, E) -> Result<S, X>, start: S, items: seq<E>, n: nat, good: (nat, S) -> bool, accepts: nat -> bool)
    requires n <= |items| && good(0, start)
    requires forall k: nat, s: S :: k < n && good(k, s) ==>
               && (step(s, items[k]).Ok? <==> accepts(k))
               && (step(s, items[k]).Ok? ==> good(k + 1, step(s, items[k]).value))
    ensures Folded(step, start, items, n).Ok? <==> forall k: nat :: k < n ==> accepts(k)
    ensures Folded(step, start, items, n).Ok? ==> good(n, Folded(step, start, items, n).value)
    decreases n
  {
    if n > 0 {
      FoldedExactly(step, start, items, n - 1, good, accepts);
    }
  }

  /** The first item that is not fine is refused as `x`. */
  ghost predicate FirstRefused<E, X>(items: seq<E>, n: nat, fine: E -> bool, refuses: (E, X) -> bool, x: X)
    requires n <= |items|
  {
    exists k: nat :: k < n && !fine(items[k]) && refuses(items[k], x) && forall j: nat :: j < k ==> fine(items[j])
  }

  /** In the same way the first item that is not fine is the one that is reported. */
  lemma {:induction false} FoldedRefuses<S(!new), E, X>(
      step: (S, E) -> Result<S, X>, start: S, items: seq<E>, n: nat, good: (nat, S) -> bool, fine: E -> bool,
      refuses: (E, X) -> bool, x: X)
    requires n <= |items| && good(0, start)
    requires forall k: nat, s: S :: k < n && good(k, s) ==>
               && (step(s, items[k]).Ok? <==> fine(items[k]))
               && (step(s, items[k]).Ok? ==> good(k + 1, step(s, items[k]).value))
               && (step(s, items[k]) == Err(x) <==> !fine(items[k]) && refuses(items[k], x))
    ensures Folded(step, start, items, n) == Err(x) <==> FirstRefused(items, n, fine, refuses, x)
    ensures Folded(step, start, items, n).Ok? <==> forall k: nat :: k < n ==> fine(items[k])
    ensures Folded(step, start, items, n).Ok? ==> good(n, Folded(step, start, items, n).value)
    decreases n
  {
    if n > 0 {
      FoldedRefuses(step, start, items, n - 1, good, fine, refuses, x);
    }
  }
}
