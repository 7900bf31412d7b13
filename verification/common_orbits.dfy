/** Iterating a step function, and Floyd's tortoise-and-hare search for a
    repeat: the tortoise takes one step per round and the hare two, and the
    search stops when an observation of the two agrees. */
module Orbits {
  import opened Wrappers

  /** `n` applications of `f` to `x`. */
  function Iter<T>(f: T -> T, x: T, n: nat): T
    decreases n
  {
    if n == 0 then x else f(Iter(f, x, n - 1))
  }

  lemma {:induction false} IterAdd<T>(f: T -> T, x: T, m: nat, n: nat)
    ensures Iter(f, Iter(f, x, m), n) == Iter(f, x, m + n)
    decreases n
  {
    if n > 0 {
      IterAdd(f, x, m, n - 1);
      IterNext(f, Iter(f, x, m), n - 1, n);
      IterNext(f, x, m + (n - 1), m + n);
    }
  }

  /** One more step. */
  lemma IterNext<T>(f: T -> T, x: T, a: nat, b: nat)
    requires b == a + 1
    ensures Iter(f, x, b) == f(Iter(f, x, a))
  {
  }

  /** A property kept by every step holds after any number of steps. */
  lemma {:induction false} IterInvariant<T>(f: T -> T, inv: T -> bool, x: T, n: nat)
    requires inv(x) && forall a {:trigger inv(f(a))} :: inv(a) ==> inv(f(a))
    ensures inv(Iter(f, x, n))
    decreases n
  {
    if n > 0 {
      IterInvariant(f, inv, x, n - 1);
    }
  }

  /** The search loop: the tortoise `t` has taken `i` steps and the hare `h`
      twice as many; `fuel` bounds the number of rounds. */
  function Meet<T, G(==)>(f: T -> T, g: T -> G, t: T, h: T, i: nat, fuel: nat): (r: Option<nat>)
    ensures r.Some? ==> i <= r.value <= i + fuel
    decreases fuel
  {
    if g(t) == g(h) then Some(i)
    else if fuel == 0 then None
    else Meet(f, g, f(t), f(f(h)), i + 1, fuel - 1)
  }

  /** The observations after `k` and `2 k` steps agree. */
  ghost predicate Agree<T, G>(f: T -> T, g: T -> G, x: T, k: nat)
  {
    g(Iter(f, x, k)) == g(Iter(f, x, 2 * k))
  }

  /** Started from `i` steps, the search finds the first `j` whose
      observations after `j` and `2 j` steps agree, and fails only when
      there is none within the fuel. */
  lemma {:induction false} MeetFirst<T, G>(f: T -> T, g: T -> G, x: T, i: nat, fuel: nat)
    ensures var r := Meet(f, g, Iter(f, x, i), Iter(f, x, 2 * i), i, fuel);
      (r.Some? ==> Agree(f, g, x, r.value) && forall k :: i <= k < r.value ==> !Agree(f, g, x, k)) &&
      (r.None? ==> forall k :: i <= k <= i + fuel ==> !Agree(f, g, x, k))
    decreases fuel
  {
    if !Agree(f, g, x, i) && fuel > 0 {
      MeetFirst(f, g, x, i + 1, fuel - 1);
      IterNext(f, x, i, i + 1);
      IterNext(f, x, 2 * i, 2 * i + 1);
      IterNext(f, x, 2 * i + 1, 2 * (i + 1));
    }
  }

  /** The search fails exactly when no observation within the fuel
      agrees. */
  lemma MeetNone<T, G>(f: T -> T, g: T -> G, x: T, i: nat, fuel: nat)
    ensures Meet(f, g, Iter(f, x, i), Iter(f, x, 2 * i), i, fuel).None? <==>
      forall k :: i <= k <= i + fuel ==> !Agree(f, g, x, k)
  {
    MeetFirst(f, g, x, i, fuel);
  }

  /** `f` keeps `inv`, and on states satisfying `inv` the next observation
      depends only on the current one. */
  ghost predicate Respects<T(!new), G>(f: T -> T, g: T -> G, inv: T -> bool)
  {
    (forall a {:trigger inv(f(a))} :: inv(a) ==> inv(f(a))) &&
    (forall a, b {:trigger g(f(a)), g(f(b))} :: inv(a) && inv(b) && g(a) == g(b) ==> g(f(a)) == g(f(b)))
  }

  /** Once the observations after `i` and `2 i` steps agree, every later
      observation repeats `i` steps on. */
  lemma {:induction false} Period<T(!new), G>(f: T -> T, g: T -> G, inv: T -> bool, x: T, i: nat, n: nat)
    requires Respects(f, g, inv) && inv(x)
    requires g(Iter(f, x, i)) == g(Iter(f, x, 2 * i)) && i <= n
    ensures g(Iter(f, x, n)) == g(Iter(f, x, n + i))
    decreases n - i
  {
    if n > i {
      Period(f, g, inv, x, i, n - 1);
      StepAgree(f, g, inv, x, n - 1, n - 1 + i, n, n + i);
    } else {
      var b := n + i;
      assert b == 2 * i;
    }
  }

  /** Agreeing observations after `a` and `b` steps still agree one step
      later. */
  lemma StepAgree<T(!new), G>(f: T -> T, g: T -> G, inv: T -> bool, x: T, a: nat, b: nat, a': nat, b': nat)
    requires Respects(f, g, inv) && inv(x)
    requires g(Iter(f, x, a)) == g(Iter(f, x, b)) && a' == a + 1 && b' == b + 1
    ensures g(Iter(f, x, a')) == g(Iter(f, x, b'))
  {
    IterInvariant(f, inv, x, a);
    IterInvariant(f, inv, x, b);
    IterNext(f, x, a, a');
    IterNext(f, x, b, b');
  }

  lemma {:induction false} Periods<T(!new), G>(f: T -> T, g: T -> G, inv: T -> bool, x: T, i: nat, n: nat, k: nat)
    requires Respects(f, g, inv) && inv(x)
    requires g(Iter(f, x, i)) == g(Iter(f, x, 2 * i)) && i <= n
    ensures g(Iter(f, x, n)) == g(Iter(f, x, n + k * i))
    decreases k
  {
    if k > 0 {
      Periods(f, g, inv, x, i, n, k - 1);
      var m := n + (k - 1) * i;
      Period(f, g, inv, x, i, m);
      MulSucc(k - 1, i);
      assert m + i == n + k * i;
    } else {
      var m := n + k * i;
      assert m == n;
    }
  }

  /** After the meeting point `i`, running `total mod i` more steps gives
      the observation after `total` steps. */
  lemma Skip<T(!new), G>(f: T -> T, g: T -> G, inv: T -> bool, x: T, i: nat, total: nat)
    requires Respects(f, g, inv) && inv(x)
    requires 1 <= i <= total && g(Iter(f, x, i)) == g(Iter(f, x, 2 * i))
    ensures g(Iter(f, Iter(f, x, i), total - total / i * i)) == g(Iter(f, x, total))
  {
    var k, r := Split(total, i);
    IterAdd(f, x, i, r);
    Periods(f, g, inv, x, i, i + r, k);
  }

  lemma MulSucc(k: nat, i: nat)
    ensures k * i + i == (k + 1) * i
  {
  }

  /** `total - total / i * i` is the remainder `r`, and `total` is `i + r`
      plus `k` more rounds of `i`. */
  lemma Split(total: nat, i: nat) returns (k: nat, r: nat)
    requires 1 <= i <= total
    ensures total - total / i * i == r && i + r + k * i == total
  {
    r := total % i;
    assert total == total / i * i + r;
    assert total / i >= 1;
    k := total / i - 1;
    MulSucc(k, i);
  }
}
