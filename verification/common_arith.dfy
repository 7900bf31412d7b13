/** Natural-number arithmetic shared by the days: monotonicity of products
    and quotients, uniqueness of quotient and remainder, divisibility, and
    the `gcd` / `lcm` of the `num` crate's `Integer` trait. */
module Arith {

  lemma MulMono(a: nat, i: nat, j: nat)
    requires i <= j
    ensures a * i <= a * j
  {
  }

  lemma MulStep(p: nat, i: nat, j: nat)
    requires i < j
    ensures p * i + p <= p * j
  {
    MulMono(p, i + 1, j);
    assert p * (i + 1) == p * i + p;
  }

  /** Quotient and remainder are unique. */
  lemma DivUnique(n: nat, p: nat, q: nat, r: nat)
    requires p > 0 && 0 <= r < p && n == p * q + r
    ensures n / p == q && n % p == r
  {
    var q' := n / p;
    if q' < q {
      MulStep(p, q', q);
    } else if q < q' {
      MulStep(p, q, q');
    }
  }

  /** Rounding down to a multiple of `p` stays within `n`, and what is left
      is the remainder. */
  lemma RoundDown(n: nat, p: nat)
    requires p > 0
    ensures n / p * p <= n && n - n / p * p == n % p
  {
    Euclid(n, p);
  }

  /** Reducing a factor modulo `m` first does not change the product
      modulo `m`. */
  lemma ModMulLeft(x: nat, k: nat, m: nat)
    requires m > 0
    ensures (x % m * k) % m == (x * k) % m
  {
    var q, r := x / m, x % m;
    Euclid(x, m);
    var y := r * k;
    var a, b := y / m, y % m;
    Euclid(y, m);
    MulNat(q, k);
    var n: nat := q * k + a;
    Regroup(x, k, m, q, r, a, b);
    DivUnique(x * k, m, n, b);
  }

  lemma Regroup(x: int, k: int, m: int, q: int, r: int, a: int, b: int)
    requires x == m * q + r && r * k == m * a + b
    ensures x * k == m * (q * k + a) + b
  {
    calc {
      x * k;
      (m * q + r) * k;
      m * (q * k) + r * k;
      m * (q * k) + m * a + b;
      m * (q * k + a) + b;
    }
  }

  lemma DivMono(a: nat, b: nat, p: nat)
    requires p > 0 && a <= b
    ensures a / p <= b / p
  {
    if b / p < a / p {
      MulStep(p, b / p, a / p);
    }
  }

  // ---------------------------------------------------------------------
  // Divisibility

  /** `d` divides `n`; only 0 is a multiple of 0. */
  predicate Divides(d: nat, n: nat)
  {
    if d == 0 then n == 0 else n % d == 0
  }

  /** `d` divides `n` exactly when `n` is `d` times some natural number. */
  lemma DividesWitness(d: nat, n: nat, k: nat)
    requires n == d * k
    ensures Divides(d, n)
  {
    if d > 0 {
      DivUnique(n, d, k, 0);
    }
  }

  lemma DividesQuotient(d: nat, n: nat)
    requires Divides(d, n) && d > 0
    ensures n == d * (n / d)
  {
  }

  /** Two naturals that divide each other are equal. */
  lemma DividesAntisymmetric(a: nat, b: nat)
    requires Divides(a, b) && Divides(b, a)
    ensures a == b
  {
    if a > 0 && b > 0 {
      DividesQuotient(a, b);
      DividesQuotient(b, a);
      MulMono(a, 1, b / a);
      MulMono(b, 1, a / b);
    }
  }

  lemma DividesTransitive(a: nat, b: nat, c: nat)
    requires Divides(a, b) && Divides(b, c)
    ensures Divides(a, c)
  {
    if a > 0 && b > 0 {
      DividesQuotient(a, b);
      DividesQuotient(b, c);
      assert c == a * ((b / a) * (c / b));
      DividesWitness(a, c, (b / a) * (c / b));
    }
  }

  /** A common divisor of `x` and `y` divides `x * k + y`. */
  lemma DividesLinear(d: nat, x: nat, k: nat, y: nat)
    requires Divides(d, x) && Divides(d, y)
    ensures Divides(d, x * k + y)
  {
    if d > 0 {
      DividesQuotient(d, x);
      DividesQuotient(d, y);
      assert x * k + y == d * ((x / d) * k + y / d);
      DividesWitness(d, x * k + y, (x / d) * k + y / d);
    }
  }

  /** A common divisor of `x * k + y` and `x` divides `y`. */
  lemma DividesRemainder(d: nat, x: nat, k: nat, y: nat)
    requires Divides(d, x * k + y) && Divides(d, x)
    ensures Divides(d, y)
  {
    if d > 0 {
      DividesQuotient(d, x);
      DividesQuotient(d, x * k + y);
      var q := (x * k + y) / d - (x / d) * k;
      assert y == d * q;
      DividesWitness(d, y, q);
    }
  }

  // ---------------------------------------------------------------------
  // Greatest common divisor and least common multiple

  /** Euclid's algorithm. */
  function Gcd(a: nat, b: nat): (g: nat)
    ensures g == 0 <==> a == 0 && b == 0
    decreases b
  {
    if b == 0 then a else Gcd(b, a % b)
  }

  /** `a % b == a - b * (a / b)`, as a linear combination. */
  lemma Euclid(a: nat, b: nat)
    requires b > 0
    ensures a == b * (a / b) + a % b
  {
  }

  /** The gcd divides both arguments, and every common divisor divides
      it. */
  lemma {:induction false} GcdDivides(a: nat, b: nat, d: nat)
    ensures Divides(Gcd(a, b), a) && Divides(Gcd(a, b), b)
    ensures Divides(d, a) && Divides(d, b) ==> Divides(d, Gcd(a, b))
    decreases b
  {
    if b > 0 {
      GcdDivides(b, a % b, d);
      var g := Gcd(a, b);
      Euclid(a, b);
      DividesLinear(g, b, a / b, a % b);
      if Divides(d, a) && Divides(d, b) {
        DividesRemainder(d, b, a / b, a % b);
      }
    }
  }

  /** Bézout's identity: the gcd is an integer combination of the
      arguments. */
  lemma {:induction false} Bezout(a: nat, b: nat) returns (x: int, y: int)
    ensures a * x + b * y == Gcd(a, b)
    decreases b
  {
    if b == 0 {
      x, y := 1, 0;
    } else {
      var x', y' := Bezout(b, a % b);
      Euclid(a, b);
      x, y := y', x' - (a / b) * y';
      BezoutStep(a, b, a / b, a % b, x', y');
    }
  }

  /** With `a = b q + r`: `a y' + b (x' - q y') == b x' + r y'`. */
  lemma BezoutStep(a: int, b: int, q: int, r: int, x': int, y': int)
    requires a == b * q + r
    ensures a * y' + b * (x' - q * y') == b * x' + r * y'
  {
    calc {
      a * y' + b * (x' - q * y');
      (b * q + r) * y' + b * x' - b * (q * y');
      b * x' + r * y';
    }
  }

  /** `num::integer::lcm`: 0 when both are 0, else `a * (b / gcd(a, b))`. */
  function Lcm(a: nat, b: nat): nat
  {
    if a == 0 && b == 0 then 0 else
      var q := b / Gcd(a, b);
      MulNat(a, q);
      a * q
  }

  lemma MulNat(x: nat, y: nat)
    ensures x * y >= 0
  {
  }

  /** The lcm is a common multiple of its arguments, and divides every
      common multiple; it is 0 exactly when an argument is. */
  lemma LcmLeast(a: nat, b: nat, c: nat)
    ensures Divides(a, Lcm(a, b)) && Divides(b, Lcm(a, b))
    ensures Divides(a, c) && Divides(b, c) ==> Divides(Lcm(a, b), c)
    ensures Lcm(a, b) == 0 <==> a == 0 || b == 0
  {
    if a == 0 || b == 0 {
      if a == 0 && b > 0 {
        assert Lcm(a, b) == 0;
      }
      if b == 0 && a > 0 {
        assert Gcd(a, b) == a;
        assert Lcm(a, b) == 0;
      }
    } else {
      LcmPositive(a, b, c);
    }
  }

  lemma LcmPositive(a: nat, b: nat, c: nat)
    requires a > 0 && b > 0
    ensures Divides(a, Lcm(a, b)) && Divides(b, Lcm(a, b))
    ensures Divides(a, c) && Divides(b, c) ==> Divides(Lcm(a, b), c)
    ensures Lcm(a, b) > 0
  {
    var g := Gcd(a, b);
    GcdDivides(a, b, 0);
    DividesQuotient(g, a);
    DividesQuotient(g, b);
    var a', b' := a / g, b / g;
    var l := Lcm(a, b);
    assert l == a * b';
    DividesWitness(a, l, b');
    assert l == b * a' by {
      assert a * b' == g * a' * b';
    }
    DividesWitness(b, l, a');
    MulMono(a, 1, b');
    if Divides(a, c) && Divides(b, c) {
      CommonMultiple(a, b, c, g, a', b');
    }
  }

  /** The step of `LcmPositive` that needs Bézout: with `a = g a'` and
      `b = g b'`, a common multiple `c` is `a b' (t x + s y)` where
      `c = a s = b t` and `a x + b y = g`. */
  lemma CommonMultiple(a: nat, b: nat, c: nat, g: nat, a': nat, b': nat)
    requires a > 0 && b > 0 && g == Gcd(a, b) && a == g * a' && b == g * b'
    requires Divides(a, c) && Divides(b, c)
    ensures Divides(a * b', c)
  {
    var x, y := Bezout(a, b);
    DividesQuotient(a, c);
    DividesQuotient(b, c);
    var k := Combine(a, b, c, g, b', c / a, c / b, x, y);
    CancelFactor(c, a * b' * k, g);
    DividesWitness(a * b', c, k);
  }

  /** `c * g == a * b' * k * g` for `k = t x + s y`, and `k` is a natural
      number since `c` is and `a * b'` is positive. */
  lemma Combine(a: int, b: int, c: int, g: int, b': int, s: int, t: int, x: int, y: int) returns (k: nat)
    requires a > 0 && b' > 0 && g > 0 && c >= 0
    requires b == g * b' && c == a * s && c == b * t && a * x + b * y == g
    ensures c * g == a * b' * k * g
  {
    var j := t * x + s * y;
    calc {
      c * g;
      c * (a * x + b * y);
      c * a * x + c * b * y;
      b * t * a * x + a * s * b * y;
      a * b * j;
      a * (g * b') * j;
      a * b' * j * g;
    }
    if j < 0 {
      MulPositive(a * b', -j);
      MulPositive(a * b' * -j, g);
      assert false;
    }
    k := j;
  }

  lemma CancelFactor(x: int, y: int, g: int)
    requires g > 0 && x * g == y * g
    ensures x == y
  {
  }

  lemma MulPositive(x: int, y: int)
    requires x > 0 && y > 0
    ensures x * y > 0
  {
  }
}
