/** Greatest common divisors and congruences, the mathematics behind
    `math.gcd`, the modular inverse and the Hill matrix inverse. */
module NumberTheory {

  /** `d` is a positive divisor of `n`. */
  predicate Divides(d: int, n: int) { d > 0 && n % d == 0 }

  /** `a` and `b` leave the same remainder modulo `m`. */
  predicate Congruent(a: int, b: int, m: int)
    requires m > 0
  {
    a % m == b % m
  }

  /** Euclid's algorithm, the reference definition of the greatest common divisor. */
  function Gcd(a: nat, b: nat): nat
    decreases b
  {
    if b == 0 then a else Gcd(b, a % b)
  }

  // ---------------------------------------------------------------------------
  // Division with remainder

  /** Euclidean division is unique: any `q*d + r` with `0 <= r < d` has quotient `q`
      and remainder `r`. */
  lemma DivModUnique(n: int, d: int, q: int, r: int)
    requires d > 0 && 0 <= r < d && n == q * d + r
    ensures n / d == q && n % d == r
  {
    var q', r' := n / d, n % d;
    assert n == q' * d + r';
    assert (q - q') * d == r' - r;
    if q > q' {
      MulMonotone(q - q', d);
    } else if q < q' {
      MulMonotone(q' - q, d);
    }
  }

  lemma MulMonotone(k: int, d: int)
    requires k >= 1 && d > 0
    ensures k * d >= d
  {
    assert (k - 1) * d >= 0;
  }

  /** Adding a multiple of `m` does not change the remainder. */
  lemma ModAddMultiple(k: int, r: int, m: int)
    requires m > 0
    ensures (m * k + r) % m == r % m
  {
    DivModUnique(m * k + r, m, k + r / m, r % m);
  }

  /** A multiple of `k` is `k` times its quotient. */
  lemma ExactDivision(n: int, k: int)
    requires k > 0 && n % k == 0
    ensures (n / k) * k == n
  {
  }

  /** A positive multiple of `size` is at least `size`, and one `size` less
      is still a multiple. */
  lemma MultipleStep(n: nat, size: nat)
    requires n > 0 && size > 0 && n % size == 0
    ensures n >= size && (n - size) % size == 0
  {
    var q := n / size;
    assert n == size * q;
    DivModUnique(n - size, size, q - 1, 0);
  }

  /** Between two multiples of `size` there is room for `size` more. */
  lemma NextMultiple(i: nat, n: nat, size: nat)
    requires size > 0 && i % size == 0 && n % size == 0 && i < n
    ensures i + size <= n
  {
    var k := n / size - i / size;
    assert n - i == size * k;
    DivModUnique(n - i, size, k, 0);
    MultipleStep(n - i, size);
  }

  // ---------------------------------------------------------------------------
  // Divisibility

  lemma DividesLinear(d: int, a: int, b: int, x: int, y: int)
    requires Divides(d, a) && Divides(d, b)
    ensures Divides(d, a * x + b * y)
  {
    var i, j := a / d, b / d;
    assert a == d * i && b == d * j;
    assert a * x + b * y == d * (i * x + j * y);
    ModAddMultiple(i * x + j * y, 0, d);
  }

  lemma DividesLe(d: int, n: int)
    requires Divides(d, n) && n > 0
    ensures d <= n
  {
    var q := n / d;
    assert n == q * d;
    assert q >= 1;
    MulMonotone(q, d);
  }

  lemma DividesSelf(d: int)
    requires d > 0
    ensures Divides(d, d) && Divides(d, 0)
  {
    DivModUnique(d, d, 1, 0);
  }

  lemma DividesNeg(d: int, n: int)
    requires d > 0
    ensures Divides(d, n) <==> Divides(d, -n)
  {
    if Divides(d, n) {
      DividesSelf(d);
      DividesLinear(d, n, 0, -1, 0);
    }
    if Divides(d, -n) {
      DividesSelf(d);
      DividesLinear(d, -n, 0, -1, 0);
    }
  }

  /** A divisor of `m` divides `a` exactly when it divides `a % m`. */
  lemma DividesMod(d: int, a: int, m: int)
    requires m > 0 && Divides(d, m)
    ensures Divides(d, a) <==> Divides(d, a % m)
  {
    assert a % m == a * 1 + m * -(a / m);
    assert a == (a % m) * 1 + m * (a / m);
    if Divides(d, a) {
      DividesLinear(d, a, m, 1, -(a / m));
    }
    if Divides(d, a % m) {
      DividesLinear(d, a % m, m, 1, a / m);
    }
  }

  // ---------------------------------------------------------------------------
  // The greatest common divisor

  lemma {:induction false} GcdDivides(a: nat, b: nat)
    requires a > 0 || b > 0
    ensures Gcd(a, b) > 0 && Divides(Gcd(a, b), a) && Divides(Gcd(a, b), b)
    decreases b
  {
    if b == 0 {
      DividesSelf(a);
    } else {
      GcdDivides(b, a % b);
      var g := Gcd(a, b);
      assert a == b * (a / b) + (a % b) * 1;
      DividesLinear(g, b, a % b, a / b, 1);
    }
  }

  lemma {:induction false} GcdGreatest(a: nat, b: nat, d: int)
    requires Divides(d, a) && Divides(d, b)
    ensures Divides(d, Gcd(a, b))
    decreases b
  {
    if b > 0 {
      assert a % b == a * 1 + b * -(a / b);
      DividesLinear(d, a, b, 1, -(a / b));
      GcdGreatest(b, a % b, d);
    }
  }

  /** `Gcd(a, b)` is the greatest common divisor of `a` and `b`. */
  lemma GcdIsGreatest(a: nat, b: nat)
    requires a > 0 || b > 0
    ensures Divides(Gcd(a, b), a) && Divides(Gcd(a, b), b)
    ensures forall d :: Divides(d, a) && Divides(d, b) ==> d <= Gcd(a, b)
  {
    GcdDivides(a, b);
    forall d | Divides(d, a) && Divides(d, b) ensures d <= Gcd(a, b) {
      GcdGreatest(a, b, d);
      DividesLe(d, Gcd(a, b));
    }
  }

  lemma {:induction false} GcdCommutes(a: nat, b: nat)
    ensures Gcd(a, b) == Gcd(b, a)
  {
    if a == 0 || b == 0 {
    } else if a < b {
      ModSmall(a, b);
      assert Gcd(a, b) == Gcd(b, a % b);
    } else if b < a {
      ModSmall(b, a);
      assert Gcd(b, a) == Gcd(a, b % a);
    }
  }

  /** Two positive numbers that divide each other are equal. */
  lemma DividesAntisymmetric(x: int, y: int)
    requires Divides(x, y) && Divides(y, x)
    ensures x == y
  {
    DividesLe(x, y);
    DividesLe(y, x);
  }

  /** Numbers with the same positive common divisors of `m` have the same gcd with `m`. */
  lemma GcdSameDivisors(a: nat, b: nat, m: nat)
    requires m > 0
    requires forall d :: Divides(d, m) ==> (Divides(d, a) <==> Divides(d, b))
    ensures Gcd(a, m) == Gcd(b, m)
  {
    GcdDivides(a, m);
    GcdDivides(b, m);
    GcdGreatest(b, m, Gcd(a, m));
    GcdGreatest(a, m, Gcd(b, m));
    DividesAntisymmetric(Gcd(a, m), Gcd(b, m));
  }

  /** `math.gcd(a, m)` (the gcd of `|a|` and `m`) equals the gcd of `a % m` and `m`. */
  lemma GcdAbsMod(a: int, m: nat)
    requires m > 0
    ensures Gcd(if a < 0 then -a else a, m) == Gcd(a % m, m)
  {
    var abs: nat := if a < 0 then -a else a;
    forall d | Divides(d, m) ensures Divides(d, abs) <==> Divides(d, a % m) {
      DividesNeg(d, a);
      DividesMod(d, a, m);
    }
    GcdSameDivisors(abs, a % m, m);
  }

  lemma GcdStep(a: nat, b: nat)
    requires a > 0
    ensures Gcd(b % a, a) == Gcd(a, b)
  {
    GcdCommutes(b % a, a);
    GcdCommutes(b, a);
  }

  // ---------------------------------------------------------------------------
  // Congruences

  lemma CongruentByMultiple(a: int, b: int, m: int, k: int)
    requires m > 0 && a == b + m * k
    ensures Congruent(a, b, m)
  {
    ModAddMultiple(k, b, m);
  }

  lemma CongruentMod(a: int, m: int)
    requires m > 0
    ensures Congruent(a % m, a, m)
  {
    CongruentByMultiple(a, a % m, m, a / m);
  }

  /** Congruence gives a difference that is a multiple of `m`. */
  lemma CongruentDifference(a: int, b: int, m: int)
    requires m > 0 && Congruent(a, b, m)
    ensures (a - b) % m == 0
  {
    assert a == m * (a / m) + a % m;
    assert b == m * (b / m) + b % m;
    assert a - b == m * (a / m - b / m);
    ModAddMultiple(a / m - b / m, 0, m);
  }

  lemma CongruentAdd(a: int, b: int, c: int, d: int, m: int)
    requires m > 0 && Congruent(a, b, m) && Congruent(c, d, m)
    ensures Congruent(a + c, b + d, m)
  {
    CongruentDifference(a, b, m);
    CongruentDifference(c, d, m);
    var i, j := (a - b) / m, (c - d) / m;
    assert a - b == m * i && c - d == m * j;
    CongruentByMultiple(a + c, b + d, m, i + j);
  }

  lemma CongruentMul(a: int, b: int, c: int, d: int, m: int)
    requires m > 0 && Congruent(a, b, m) && Congruent(c, d, m)
    ensures Congruent(a * c, b * d, m)
  {
    CongruentDifference(a, b, m);
    CongruentDifference(c, d, m);
    var i, j := (a - b) / m, (c - d) / m;
    assert a == b + m * i && c == d + m * j;
    assert a * c == b * d + m * (i * d + b * j + m * i * j);
    CongruentByMultiple(a * c, b * d, m, i * d + b * j + m * i * j);
  }

  lemma CongruentSymmetric(a: int, b: int, m: int)
    requires m > 0 && Congruent(a, b, m)
    ensures Congruent(b, a, m)
  {
  }

  /** A value already in `[0, m)` is its own remainder. */
  lemma ModSmall(a: int, m: int)
    requires 0 <= a < m
    ensures a % m == a
  {
    DivModUnique(a, m, 0, a);
  }
}
