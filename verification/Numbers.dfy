// Integer facts shared by the arithmetic models: powers, divisibility and congruences.
module Numbers {

  function Pow(b: nat, e: nat): (r: nat)
    ensures b > 0 ==> r > 0
  {
    if e == 0 then 1 else b * Pow(b, e - 1)
  }

  lemma {:induction false} PowAdd(b: nat, e: nat, f: nat)
    ensures Pow(b, e + f) == Pow(b, e) * Pow(b, f)
  {
    if e > 0 {
      PowAdd(b, e - 1, f);
      MulAssoc(b, Pow(b, e - 1), Pow(b, f));
    }
  }

  lemma {:induction false} PowMul(b: nat, e: nat, f: nat)
    ensures Pow(Pow(b, e), f) == Pow(b, e * f)
  {
    if f > 0 {
      PowMul(b, e, f - 1);
      assert e * f == e + e * (f - 1);
      PowAdd(b, e, e * (f - 1));
    } else {
      assert e * f == 0;
    }
  }

  lemma {:induction false} PowMonotone(b: nat, e: nat, f: nat)
    requires b > 0 && e <= f
    ensures Pow(b, e) <= Pow(b, f)
  {
    PowAdd(b, e, f - e);
    MulMonotone(Pow(b, e), 1, Pow(b, f - e));
  }

  lemma MulAssoc(a: int, b: int, c: int)
    ensures (a * b) * c == a * (b * c)
  {
  }

  lemma Commute(a: int, b: int)
    ensures a * b == b * a
  {
  }

  lemma MulMonotone(a: int, b: int, c: int)
    requires a >= 0 && b <= c
    ensures a * b <= a * c
  {
  }

  lemma MulStrict(a: int, b: int, c: int)
    requires a > 0
    ensures a * b < a * c <==> b < c
  {
  }

  lemma CancelLess(b: int, c: int, a: int)
    requires a > 0 && b * a < c * a
    ensures b < c
  {
    if b >= c { MulMonotone(a, c, b); }
  }

  lemma Distribute(a: int, b: int, c: int)
    ensures a * (b + c) == a * b + a * c
    ensures a * (b - c) == a * b - a * c
  {
  }

  // A digit in front of a number below p gives a number below b * p.
  lemma DigitBound(b: int, x: int, v: int, p: int)
    requires 0 <= x < b && v < p
    ensures x + b * v < b * p
  {
    MulMonotone(b, v + 1, p);
    Distribute(b, v, 1);
  }

  // Quotient and remainder are the only pair with 0 <= r < d.
  lemma DivModUnique(n: int, d: int, q: int, r: int)
    requires d > 0 && 0 <= r < d && n == q * d + r
    ensures n / d == q && n % d == r
  {
    var q', r' := n / d, n % d;
    assert n == q' * d + r';
    assert (q' - q) * d == r - r';
    if q' > q { MulMonotone(d, 1, q' - q); }
    if q' < q { MulMonotone(d, 1, q - q'); }
  }

  lemma DivModSplit(n: int, d: int)
    requires d > 0
    ensures n == d * (n / d) + n % d && 0 <= n % d < d
  {
  }

  lemma DivAtMost(n: int, d: int, k: int)
    requires d > 0 && n <= d * k
    ensures n / d <= k
  {
    if n / d > k { MulMonotone(d, k + 1, n / d); Distribute(d, k, 1); }
  }

  // ---------------------------------------------------------------- divisibility

  ghost predicate Divides(d: int, n: int)
    requires d > 0
  {
    n % d == 0
  }

  lemma DividesWitness(d: int, n: int) returns (k: int)
    requires d > 0 && Divides(d, n)
    ensures n == k * d
  {
    k := n / d;
  }

  lemma DividesIntro(d: int, n: int, k: int)
    requires d > 0 && n == k * d
    ensures Divides(d, n)
  {
    DivModUnique(n, d, k, 0);
  }

  // A divisor of two numbers divides every integer combination of them.
  lemma DividesCombination(d: int, m: int, n: int, x: int, y: int)
    requires d > 0 && Divides(d, m) && Divides(d, n)
    ensures Divides(d, x * m + y * n)
  {
    var j := DividesWitness(d, m);
    var k := DividesWitness(d, n);
    assert x * m == (x * j) * d;
    assert y * n == (y * k) * d;
    assert x * m + y * n == (x * j + y * k) * d;
    DividesIntro(d, x * m + y * n, x * j + y * k);
  }

  // g is the greatest common divisor: it divides both and every common divisor divides it.
  ghost predicate IsGcd(g: int, m: int, n: int) {
    && g > 0
    && Divides(g, m)
    && Divides(g, n)
    && forall d :: d > 0 && Divides(d, m) && Divides(d, n) ==> Divides(d, g)
  }

  // ---------------------------------------------------------------- congruence

  ghost predicate Congruent(x: int, y: int, m: int)
    requires m > 0
  {
    Divides(m, x - y)
  }

  lemma CongruentWitness(x: int, y: int, m: int) returns (k: int)
    requires m > 0 && Congruent(x, y, m)
    ensures x == y + k * m
  {
    k := DividesWitness(m, x - y);
  }

  lemma CongruentIntro(x: int, y: int, m: int, k: int)
    requires m > 0 && x == y + k * m
    ensures Congruent(x, y, m)
  {
    DividesIntro(m, x - y, k);
  }

  lemma CongruentSymmetric(x: int, y: int, m: int)
    requires m > 0 && Congruent(x, y, m)
    ensures Congruent(y, x, m)
  {
    var k := CongruentWitness(x, y, m);
    CongruentIntro(y, x, m, -k);
  }

  lemma CongruentTransitive(x: int, y: int, z: int, m: int)
    requires m > 0 && Congruent(x, y, m) && Congruent(y, z, m)
    ensures Congruent(x, z, m)
  {
    var j := CongruentWitness(x, y, m);
    var k := CongruentWitness(y, z, m);
    Distribute(m, j, k);
    CongruentIntro(x, z, m, j + k);
  }

  lemma CongruentMul(x: int, y: int, u: int, v: int, m: int)
    requires m > 0 && Congruent(x, y, m) && Congruent(u, v, m)
    ensures Congruent(x * u, y * v, m)
  {
    var j := CongruentWitness(x, y, m);
    var k := CongruentWitness(u, v, m);
    var c := y * k + j * v + (j * k) * m;
    assert x * u == y * v + c * m by {
      assert (y + j * m) * (v + k * m) == y * v + y * (k * m) + (j * m) * v + (j * m) * (k * m);
      assert y * (k * m) == (y * k) * m;
      assert (j * m) * v == (j * v) * m;
      assert (j * m) * (k * m) == ((j * k) * m) * m;
    }
    CongruentIntro(x * u, y * v, m, c);
  }

  lemma CongruentMod(x: int, m: int)
    requires m > 0
    ensures Congruent(x % m, x, m)
  {
    CongruentIntro(x % m, x, m, -(x / m));
  }

  // Congruent residues are equal.
  lemma CongruentResidue(x: int, y: int, m: int)
    requires m > 0 && Congruent(x, y, m) && 0 <= x < m
    ensures x == y % m
  {
    var k := CongruentWitness(x, y, m);
    DivModUnique(y, m, -k, x);
  }

  lemma ProductParity(a: int, b: int)
    ensures (a * b) % 2 == (a % 2) * (b % 2)
  {
    var i, j := a / 2, b / 2;
    assert a * b == (2 * i + a % 2) * (2 * j + b % 2);
    assert a * b == 2 * (2 * (i * j) + i * (b % 2) + j * (a % 2)) + (a % 2) * (b % 2);
  }

  lemma EvenMultiple(x: int, b: int, v: int)
    requires b % 2 == 0
    ensures (x + b * v) % 2 == x % 2
  {
    MulAssoc(2, b / 2, v);
    DivModUnique(x + b * v, 2, x / 2 + (b / 2) * v, x % 2);
  }

  // A power of two can be cancelled modulo an odd number.
  lemma {:induction false} CancelPowerOfTwo(x: int, y: int, e: nat, m: int)
    requires m > 0 && m % 2 == 1
    requires Congruent(x * Pow(2, e), y * Pow(2, e), m)
    ensures Congruent(x, y, m)
  {
    if e > 0 {
      var k := CongruentWitness(x * Pow(2, e), y * Pow(2, e), m);
      var u, v := x * Pow(2, e - 1), y * Pow(2, e - 1);
      assert x * Pow(2, e) == 2 * u && y * Pow(2, e) == 2 * v;
      assert 2 * (u - v) == k * m;
      ProductParity(k, m);
      var h := k / 2;
      assert k * m == 2 * (h * m);
      CongruentIntro(u, v, m, h);
      CancelPowerOfTwo(x, y, e - 1, m);
    }
  }
}
