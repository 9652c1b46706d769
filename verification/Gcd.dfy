// Binary greatest common divisor (HAC 14.54) and binary extended inverse (HAC 14.61 and 14.64).
module Gcd {
  import opened Numbers
  import opened Limbs
  import opened Bits
  import opened Bignum

  // d divides both numbers.
  ghost predicate Common(d: int, m: int, n: int)
    requires d > 0
  {
    Divides(d, m) && Divides(d, n)
  }

  // The pairs (m, n) and (u, v) have the same common divisors once the second is scaled by c.
  ghost predicate SameDivisors(m: int, n: int, u: int, v: int, c: int) {
    forall d :: d > 0 ==> (Common(d, m, n) <==> Common(d, c * u, c * v))
  }

  // Halving one number while the other is odd keeps the common divisors.
  lemma HalveKeeps(m: int, n: int, u: int, v: int, c: int, k: nat)
    requires SameDivisors(m, n, u, v, c) && v % 2 == 1 && u % Pow(2, k) == 0
    ensures SameDivisors(m, n, u / Pow(2, k), v, c)
  {
    var w := u / Pow(2, k);
    assert u == w * Pow(2, k);
    forall d | d > 0
      ensures Common(d, m, n) <==> Common(d, c * w, c * v)
    {
      DivisorOfScaled(d, c, w, v, k);
    }
  }

  lemma DivisorOfScaled(d: int, c: int, w: int, v: int, k: nat)
    requires d > 0 && v % 2 == 1
    ensures Common(d, c * (w * Pow(2, k)), c * v) <==> Common(d, c * w, c * v)
    decreases k
  {
    if k > 0 {
      var u := w * Pow(2, k - 1);
      assert w * Pow(2, k) == 2 * u;
      DivisorOfDouble(d, c, u, v);
      DivisorOfScaled(d, c, w, v, k - 1);
    }
  }

  // With v = 2h + 1: u = v * u - h * (2u).
  lemma DivisorOfDouble(d: int, c: int, u: int, v: int)
    requires d > 0 && v % 2 == 1
    ensures Common(d, c * (2 * u), c * v) <==> Common(d, c * u, c * v)
  {
    var h := v / 2;
    assert v == 2 * h + 1;
    if Common(d, c * (2 * u), c * v) {
      DividesCombination(d, c * v, c * (2 * u), u, -h);
      assert u * (c * (2 * h + 1)) + (-h) * (c * (2 * u)) == c * u;
    }
    if Common(d, c * u, c * v) {
      DividesCombination(d, c * u, c * u, 2, 0);
      assert 2 * (c * u) + 0 * (c * u) == c * (2 * u);
    }
  }

  lemma SubtractKeeps(m: int, n: int, u: int, v: int, c: int)
    requires SameDivisors(m, n, u, v, c)
    ensures SameDivisors(m, n, u - v, v, c)
  {
    Distribute(c, u, v);
    forall d | d > 0
      ensures Common(d, m, n) <==> Common(d, c * (u - v), c * v)
    {
      if Common(d, c * u, c * v) {
        DividesCombination(d, c * u, c * v, 1, -1);
      }
      if Common(d, c * (u - v), c * v) {
        DividesCombination(d, c * (u - v), c * v, 1, 1);
      }
    }
  }

  lemma SwapKeeps(m: int, n: int, u: int, v: int, c: int)
    requires SameDivisors(m, n, u, v, c)
    ensures SameDivisors(m, n, v, u, c)
  {
    forall d | d > 0
      ensures Common(d, m, n) <==> Common(d, c * v, c * u)
    {
    }
  }

  lemma ZeroKeeps(m: int, n: int, v: int, c: int)
    requires SameDivisors(m, n, 0, v, c) && c * v > 0
    ensures IsGcd(c * v, m, n)
  {
    var g := c * v;
    DividesIntro(g, g, 1);
    assert c * 0 == 0;
    DividesIntro(g, 0, 0);
    assert Common(g, c * 0, c * v);
    forall d | d > 0 && Divides(d, m) && Divides(d, n)
      ensures Divides(d, g)
    {
      assert Common(d, m, n);
    }
  }

  lemma StartDivisors(m: nat, n: nat, k: nat)
    requires m % Pow(2, k) == 0 && n % Pow(2, k) == 0
    ensures SameDivisors(m, n, m / Pow(2, k), n / Pow(2, k), Pow(2, k))
  {
    var c := Pow(2, k);
    assert c * (m / c) == m && c * (n / c) == n;
  }

  lemma OddPart(v: nat, k: nat)
    requires v % Pow(2, k) == 0 && BitAt(v, k) == 1
    ensures (v / Pow(2, k)) % 2 == 1 && 0 < v / Pow(2, k) <= v
  {
    var w := v / Pow(2, k);
    assert v == w * Pow(2, k);
    MulMonotone(w, 1, Pow(2, k));
  }

  // Dividing both numbers by the smaller power of two leaves one of them odd.
  lemma StripCommon(m: nat, n: nat, j: nat, k: nat, lz: nat)
    requires n != 0 && lz == if k < j then k else j
    requires m == 0 ==> j == 0
    requires m != 0 ==> m % Pow(2, j) == 0 && BitAt(m, j) == 1
    requires n % Pow(2, k) == 0 && BitAt(n, k) == 1
    ensures SameDivisors(m, n, m / Pow(2, lz), n / Pow(2, lz), Pow(2, lz))
    ensures n / Pow(2, lz) > 0
    ensures m != 0 ==> (m / Pow(2, lz)) % 2 == 1 || (n / Pow(2, lz)) % 2 == 1
  {
    hide Pow;
    SmallerPower(n, k, lz);
    if m != 0 {
      SmallerPower(m, j, lz);
      OddPart(m, j);
    }
    OddPart(n, k);
    PositiveQuotient(n, Pow(2, lz));
    StartDivisors(m, n, lz);
  }

  lemma PositiveQuotient(n: int, c: int)
    requires n > 0 && c > 0 && n % c == 0
    ensures n / c > 0
  {
  }

  lemma SmallerPower(v: nat, k: nat, lz: nat)
    requires v % Pow(2, k) == 0 && lz <= k
    ensures v % Pow(2, lz) == 0
  {
    hide Pow;
    var w := v / Pow(2, k);
    PowAdd(2, lz, k - lz);
    Commute(Pow(2, lz), Pow(2, k - lz));
    MulAssoc(w, Pow(2, k - lz), Pow(2, lz));
    DividesIntro(Pow(2, lz), v, w * Pow(2, k - lz));
  }

  // The loop invariant: TB stays positive, one number is odd, and scaled by c they keep the divisors.
  ghost predicate GcdInvariant(m: nat, n: nat, u: nat, v: nat, c: nat) {
    && v > 0
    && (u != 0 ==> u % 2 == 1 || v % 2 == 1)
    && SameDivisors(m, n, u, v, c)
  }

  // Stripping the factors two of both numbers.
  lemma StripStep(m: nat, n: nat, u: nat, v: nat, c: nat, j: nat, k: nat)
    requires GcdInvariant(m, n, u, v, c) && u != 0
    requires u % Pow(2, j) == 0 && BitAt(u, j) == 1
    requires v % Pow(2, k) == 0 && BitAt(v, k) == 1
    ensures SameDivisors(m, n, u / Pow(2, j), v / Pow(2, k), c)
    ensures (u / Pow(2, j)) % 2 == 1 && (v / Pow(2, k)) % 2 == 1
    ensures 0 < v / Pow(2, k) <= v && 0 < u / Pow(2, j) <= u
  {
    OddPart(u, j);
    OddPart(v, k);
    if v % 2 == 1 {
      HalveKeeps(m, n, u, v, c, j);
    } else {
      OddHasNoFactor(u, j);
    }
    var w := u / Pow(2, j);
    SwapKeeps(m, n, w, v, c);
    HalveKeeps(m, n, v, w, c, k);
    SwapKeeps(m, n, v / Pow(2, k), w, c);
  }

  lemma OddHasNoFactor(u: nat, j: nat)
    requires u % 2 == 1 && u % Pow(2, j) == 0
    ensures Pow(2, j) == 1
  {
    ProductParity(u / Pow(2, j), Pow(2, j));
    assert u == (u / Pow(2, j)) * Pow(2, j);
    assert Pow(2, j) % 2 == 1;
  }

  // Subtracting the smaller odd number and halving.
  lemma SubtractStep(m: nat, n: nat, u: nat, v: nat, c: nat)
    requires SameDivisors(m, n, u, v, c) && u % 2 == 1 && v % 2 == 1 && v > 0 && u > 0
    ensures u >= v ==> GcdInvariant(m, n, (u - v) / Pow(2, 1), v, c) && (u - v) / Pow(2, 1) < u
    ensures u < v ==> GcdInvariant(m, n, u, (v - u) / Pow(2, 1), c) && (v - u) / Pow(2, 1) < v
  {
    assert Pow(2, 1) == 2;
    if u >= v {
      SubtractKeeps(m, n, u, v, c);
      HalveKeeps(m, n, u - v, v, c, 1);
    } else {
      SwapKeeps(m, n, u, v, c);
      SubtractKeeps(m, n, v, u, c);
      HalveKeeps(m, n, v - u, u, c, 1);
      SwapKeeps(m, n, (v - u) / Pow(2, 1), u, c);
    }
  }

  lemma FinishGcd(m: nat, n: nat, v: nat, c: nat)
    requires GcdInvariant(m, n, 0, v, c) && c > 0
    ensures IsGcd(v * c, m, n)
  {
    hide IsGcd, SameDivisors;
    Commute(v, c);
    assert c * v > 0;
    ZeroKeeps(m, n, v, c);
  }

  lemma ZeroQuotient(c: int)
    requires c > 0
    ensures 0 / c == 0 && 0 * c == 0
  {
  }

  // One pass of the loop: strip the factors two, then replace the larger number by half the difference.
  method GcdStep(ta: Mpi, tb: Mpi, ghost m: nat, ghost n: nat, ghost c: nat) returns (ret: Status)
    requires ta != tb && ta.s == 1 && tb.s == 1 && ta.Abs() > 0
    requires n != 0 ==> GcdInvariant(m, n, ta.Abs(), tb.Abs(), c)
    requires n == 0 ==> tb.Abs() == 0
    modifies ta, tb
    ensures ret.Fail? ==> ret.code == AllocFailed
    ensures ret.Ok? ==> ta.s == 1 && tb.s == 1 && ta.Abs() + tb.Abs() < old(ta.Abs() + tb.Abs())
    ensures ret.Ok? && n != 0 ==> GcdInvariant(m, n, ta.Abs(), tb.Abs(), c)
    ensures ret.Ok? && n == 0 ==> tb.Abs() == 0
  {
    hide Pow, Val, SameDivisors, BitAt;
    var j := ta.Lsb();
    ghost var u0, v0 := ta.Abs(), tb.Abs();
    :- ta.ShiftR(j);
    var k := tb.Lsb();
    OddPart(u0, j);
    ZeroQuotient(Pow(2, k));
    if n != 0 { StripStep(m, n, u0, v0, c, j, k); }
    :- tb.ShiftR(k);
    ghost var u, v := ta.Abs(), tb.Abs();
    if n != 0 { SubtractStep(m, n, u, v, c); }
    SignTimes(1, u);
    SignTimes(1, v);
    Halves(u);
    var order := ta.Cmp(tb);
    if order >= 0 {
      :- ta.SubAbs(ta, tb);
      :- ta.ShiftR(1);
    } else {
      :- tb.SubAbs(tb, ta);
      :- tb.ShiftR(1);
    }
    return Ok;
  }

  lemma Halves(u: nat)
    requires u > 0
    ensures u / Pow(2, 1) < u
  {
  }

  // G = gcd(A, B), for every aliasing. With a zero second operand the code returns zero,
  // which is the greatest common divisor of nothing but zeros.
  method GcdMpi(g: Mpi, a: Mpi, b: Mpi) returns (ret: Status)
    modifies g
    ensures ret.Fail? ==> ret.code == AllocFailed
    ensures ret.Ok? && old(b.Abs()) != 0 ==> IsGcd(g.Value(), old(a.Abs()), old(b.Abs()))
    ensures ret.Ok? && old(b.Abs()) == 0 ==> g.Value() == 0
  {
    hide Pow, Val, SameDivisors, IsGcd, BitAt;
    ghost var m, n := a.Abs(), b.Abs();
    var ta := new Mpi();
    var tb := new Mpi();
    :- ta.Copy(a);
    :- tb.Copy(b);
    var lz := ta.Lsb();
    var lzt := tb.Lsb();
    ghost var la := lz;
    if lzt < lz {
      lz := lzt;
    }
    if n != 0 { StripCommon(m, n, la, lzt, lz); }
    ZeroQuotient(Pow(2, lz));
    :- ta.ShiftR(lz);
    :- tb.ShiftR(lz);
    ta.s, tb.s := 1, 1;
    ghost var c := Pow(2, lz);
    SignTimes(1, ta.Abs());
    var zero := ta.CmpInt(0);
    while zero != 0
      invariant zero == Compare(ta.Value(), 0)
      invariant ta.s == 1 && tb.s == 1 && ta.Value() == ta.Abs()
      invariant n != 0 ==> GcdInvariant(m, n, ta.Abs(), tb.Abs(), c)
      invariant n == 0 ==> tb.Abs() == 0
      decreases ta.Abs() + tb.Abs()
    {
      :- GcdStep(ta, tb, m, n, c);
      SignTimes(1, ta.Abs());
      zero := ta.CmpInt(0);
    }
    if n != 0 { FinishGcd(m, n, tb.Abs(), c); }
    :- tb.ShiftL(lz);
    SignTimes(1, tb.Abs());
    :- g.Copy(tb);
    return Ok;
  }
}
