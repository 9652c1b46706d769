// The binary extended Euclidean inverse (HAC 14.61 and 14.64).
module Inverse {
  import opened Numbers
  import opened Limbs
  import opened Words
  import opened Bignum
  import Division
  import Gcd

  // t = x * a + y * b.
  ghost predicate Bezout(t: int, x: int, y: int, a: int, b: int) {
    x * a + y * b == t
  }

  // Common divisors of the working pair divide the starting pair.
  ghost predicate Descends(u: int, v: int, a: int, b: int) {
    forall d :: d > 0 && Divides(d, u) && Divides(d, v) ==> Divides(d, a) && Divides(d, b)
  }

  // One of the numbers is odd, as it is when they are coprime.
  ghost predicate NotBothEven(a: int, b: int) {
    a % 2 == 1 || b % 2 == 1
  }

  // If the combination is even but a coefficient is odd, adding (b, -a) makes both coefficients even.
  lemma CoefficientsTurnEven(t: int, x: int, y: int, a: int, b: int)
    requires Bezout(t, x, y, a, b) && t % 2 == 0 && NotBothEven(a, b)
    requires x % 2 == 1 || y % 2 == 1
    ensures (x + b) % 2 == 0 && (y - a) % 2 == 0
    ensures Bezout(t, x + b, y - a, a, b)
  {
    ProductParity(x, a);
    ProductParity(y, b);
    ParityCases(x, y, a, b, x * a, y * b);
    ExchangeTerms(x, y, a, b);
  }

  lemma ParityCases(x: int, y: int, a: int, b: int, xa: int, yb: int)
    requires xa % 2 == (x % 2) * (a % 2) && yb % 2 == (y % 2) * (b % 2)
    requires (xa + yb) % 2 == 0 && NotBothEven(a, b) && (x % 2 == 1 || y % 2 == 1)
    ensures (x + b) % 2 == 0 && (y - a) % 2 == 0
  {
    var i, j, k, l := x % 2, y % 2, a % 2, b % 2;
    if k == 0 { assert i * k == 0 && l == 1; }
    if l == 0 { assert j * l == 0 && k == 1; }
  }

  lemma ExchangeTerms(x: int, y: int, a: int, b: int)
    ensures (x + b) * a + (y - a) * b == x * a + y * b
  {
  }

  lemma HalveBezout(t: int, x: int, y: int, a: int, b: int)
    requires Bezout(t, x, y, a, b) && t % 2 == 0 && x % 2 == 0 && y % 2 == 0
    ensures Bezout(t / 2, x / 2, y / 2, a, b)
  {
    var i, j := x / 2, y / 2;
    assert x == 2 * i && y == 2 * j;
    assert x * a + y * b == 2 * (i * a + j * b);
  }

  lemma SubtractBezout(t: int, x: int, y: int, u: int, v: int, w: int, a: int, b: int)
    requires Bezout(t, x, y, a, b) && Bezout(u, v, w, a, b)
    ensures Bezout(t - u, x - v, y - w, a, b)
  {
    assert (x - v) * a == x * a - v * a;
    assert (y - w) * b == y * b - w * b;
  }

  lemma HalfDivides(u: int, v: int, a: int, b: int)
    requires Descends(u, v, a, b) && u % 2 == 0
    ensures Descends(u / 2, v, a, b)
  {
    forall d | d > 0 && Divides(d, u / 2) && Divides(d, v)
      ensures Divides(d, a) && Divides(d, b)
    {
      DividesCombination(d, u / 2, u / 2, 2, 0);
      assert 2 * (u / 2) + 0 * (u / 2) == u;
    }
  }

  lemma SwapDescends(u: int, v: int, a: int, b: int)
    requires Descends(u, v, a, b)
    ensures Descends(v, u, a, b)
  {
  }

  lemma SubtractDescends(u: int, v: int, a: int, b: int)
    requires Descends(u, v, a, b)
    ensures Descends(u - v, v, a, b)
  {
    forall d | d > 0 && Divides(d, u - v) && Divides(d, v)
      ensures Divides(d, a) && Divides(d, b)
    {
      DividesCombination(d, u - v, v, 1, 1);
    }
  }

  // Halving an even magnitude halves the signed value.
  lemma HalfValue(s: Sign, p: seq<Limb>, s1: Sign, q: seq<Limb>)
    requires |p| > 0 && (s * Val(p)) % 2 == 0
    requires Val(q) == Val(p) / Pow(2, 1) && (s1 == s || (s1 == 1 && Val(q) == 0))
    ensures s1 * Val(q) == (s * Val(p)) / 2
  {
    assert Pow(2, 1) == 2;
    SignTimes(s, Val(p));
    SignTimes(s1, Val(q));
    SignTimes(s, Val(q));
  }

  lemma LowBit(s: Sign, p: seq<Limb>)
    requires |p| > 0
    ensures (s * Val(p)) % 2 == p[0] % 2
  {
    hide Val;
    ValParity(p);
    SignTimes(s, Val(p));
    NegativeParity(Val(p));
  }

  lemma NegativeParity(v: int)
    ensures (-v) % 2 == v % 2
  {
  }

  // x := x / 2 for an even value.
  method Halve(x: Mpi) returns (ret: Status)
    requires |x.p| > 0 && x.Value() % 2 == 0
    modifies x
    ensures ret.Fail? ==> ret.code == AllocFailed
    ensures ret.Ok? ==> |x.p| > 0 && x.Value() == old(x.Value()) / 2
  {
    hide Val, Pow;
    :- x.ShiftR(1);
    HalfValue(old(x.s), old(x.p), x.s, x.p);
    return Ok;
  }

  // Divide t by its factors two, keeping t = u1 * a + u2 * b with integer coefficients.
  method StripTwos(t: Mpi, u1: Mpi, u2: Mpi, a: Mpi, b: Mpi, ghost v: int) returns (ret: Status)
    requires t != u1 && t != u2 && t != a && t != b && u1 != u2 && u1 != a && u1 != b && u2 != a && u2 != b
    requires |t.p| > 0 && |u1.p| > 0 && |u2.p| > 0 && |a.p| > 0 && |b.p| > 0
    requires t.Value() > 0 && NotBothEven(a.Value(), b.Value())
    requires Bezout(t.Value(), u1.Value(), u2.Value(), a.Value(), b.Value())
    requires Descends(t.Value(), v, a.Value(), b.Value())
    modifies t, u1, u2
    ensures ret.Fail? ==> ret.code == AllocFailed
    ensures ret.Ok? ==> |t.p| > 0 && |u1.p| > 0 && |u2.p| > 0
    ensures ret.Ok? ==> 0 < t.Value() <= old(t.Value()) && t.Value() % 2 == 1
    ensures ret.Ok? ==> Bezout(t.Value(), u1.Value(), u2.Value(), a.Value(), b.Value())
    ensures ret.Ok? ==> Descends(t.Value(), v, a.Value(), b.Value())
  {
    hide Val, Pow, Bezout, Descends;
    LowBit(t.s, t.p);
    while t.p[0] % 2 == 0
      invariant |t.p| > 0 && |u1.p| > 0 && |u2.p| > 0
      invariant t.p[0] % 2 == t.Value() % 2
      invariant 0 < t.Value() <= old(t.Value())
      invariant Bezout(t.Value(), u1.Value(), u2.Value(), a.Value(), b.Value())
      invariant Descends(t.Value(), v, a.Value(), b.Value())
      decreases t.Value()
    {
      ghost var t0 := t.Value();
      HalfDivides(t0, v, a.Value(), b.Value());
      :- Halve(t);
      LowBit(u1.s, u1.p);
      LowBit(u2.s, u2.p);
      if u1.p[0] % 2 != 0 || u2.p[0] % 2 != 0 {
        CoefficientsTurnEven(t0, u1.Value(), u2.Value(), a.Value(), b.Value());
        :- u1.Add(u1, b);
        :- u2.Sub(u2, a);
      }
      HalveBezout(t0, u1.Value(), u2.Value(), a.Value(), b.Value());
      :- Halve(u1);
      :- Halve(u2);
      LowBit(t.s, t.p);
    }
    return Ok;
  }

  // t -= v together with its coefficients.
  method SubtractAll(t: Mpi, u1: Mpi, u2: Mpi, v: Mpi, v1: Mpi, v2: Mpi, ghost a: int, ghost b: int) returns (ret: Status)
    requires t != u1 && t != u2 && t != v && t != v1 && t != v2
    requires u1 != u2 && u1 != v && u1 != v1 && u1 != v2 && u2 != v && u2 != v1 && u2 != v2
    requires |t.p| > 0 && |u1.p| > 0 && |u2.p| > 0 && |v.p| > 0 && |v1.p| > 0 && |v2.p| > 0
    requires Bezout(t.Value(), u1.Value(), u2.Value(), a, b)
    requires Bezout(v.Value(), v1.Value(), v2.Value(), a, b)
    requires Descends(t.Value(), v.Value(), a, b)
    modifies t, u1, u2
    ensures ret.Fail? ==> ret.code == AllocFailed
    ensures ret.Ok? ==> |t.p| > 0 && |u1.p| > 0 && |u2.p| > 0
    ensures ret.Ok? ==> t.Value() == old(t.Value()) - v.Value()
    ensures ret.Ok? ==> Bezout(t.Value(), u1.Value(), u2.Value(), a, b)
    ensures ret.Ok? ==> Descends(t.Value(), v.Value(), a, b)
  {
    hide Val, Pow, Bezout, Descends;
    SubtractBezout(t.Value(), u1.Value(), u2.Value(), v.Value(), v1.Value(), v2.Value(), a, b);
    SubtractDescends(t.Value(), v.Value(), a, b);
    :- t.Sub(t, v);
    :- u1.Sub(u1, v1);
    :- u2.Sub(u2, v2);
    return Ok;
  }

  // ---------------------------------------------------------------- the result

  // x is the inverse of a modulo n: the one number in [0, n) with a * x congruent to 1.
  ghost predicate IsInverse(x: int, a: int, n: int)
    requires n > 0
  {
    0 <= x < n && Congruent(a * x, 1, n)
  }

  lemma InverseUnique(x: int, y: int, a: int, n: int)
    requires n > 0 && IsInverse(x, a, n) && IsInverse(y, a, n)
    ensures x == y
  {
    // x == x * (a * y) == y * (a * x) == y modulo n
    CongruentIntro(x, x, n, 0);
    CongruentIntro(y, y, n, 0);
    CongruentMul(x, x, a * y, 1, n);
    CongruentMul(y, y, a * x, 1, n);
    assert x * (a * y) == y * (a * x);
    CongruentSymmetric(x * (a * y), x, n);
    CongruentTransitive(x, y * (a * x), y, n);
    CongruentResidue(x, y, n);
    DivModUnique(y, n, 0, y);
  }

  lemma AbsDivides(d: int, s: Sign, v: nat)
    requires d > 0
    ensures Divides(d, s * v) <==> Divides(d, v)
  {
    SignTimes(s, v);
    if Divides(d, v) { DividesCombination(d, v, v, s, 0); }
    if Divides(d, s * v) { DividesCombination(d, s * v, s * v, s, 0); assert s * (s * v) == v; }
  }

  // Coprime operands: the residue is positive, not both numbers are even, and the starting pair descends to 1.
  lemma CoprimeStart(s: Sign, v: nat, n: int, a: int)
    requires n > 1 && IsGcd(1, v, n) && a == (s * v) % n
    ensures 0 < a < n && NotBothEven(a, n)
    ensures forall d :: d > 0 && Divides(d, a) && Divides(d, n) ==> d == 1
  {
    forall d | d > 0 && Divides(d, a) && Divides(d, n)
      ensures d == 1
    {
      var q := (s * v) / n;
      DividesCombination(d, a, n, 1, q);
      DivModSplit(s * v, n);
      Commute(n, q);
      AbsDivides(d, s, v);
      assert Divides(d, 1);
    }
    DividesIntro(n, n, 1);
    assert a == 0 ==> Divides(n, a) by { DividesIntro(n, 0, 0); }
    if a % 2 == 0 && n % 2 == 0 {
      assert Divides(2, a) && Divides(2, n);
    }
  }

  // When the first number has run out, the second one is the common divisor.
  lemma RunOut(v: int, a: int, n: int)
    requires v > 0 && Descends(0, v, a, n)
    requires forall d :: d > 0 && Divides(d, a) && Divides(d, n) ==> d == 1
    ensures v == 1
  {
    DividesIntro(v, 0, 0);
    DividesIntro(v, v, 1);
  }

  lemma BezoutInverse(x: int, y: int, a: int, n: int, value: int)
    requires n > 0 && Bezout(1, x, y, a, n) && a == value % n
    ensures Congruent(value * x, 1, n)
  {
    CongruentIntro(a * x, 1, n, -y);
    CongruentMod(value, n);
    CongruentSymmetric(a, value, n);
    CongruentIntro(x, x, n, 0);
    CongruentMul(value, a, x, x, n);
    CongruentTransitive(value * x, a * x, 1, n);
  }

  lemma ShiftInverse(x: int, k: int, a: int, n: int)
    requires n > 0 && Congruent(a * x, 1, n)
    ensures Congruent(a * (x + k * n), 1, n)
  {
    var j := CongruentWitness(a * x, 1, n);
    assert a * (x + k * n) == 1 + (j + a * k) * n by {
      assert a * (k * n) == (a * k) * n;
    }
    CongruentIntro(a * (x + k * n), 1, n, j + a * k);
  }

  // The inputs for which an inverse exists.
  ghost predicate Invertible(a: nat, n: int) {
    n > 1 && IsGcd(1, a, n)
  }

  // One round of the main loop on the working pairs (tu, u1, u2) and (tv, v1, v2).
  method Round(tu: Mpi, u1: Mpi, u2: Mpi, tv: Mpi, v1: Mpi, v2: Mpi, ta: Mpi, tb: Mpi) returns (ret: Status)
    requires Distinct([tu, u1, u2, tv, v1, v2, ta, tb])
    requires Loaded(tu, u1, u2, ta, tb) && Loaded(tv, v1, v2, ta, tb)
    requires tu.Value() > 0 && tv.Value() > 0 && NotBothEven(ta.Value(), tb.Value())
    requires Descends(tu.Value(), tv.Value(), ta.Value(), tb.Value())
    modifies tu, u1, u2, tv, v1, v2
    ensures ret.Fail? ==> ret.code == AllocFailed
    ensures ret.Ok? ==> Loaded(tu, u1, u2, ta, tb) && Loaded(tv, v1, v2, ta, tb)
    ensures ret.Ok? ==> tu.Value() >= 0 && tv.Value() > 0
    ensures ret.Ok? ==> tu.Value() + tv.Value() < old(tu.Value() + tv.Value())
    ensures ret.Ok? ==> Descends(tu.Value(), tv.Value(), ta.Value(), tb.Value())
  {
    hide Val, Pow, Bezout, Descends;
    ghost var a, b := ta.Value(), tb.Value();
    DistinctEight(tu, u1, u2, tv, v1, v2, ta, tb);
    :- StripTwos(tu, u1, u2, ta, tb, tv.Value());
    SwapDescends(tu.Value(), tv.Value(), a, b);
    :- StripTwos(tv, v1, v2, ta, tb, tu.Value());
    SwapDescends(tv.Value(), tu.Value(), a, b);
    var order := tu.Cmp(tv);
    if order >= 0 {
      :- SubtractAll(tu, u1, u2, tv, v1, v2, a, b);
    } else {
      :- SubtractAll(tv, v1, v2, tu, u1, u2, a, b);
      SwapDescends(tv.Value(), tu.Value(), a, b);
    }
    return Ok;
  }

  // The main loop, until nothing is left of tu.
  method Rounds(tu: Mpi, u1: Mpi, u2: Mpi, tv: Mpi, v1: Mpi, v2: Mpi, ta: Mpi, tb: Mpi) returns (ret: Status)
    requires Distinct([tu, u1, u2, tv, v1, v2, ta, tb])
    requires Loaded(tu, u1, u2, ta, tb) && Loaded(tv, v1, v2, ta, tb)
    requires tu.Value() > 0 && tv.Value() > 0 && NotBothEven(ta.Value(), tb.Value())
    requires Descends(tu.Value(), tv.Value(), ta.Value(), tb.Value())
    modifies tu, u1, u2, tv, v1, v2
    ensures ret.Fail? ==> ret.code == AllocFailed
    ensures ret.Ok? ==> tu.Value() == 0 && tv.Value() > 0 && Loaded(tv, v1, v2, ta, tb)
    ensures ret.Ok? ==> Descends(0, tv.Value(), ta.Value(), tb.Value())
  {
    hide Val, Pow, Bezout, Descends, NotBothEven;
    ghost var a, b := ta.Value(), tb.Value();
    DistinctEight(tu, u1, u2, tv, v1, v2, ta, tb);
    var more := true;
    while more
      invariant Loaded(tu, u1, u2, ta, tb) && Loaded(tv, v1, v2, ta, tb)
      invariant ta.Value() == a && tb.Value() == b
      invariant tu.Value() >= 0 && tv.Value() > 0 && (more <==> tu.Value() != 0)
      invariant Descends(tu.Value(), tv.Value(), a, b)
      decreases tu.Value() + tv.Value()
    {
      :- Round(tu, u1, u2, tv, v1, v2, ta, tb);
      var zero := tu.CmpInt(0);
      more := zero != 0;
    }
    return Ok;
  }

  ghost predicate Distinct(xs: seq<Mpi>) {
    forall i, j :: 0 <= i < j < |xs| ==> xs[i] != xs[j]
  }

  lemma DistinctEight(a: Mpi, b: Mpi, c: Mpi, d: Mpi, e: Mpi, f: Mpi, g: Mpi, h: Mpi)
    requires Distinct([a, b, c, d, e, f, g, h])
    ensures a != b && a != c && a != d && a != e && a != f && a != g && a != h
    ensures b != c && b != d && b != e && b != f && b != g && b != h
    ensures c != d && c != e && c != f && c != g && c != h
    ensures d != e && d != f && d != g && d != h
    ensures e != f && e != g && e != h && f != g && f != h && g != h
  {
    var xs := [a, b, c, d, e, f, g, h];
    assert xs[0] == a && xs[1] == b && xs[2] == c && xs[3] == d && xs[4] == e && xs[5] == f && xs[6] == g && xs[7] == h;
  }

  // t with its Bezout coefficients, none of the vectors empty.
  ghost predicate Loaded(t: Mpi, x: Mpi, y: Mpi, a: Mpi, b: Mpi)
    reads t, x, y, a, b
  {
    && |t.p| > 0 && |x.p| > 0 && |y.p| > 0 && |a.p| > 0 && |b.p| > 0
    && Bezout(t.Value(), x.Value(), y.Value(), a.Value(), b.Value())
  }

  // Bring a coefficient into [0, N) by adding or subtracting N.
  method Reduce(v: Mpi, n: Mpi, ghost a: int) returns (ret: Status)
    requires v != n && |v.p| > 0 && |n.p| > 0 && n.Value() > 0
    requires Congruent(a * v.Value(), 1, n.Value())
    modifies v
    ensures ret.Fail? ==> ret.code == AllocFailed
    ensures ret.Ok? ==> IsInverse(v.Value(), a, n.Value())
  {
    hide Val, Pow, Congruent;
    ghost var m := n.Value();
    var sign := v.CmpInt(0);
    while sign < 0
      invariant |v.p| > 0 && sign == Compare(v.Value(), 0)
      invariant Congruent(a * v.Value(), 1, m)
      decreases -v.Value()
    {
      ShiftInverse(v.Value(), 1, a, m);
      :- v.Add(v, n);
      sign := v.CmpInt(0);
    }
    var order := v.Cmp(n);
    while order >= 0
      invariant |v.p| > 0 && order == Compare(v.Value(), m) && v.Value() >= 0
      invariant Congruent(a * v.Value(), 1, m)
      decreases v.Value()
    {
      ShiftInverse(v.Value(), -1, a, m);
      :- v.Sub(v, n);
      order := v.Cmp(n);
    }
    return Ok;
  }

  // X = A^-1 mod N, for every aliasing. Refused as bad input exactly for N <= 1, and as not
  // acceptable only if A and N are not coprime; a success means they are.
  method InvMod(x: Mpi, a: Mpi, n: Mpi) returns (ret: Status)
    modifies x
    ensures old(n.Value()) <= 1 <==> ret == Fail(BadInputData)
    ensures ret == Fail(NotAcceptable) ==> old(n.Value()) > 1 && !Invertible(old(a.Abs()), old(n.Value()))
    ensures ret.Fail? ==> ret.code in {BadInputData, NotAcceptable, AllocFailed}
    ensures ret.Ok? ==> Invertible(old(a.Abs()), old(n.Value()))
    ensures ret.Ok? ==> IsInverse(x.Value(), old(a.Value()), old(n.Value()))
  {
    hide Val, Pow, Bezout, Descends, IsGcd, IsInverse, Congruent;
    SmallWords();
    var order := n.CmpInt(1);
    if order <= 0 {
      return Fail(BadInputData);
    }
    SignTimes(n.s, n.Abs());
    ghost var av, nv := a.Value(), n.Value();
    var g := new Mpi();
    :- Gcd.GcdMpi(g, a, n);
    order := g.CmpInt(1);
    if order != 0 {
      OneGcd(g.Value(), a.Abs(), nv);
      return Fail(NotAcceptable);
    }
    var ta := new Mpi();
    :- Division.ModMpi(ta, a, n);
    CoprimeStart(a.s, a.Abs(), nv, ta.Value());
    NonEmpty(ta.s, ta.p);
    NonEmpty(n.s, n.p);
    var v1 := new Mpi();
    :- ExtendedEuclid(v1, ta, n);
    BezoutInverseAt(v1.Value(), ta.Value(), nv, av);
    :- Reduce(v1, n, av);
    :- x.Copy(v1);
    return Ok;
  }

  lemma OneGcd(g: int, a: nat, n: int)
    requires IsGcd(g, a, n) && g != 1
    ensures !IsGcd(1, a, n)
  {
    if IsGcd(1, a, n) {
      assert Divides(g, 1);
      DivModUnique(1, g, 0, 1);
    }
  }

  lemma NonEmpty(s: Sign, p: seq<Limb>)
    requires s * Val(p) != 0
    ensures |p| > 0
  {
    if p == [] { SignTimes(s, 0); }
  }

  lemma BezoutInverseAt(x: int, a: int, n: int, value: int)
    requires n > 0 && a == value % n && exists y :: Bezout(1, x, y, a, n)
    ensures Congruent(value * x, 1, n)
  {
    var y :| Bezout(1, x, y, a, n);
    BezoutInverse(x, y, a, n, value);
  }

  // The main loop: V1 becomes a coefficient x with x * TA + y * N == 1.
  method ExtendedEuclid(v1: Mpi, ta: Mpi, n: Mpi) returns (ret: Status)
    requires v1 != ta && v1 != n && ta != n && |ta.p| > 0 && |n.p| > 0
    requires ta.Value() > 0 && n.Value() > 0 && NotBothEven(ta.Value(), n.Value())
    requires forall d :: d > 0 && Divides(d, ta.Value()) && Divides(d, n.Value()) ==> d == 1
    modifies v1
    ensures ret.Fail? ==> ret.code == AllocFailed
    ensures ret.Ok? ==> |v1.p| > 0 && exists y :: Bezout(1, v1.Value(), y, ta.Value(), n.Value())
  {
    hide Val, Pow, Bezout, Descends;
    ghost var a, b := ta.Value(), n.Value();
    var tu := new Mpi();
    var tb := new Mpi();
    var tv := new Mpi();
    var u1 := new Mpi();
    var u2 := new Mpi();
    var v2 := new Mpi();
    :- StartPairs(tu, u1, u2, tv, v1, v2, ta, tb, n);
    StartBezout(a, b);
    :- Rounds(tu, u1, u2, tv, v1, v2, ta, tb);
    RunOut(tv.Value(), a, b);
    assert Bezout(1, v1.Value(), v2.Value(), ta.Value(), n.Value());
    return Ok;
  }

  // TU = TA, TV = TB = N with the unit coefficients.
  method StartPairs(tu: Mpi, u1: Mpi, u2: Mpi, tv: Mpi, v1: Mpi, v2: Mpi, ta: Mpi, tb: Mpi, n: Mpi) returns (ret: Status)
    requires Distinct([tu, u1, u2, tv, v1, v2, ta, tb])
    requires n != tu && n != u1 && n != u2 && n != tv && n != v1 && n != v2 && n != tb
    requires |ta.p| > 0 && |n.p| > 0
    modifies tu, u1, u2, tv, v1, v2, tb
    ensures ret.Fail? ==> ret.code == AllocFailed
    ensures ret.Ok? ==> Loaded(tu, u1, u2, ta, tb) && Loaded(tv, v1, v2, ta, tb)
    ensures ret.Ok? ==> tu.Value() == ta.Value() && tv.Value() == tb.Value() == n.Value()
  {
    hide Val, Pow, Bezout;
    ghost var a, b := ta.Value(), n.Value();
    DistinctEight(tu, u1, u2, tv, v1, v2, ta, tb);
    SmallWords();
    :- tu.Copy(ta);
    :- tb.Copy(n);
    :- tv.Copy(n);
    :- u1.Lset(1);
    :- u2.Lset(0);
    :- v1.Lset(0);
    :- v2.Lset(1);
    StartBezout(a, b);
    return Ok;
  }

  lemma StartBezout(a: int, b: int)
    ensures Bezout(a, 1, 0, a, b) && Bezout(b, 0, 1, a, b) && Descends(a, b, a, b)
  {
  }
}
