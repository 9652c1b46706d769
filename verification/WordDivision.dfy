// Word-level helpers of division and of Montgomery arithmetic.
module WordDivision {
  import opened Numbers
  import opened Limbs
  import opened Words

  // Count the leading zero bits by walking a one-bit mask down.
  method Clz(x: Limb) returns (j: nat)
    ensures j <= BI_L
    ensures x < Pow(2, BI_L - j)
    ensures j < BI_L ==> Pow(2, BI_L - j - 1) <= x
    ensures j == BI_L <==> x == 0
  {
    var mask := Pow(2, BI_L - 1);
    j := 0;
    while j < BI_L
      invariant j <= BI_L
      invariant j < BI_L ==> mask == Pow(2, BI_L - 1 - j)
      invariant x < Pow(2, BI_L - j)
    {
      TopBit(x, mask);
      if (x / mask) % 2 == 1 {
        break;
      }
      mask := mask / 2;
      j := j + 1;
    }
  }

  lemma TopBit(x: int, mask: int)
    requires mask > 0 && 0 <= x < 2 * mask
    ensures (x / mask) % 2 == (if x >= mask then 1 else 0)
  {
    if x >= mask {
      DivModUnique(x, mask, 1, x - mask);
    } else {
      DivModUnique(x, mask, 0, x);
    }
  }

  // The estimate u / d1 is never below the true half-word quotient digit.
  lemma EstimateIsHigh(u: int, w: int, d1: int, d0: int, r: int, q: int)
    requires r > 0 && d1 > 0 && 0 <= d0 && 0 <= w < r && 0 <= u
    requires 0 <= q && q * (d1 * r + d0) <= u * r + w
    ensures q <= u / d1
  {
    assert q * (d1 * r + d0) == (q * d1) * r + q * d0;
    assert q * d0 >= 0;
    if q * d1 >= u + 1 {
      MulMonotone(r, u + 1, q * d1);
    }
    if u / d1 < q {
      MulMonotone(d1, u / d1 + 1, q);
      Distribute(d1, u / d1, 1);
    }
  }

  lemma EstimateIsSmall(u: int, d1: int, d0: int, r: int)
    requires r > 0 && 2 * d1 >= r && d1 > 0 && 0 <= d0 < r && 0 <= u < d1 * r + d0
    ensures u / d1 <= r + 1
  {
    var q := u / d1;
    if q >= r + 2 {
      MulMonotone(d1, r + 2, q);
      Distribute(d1, r, 2);
    }
  }

  // What the correction test says about the candidate digit.
  lemma CandidateTest(u: int, w: int, d1: int, d0: int, r: int, q: int, r0: int)
    requires u == q * d1 + r0
    ensures q * d0 > r * r0 + w <==> q * (d1 * r + d0) > u * r + w
  {
    assert q * (d1 * r + d0) == (q * d1) * r + q * d0;
    assert u * r == (q * d1) * r + r0 * r;
  }

  lemma DigitBelowRadix(u: int, w: int, d: int, r: int)
    requires r > 0 && 0 <= w < r && 0 <= u < d
    ensures 0 <= (u * r + w) / d < r
  {
    DigitBound(r, w, u, d);
    var q := (u * r + w) / d;
    assert u * r >= 0;
    if q >= r { MulMonotone(d, r, q); }
    if q < 0 { MulMonotone(d, q, -1); }
  }

  lemma DivCompare(n: int, d: int, q: int)
    requires d > 0
    ensures q * d <= n <==> q <= n / d
  {
    if q <= n / d { MulMonotone(d, q, n / d); }
    if q > n / d { MulMonotone(d, n / d + 1, q); Distribute(d, n / d, 1); }
  }

  // The half-word digit of (u, w) by (d1, d0).
  function TrueDigit(u: int, w: int, d1: int, d0: int, r: int): int {
    if d1 * r + d0 > 0 then (u * r + w) / (d1 * r + d0) else 0
  }

  // The candidate q leaves r0 of the high part.
  predicate Leaves(u: int, q: int, d1: int, r0: int) {
    u == q * d1 + r0
  }

  // The correction test.
  predicate TooBig(q: int, d0: int, r: int, r0: int, w: int) {
    q * d0 > r * r0 + w
  }

  // One step of the correction loop: the test holds exactly while the candidate is too large.
  lemma CorrectionStep(u: int, w: int, d1: int, d0: int, r: int, q: int, r0: int)
    requires u >= 0 && 0 <= w < r && d1 > 0 && 0 <= d0 < r && u < d1 * r + d0 && q >= 0
    requires Leaves(u, q, d1, r0)
    ensures TrueDigit(u, w, d1, d0, r) < r
    ensures TooBig(q, d0, r, r0, w) <==> q > TrueDigit(u, w, d1, d0, r)
    ensures Leaves(u, q - 1, d1, r0 + d1)
    ensures r <= r0 && q <= r ==> q <= TrueDigit(u, w, d1, d0, r)
  {
    ProductPositive(d1, r);
    DigitBelowRadix(u, w, d1 * r + d0, r);
    CandidateTest(u, w, d1, d0, r, q, r0);
    DivCompare(u * r + w, d1 * r + d0, q);
    NextLeaves(u, q, d1, r0);
    hide Leaves;
    if r <= r0 && q <= r { CandidateAfterBreak(q, d0, r0, w, r); }
  }

  lemma NextLeaves(u: int, q: int, d1: int, r0: int)
    requires Leaves(u, q, d1, r0)
    ensures Leaves(u, q - 1, d1, r0 + d1)
  {
    Distribute(d1, q, 1);
  }

  lemma ProductPositive(a: int, b: int)
    requires a > 0 && b > 0
    ensures a * b > 0
  {
  }

  // The first estimate: at least the digit and at most two more than the radix allows.
  lemma FirstEstimate(u: int, w: int, d1: int, d0: int, r: int)
    requires u >= 0 && 0 <= w < r && d1 > 0 && 2 * d1 >= r && 0 <= d0 < r && u < d1 * r + d0
    ensures 0 <= TrueDigit(u, w, d1, d0, r) <= u / d1 <= r + 1
    ensures Leaves(u, u / d1, d1, u - d1 * (u / d1)) && 0 <= u - d1 * (u / d1) < d1
  {
    ProductPositive(d1, r);
    DigitBelowRadix(u, w, d1 * r + d0, r);
    var q := TrueDigit(u, w, d1, d0, r);
    DivCompare(u * r + w, d1 * r + d0, q);
    hide TrueDigit;
    EstimateIsHigh(u, w, d1, d0, r, q);
    EstimateIsSmall(u, d1, d0, r);
    DivModSplit(u, d1);
    Commute(d1, u / d1);
  }

  // One half-word digit of Knuth's algorithm D: estimate from the top half-word and correct downwards.
  method QuotientDigit(u: nat, w: nat, d1: nat, d0: nat, radix: nat) returns (q: nat)
    requires 0 < radix <= 2 * d1 && d1 < radix && d0 < radix && w < radix
    requires u < d1 * radix + d0
    ensures q == TrueDigit(u, w, d1, d0, radix) && q < radix
  {
    hide TrueDigit, Leaves, TooBig;
    ghost var digit := TrueDigit(u, w, d1, d0, radix);
    FirstEstimate(u, w, d1, d0, radix);
    q := u / d1;
    var r0: nat := u - d1 * q;
    CorrectionStep(u, w, d1, d0, radix, q, r0);
    while q >= radix || TooBig(q, d0, radix, r0, w)
      invariant Leaves(u, q, d1, r0) && r0 < radix
      invariant digit <= q <= radix + 1
      decreases q
    {
      CorrectionStep(u, w, d1, d0, radix, q, r0);
      q := q - 1;
      r0 := r0 + d1;
      if r0 >= radix {
        break;
      }
    }
    CorrectionStep(u, w, d1, d0, radix, q, r0);
  }

  // The digit is an exact quotient.
  lemma DigitIsQuotient(u: nat, w: nat, d1: nat, d0: nat, radix: nat)
    requires d1 * radix + d0 > 0
    ensures TrueDigit(u, w, d1, d0, radix) == (u * radix + w) / (d1 * radix + d0)
  {
  }

  lemma HalfOfBase(d1: int, d0: int, r: int)
    requires r % 2 == 0 && 0 <= d0 < r && 0 <= d1 && 2 * (d1 * r + d0) >= r * r
    ensures 2 * d1 >= r
  {
    if 2 * d1 <= r - 2 {
      MulMonotone(r, 2 * d1, r - 2);
      Distribute(r, r, 2);
    }
  }

  lemma CandidateAfterBreak(q: int, d0: int, r0: int, w: int, r: int)
    requires 0 <= q <= r && 0 <= d0 < r <= r0 && 0 <= w
    ensures q * d0 <= r * r0 + w
  {
    MulMonotone(d0, q, r);
    MulMonotone(r, d0, r0);
  }

  // Scaling dividend and divisor by the same power of two, the dividend spread over two words.
  lemma Normalised(u1: int, u0: int, d: int, p: int, q: int, hi: int, lo: int, n1: int, n0: int, dn: int, base: int)
    requires p > 0 && q > 0 && p * q == base
    requires 0 <= u1 < d && 0 <= u0 < base && hi == u0 / q && lo == u0 % q
    requires n1 == u1 * p + hi && n0 == lo * p && dn == d * p
    ensures 0 <= n1 < dn
    ensures 0 <= n0 < base
    ensures n1 * base + n0 == (u1 * base + u0) * p
  {
    assert hi < p by {
      if hi >= p { MulMonotone(q, p, hi); }
    }
    DigitBound(p, hi, u1, d);
    MulStrict(p, lo, q);
    assert u1 * p >= 0;
    assert u0 == hi * q + lo;
    ScaleTwoWords(u1, hi, lo, p, q);
  }

  lemma ScaleTwoWords(u1: int, hi: int, lo: int, p: int, q: int)
    ensures (u1 * p + hi) * (p * q) + lo * p == (u1 * (p * q) + (hi * q + lo)) * p
  {
    assert (u1 * p) * (p * q) == (u1 * (p * q)) * p;
    assert hi * (p * q) == (hi * q) * p;
  }

  // Two half-word steps make a two-by-one division.
  lemma TwoSteps(u: int, m: int, l: int, d: int, r: int, q1: int, r1: int, q0: int, r2: int)
    requires r1 == u * r + m - q1 * d && r2 == r1 * r + l - q0 * d
    ensures u * (r * r) + (m * r + l) == (q1 * r + q0) * d + r2
  {
    assert r1 * r == (u * r) * r + m * r - (q1 * d) * r;
    MulAssoc(u, r, r);
    MulAssoc(q1, d, r);
    MulAssoc(q1, r, d);
    Commute(d, r);
    assert (q1 * r + q0) * d == (q1 * r) * d + q0 * d;
  }

  lemma ScaledDivision(n: int, d: int, p: int, q: int, rem: int)
    requires d > 0 && p > 0 && n * p == q * (d * p) + rem && 0 <= rem < d * p
    ensures q == n / d && rem / p == n % d
  {
    var r := n - q * d;
    assert rem == r * p by { assert (q * d) * p == q * (d * p); }
    MulStrict(p, r, d);
    if r < 0 { MulMonotone(p, r, -1); }
    DivModUnique(n, d, q, r);
    DivModUnique(rem, p, r, 0);
  }

  lemma ScaledBounds(d: int, p: int, lo: int, hi: int, base: int)
    requires p > 0 && 0 <= lo <= d < hi && hi * p == base && 2 * (lo * p) == base
    ensures 0 <= d * p < base <= 2 * (d * p)
  {
    MulStrict(p, d, hi);
    MulMonotone(p, lo, d);
  }

  lemma NormalisedDivisor(d: Limb, s: nat, p: int)
    requires s < BI_L && Pow(2, BI_L - s - 1) <= d < Pow(2, BI_L - s) && p == Pow(2, s)
    ensures 0 <= d * p < BASE <= 2 * (d * p)
  {
    PowAdd(2, BI_L - s, s);
    PowAdd(2, BI_L - s - 1, s);
    assert Pow(2, BI_L) == 2 * Pow(2, BI_L - 1);
    ScaledBounds(d, p, Pow(2, BI_L - s - 1), Pow(2, BI_L - s), BASE);
  }

  lemma TwoHalves(q1: int, q0: int)
    requires 0 <= q1 < RADIX && 0 <= q0 < RADIX
    ensures 0 <= q1 * RADIX + q0 < BASE
  {
    hide Pow;
    BaseFacts();
    DigitBound(RADIX, q0, q1, RADIX);
    Commute(RADIX, q1);
    assert RADIX * q1 >= 0;
  }

  // One half-word step in wrapping word arithmetic: a digit and the remainder that is left.
  method HalfStep(u: Limb, w: Limb, d: Limb) returns (q: Limb, rem: Limb)
    requires u < d && BASE <= 2 * d && w < RADIX
    ensures q == (u * RADIX + w) / d && q < RADIX
    ensures rem == u * RADIX + w - q * d && rem < d
  {
    hide Pow;
    BaseFacts();
    HalfFacts(d);
    var d1, d0 := High(d), Low(d);
    HalfOfBase(d1, d0, RADIX);
    q := QuotientDigit(u, w, d1, d0, RADIX);
    DigitIsQuotient(u, w, d1, d0, RADIX);
    RemainderOfDigit(u * RADIX + w, d, q);
    DivModUnique(u * RADIX + w - q * d, BASE, 0, u * RADIX + w - q * d);
    rem := (u * RADIX + (w - q * d)) % BASE;
  }

  lemma RemainderOfDigit(n: int, d: int, q: int)
    requires d > 0 && q == n / d
    ensures 0 <= n - q * d < d
  {
    DivModSplit(n, d);
    Commute(d, q);
  }

  // The two half-word steps on a divisor whose top bit is set.
  method DivideNormalised(u1: Limb, u0: Limb, d: Limb) returns (quotient: Limb, rem: Limb)
    requires u1 < d && BASE <= 2 * d
    ensures u1 * BASE + u0 == quotient * d + rem && rem < d
  {
    hide Pow;
    BaseFacts();
    HalfFacts(u0);
    var q1, rAX := HalfStep(u1, High(u0), d);
    var q0;
    q0, rem := HalfStep(rAX, Low(u0), d);
    TwoSteps(u1, High(u0), Low(u0), d, RADIX, q1, rAX, q0, rem);
    TwoHalves(q1, q0);
    hide High, Low;
    quotient := q1 * RADIX + q0;
  }

  // Division of the double word u1:u0 by d, without a double-word type.
  // When the quotient does not fit (or d is 0) both results are all ones.
  method DivideDouble(u1: Limb, u0: Limb, d: Limb) returns (quotient: Limb, rem: Limb)
    ensures u1 < d ==> quotient == (u1 * BASE + u0) / d && rem == (u1 * BASE + u0) % d
    ensures u1 >= d ==> quotient == rem == BASE - 1
  {
    hide Pow;
    if d == 0 || u1 >= d {
      return BASE - 1, BASE - 1;
    }
    var s := Clz(d);
    var p, q := Pow(2, s), Pow(2, BI_L - s);
    PowAdd(2, s, BI_L - s);
    NormalisedDivisor(d, s, p);
    var hi, lo := u0 / q, u0 % q;
    if s == 0 { NoShift(u1, u0, p, q, hi); }
    var n1 := if s == 0 then u1 else u1 * p + hi;
    var n0, dn := lo * p, d * p;
    Normalised(u1, u0, d, p, q, hi, lo, n1, n0, dn, BASE);
    quotient, rem := DivideNormalised(n1, n0, dn);
    ScaledDivision(u1 * BASE + u0, d, p, quotient, rem);
    QuotientSmall(rem, p);
    rem := rem / p;
  }

  lemma NoShift(u1: int, u0: int, p: int, q: int, hi: int)
    requires p == Pow(2, 0) && 0 <= u0 < q && hi == u0 / q
    ensures u1 == u1 * p + hi
  {
    DivModUnique(u0, q, 0, u0);
  }

  lemma QuotientSmall(n: int, p: int)
    requires n >= 0 && p > 0
    ensures 0 <= n / p <= n
  {
    if n / p > n { MulMonotone(p, n + 1, n / p); MulMonotone(n + 1, 1, p); }
  }
}
