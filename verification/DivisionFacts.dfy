// The arithmetic behind schoolbook long division: why a corrected digit is at most one too big.
module DivisionFacts {
  import opened Numbers
  import opened Limbs

  // Division truncating towards zero, as the C operators define it.
  function TruncQuotient(a: int, b: int): int
    requires b != 0
  {
    if a >= 0 then (if b > 0 then a / b else -(a / -b))
    else if b > 0 then -((-a) / b) else (-a) / (-b)
  }

  function TruncRemainder(a: int, b: int): int
    requires b != 0
  {
    a - TruncQuotient(a, b) * b
  }

  // The two highest limbs of the divisor, padded with a zero limb.
  function TopTwo(y: seq<Limb>, t: nat): seq<Limb>
    requires t < |y|
  {
    [if t < 1 then 0 else y[t - 1], y[t]]
  }

  // The three highest limbs of the dividend, padded with a zero limb.
  function TopThree(x: seq<Limb>, i: nat): seq<Limb>
    requires 1 <= i < |x|
  {
    [if i < 2 then 0 else x[i - 2], x[i - 1], x[i]]
  }

  // Scaled by `scale`, v lies in [top, top + 1) * unit: its leading limbs are top.
  ghost predicate Leading(v: nat, top: nat, unit: nat, scale: nat) {
    top * unit <= v * scale < (top + 1) * unit
  }

  lemma PrefixRange(p: seq<Limb>, k: nat)
    requires k <= |p|
    ensures Val(p[k..]) * Pow(BASE, k) <= Val(p) < (Val(p[k..]) + 1) * Pow(BASE, k)
  {
    hide Pow, Val;
    ValSplit(p, k);
    ValBound(p[..k]);
    Distribute(Pow(BASE, k), Val(p[k..]), 1);
    Commute(Pow(BASE, k), Val(p[k..]));
    Commute(Pow(BASE, k), Val(p[k..]) + 1);
  }

  lemma PowOne()
    ensures Pow(BASE, 0) == 1 && Pow(BASE, 1) == BASE
  {
  }

  lemma PowNext(k: nat)
    ensures Pow(BASE, k + 1) == BASE * Pow(BASE, k) && Pow(BASE, k + 2) == (BASE * BASE) * Pow(BASE, k)
  {
    MulAssoc(BASE, BASE, Pow(BASE, k));
  }

  lemma TopTwoLeads(y: seq<Limb>, t: nat)
    requires t < |y| && ZeroFrom(y, t + 1)
    ensures Leading(Val(y), Val(TopTwo(y, t)), Pow(BASE, t), BASE)
    ensures y[t] > 0 ==> Pow(BASE, t) <= Val(y)
  {
    hide Pow, Val;
    ValTruncate(y, t + 1);
    ValLarge(y, t);
    hide ZeroFrom, Leading;
    if t == 0 {
      OneLimbLeads(y);
    } else {
      ManyLimbsLead(y, t);
    }
  }

  lemma OneLimbLeads(y: seq<Limb>)
    requires |y| > 0 && Val(y) == Val(y[..1])
    ensures Leading(Val(y), Val(TopTwo(y, 0)), Pow(BASE, 0), BASE)
  {
    hide Pow, Val;
    PowOne();
    ValSingle(y[0]);
    assert y[..1] == [y[0]];
    ValPair(0, y[0]);
  }

  lemma ManyLimbsLead(y: seq<Limb>, t: nat)
    requires 0 < t < |y| && Val(y) == Val(y[..t + 1])
    ensures Leading(Val(y), Val(TopTwo(y, t)), Pow(BASE, t), BASE)
  {
    hide Pow, Val;
    var z := y[..t + 1];
    assert z[t - 1..] == TopTwo(y, t);
    PrefixRange(z, t - 1);
    PowNext(t - 1);
    hide TopTwo;
    ScaleLeading(Val(y), Val(TopTwo(y, t)), Pow(BASE, t - 1), BASE);
  }

  lemma TopThreeLeads(x: seq<Limb>, i: nat)
    requires 1 <= i < |x| && ZeroFrom(x, i + 1)
    ensures Leading(Val(x), Val(TopThree(x, i)), Pow(BASE, i), BASE * BASE)
  {
    hide Pow, Val;
    var z := x[..i + 1];
    ValTruncate(x, i + 1);
    if i == 1 {
      PowOne();
      assert z == [x[0], x[1]];
      ValPair(x[0], x[1]);
      ValTriple(0, x[0], x[1]);
      LeadingExact(Val(x), BASE);
    } else {
      assert z[i - 2..] == TopThree(x, i);
      PrefixRange(z, i - 2);
      PowNext(i - 2);
      ScaleLeading(Val(x), Val(TopThree(x, i)), Pow(BASE, i - 2), BASE * BASE);
    }
  }

  lemma LeadingExact(v: nat, b: nat)
    requires b > 0
    ensures v * b >= 0 && Leading(v, v * b, b, b * b)
  {
    MulAssoc(v, b, b);
    Distribute(b, v * b, 1);
  }

  lemma ValPair(a: Limb, b: Limb)
    ensures Val([a, b]) == b * BASE + a
  {
    assert [a, b][1..] == [b];
    ValSingle(b);
  }

  lemma ValTriple(a: Limb, b: Limb, c: Limb)
    ensures Val([a, b, c]) == (c * BASE + b) * BASE + a
  {
    assert [a, b, c][1..] == [b, c];
    ValPair(b, c);
    Commute(BASE, c * BASE + b);
  }

  lemma ScaleLeading(v: int, top: int, unit: int, scale: int)
    requires scale > 0 && top * unit <= v < (top + 1) * unit
    ensures top * (scale * unit) <= v * scale < (top + 1) * (scale * unit)
  {
    MulMonotone(scale, top * unit, v);
    MulStrict(scale, v, (top + 1) * unit);
    assert scale * (top * unit) == top * (scale * unit);
    assert scale * ((top + 1) * unit) == (top + 1) * (scale * unit);
  }

  // The weights of one division step: w is the divisor y moved up to the digit's position.
  ghost predicate Weights(y: nat, w: nat, bi: nat, bt: nat, bit: nat, b: nat) {
    b > 0 && bt > 0 && bit > 0 && bi == bt * bit && w * b == y * bit && bt <= y
  }

  lemma ScaledProduct(y: nat, w: nat, bi: nat, bt: nat, bit: nat, b: nat, z: nat, top: nat)
    requires Weights(y, w, bi, bt, bit, b)
    ensures (z * w) * (b * b) == (z * (y * b)) * bit
    ensures (z * (top * bt)) * bit == (z * top) * bi
    ensures bi * b <= w * (b * b)
  {
    assert (z * w) * (b * b) == (z * (w * b)) * b;
    assert (z * (y * bit)) * b == (z * (y * b)) * bit;
    assert (z * (top * bt)) * bit == (z * top) * (bt * bit);
    MulMonotone(bit, bt, y);
    MulMonotone(b, bi, y * bit);
    assert (w * b) * b == w * (b * b);
  }

  // The true quotient digit passes the test on leading limbs.
  lemma TrueDigitPasses(x: nat, y: nat, w: nat, top3: nat, top2: nat, bi: nat, bt: nat, bit: nat, b: nat, z: nat)
    requires Weights(y, w, bi, bt, bit, b)
    requires Leading(y, top2, bt, b) && Leading(x, top3, bi, b * b)
    requires z * w <= x
    ensures z * top2 <= top3
  {
    ScaledProduct(y, w, bi, bt, bit, b, z, top2);
    MulMonotone(b * b, z * w, x);
    MulMonotone(z, top2 * bt, y * b);
    MulMonotone(bit, z * (top2 * bt), z * (y * b));
    CancelLess(z * top2, top3 + 1, bi);
  }

  // Whatever passes the test is at most one too big. Only y >= b^t is needed of the
  // divisor, less than its normalisation gives.
  lemma PassingDigitClose(x: nat, y: nat, w: nat, top3: nat, top2: nat, bi: nat, bt: nat, bit: nat, b: nat, z: nat)
    requires Weights(y, w, bi, bt, bit, b)
    requires Leading(y, top2, bt, b) && Leading(x, top3, bi, b * b)
    requires z < b && z * top2 <= top3
    ensures z * w < x + w
  {
    assert (z * w) * (b * b) <= (z * (top2 + 1)) * bi by {
      ScaledProduct(y, w, bi, bt, bit, b, z, top2 + 1);
      MulMonotone(z, y * b, (top2 + 1) * bt);
      MulMonotone(bit, z * (y * b), z * ((top2 + 1) * bt));
    }
    assert (z * (top2 + 1)) * bi < x * (b * b) + w * (b * b) by {
      ScaledProduct(y, w, bi, bt, bit, b, z, top2);
      PassingBound(z, top2, top3, bi, b, x * (b * b), w * (b * b));
    }
    Distribute(b * b, x, w);
    CancelLess(z * w, x + w, b * b);
  }

  lemma PassingBound(z: nat, top2: nat, top3: nat, bi: nat, b: nat, x: nat, w: nat)
    requires bi > 0 && z < b && z * top2 <= top3 && top3 * bi <= x && bi * b <= w
    ensures (z * (top2 + 1)) * bi < x + w
  {
    Distribute(z, top2, 1);
    MulMonotone(bi, z * top2, top3);
    Distribute(bi, z * top2, z);
    MulStrict(bi, z, b);
  }

  // The first estimate is not below the true digit.
  lemma FirstGuess(q: nat, x2: nat, x1: nat, x0: nat, y1: nat, y0: nat, b: nat)
    requires b > 0 && y1 > 0 && x0 < b
    requires q * (y1 * b + y0) <= (x2 * b + x1) * b + x0
    ensures q <= (x2 * b + x1) / y1
  {
    assert q * (y1 * b + y0) == (q * y1) * b + q * y0;
    assert q * y0 >= 0;
    var u := x2 * b + x1;
    assert q * y1 <= u by {
      if q * y1 >= u + 1 { MulMonotone(b, u + 1, q * y1); Distribute(b, u, 1); }
    }
    DivFloor(u, y1, q);
  }

  lemma DivFloor(n: int, d: int, q: int)
    requires d > 0
    ensures q * d <= n <==> q <= n / d
  {
    if q <= n / d { MulMonotone(d, q, n / d); }
    if q > n / d { MulMonotone(d, n / d + 1, q); Distribute(d, n / d, 1); }
  }
}
