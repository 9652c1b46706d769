// Multi-limb division (HAC 14.20) and reduction modulo a positive number.
module Division {
  import opened Numbers
  import opened Limbs
  import opened Words
  import opened WordDivision
  import opened Bits
  import opened Bignum
  import opened DivisionFacts

  lemma Padded(p: seq<Limb>, q: seq<Limb>)
    requires |q| <= |p| && p[..|q|] == q && ZeroFrom(p, |q|)
    ensures Val(p) == Val(q)
  {
    ValTruncate(p, |q|);
  }

  // T1 := the two highest limbs of Y.
  method LoadTopTwo(t1: Mpi, y: Mpi, t: nat) returns (ret: Status)
    requires t1 != y && t < |y.p| && |t1.p| >= 2
    modifies t1
    ensures ret.Fail? ==> ret.code == AllocFailed
    ensures ret.Ok? ==> |t1.p| == |old(t1.p)| && t1.Value() == Val(TopTwo(y.p, t))
  {
    hide Val, Pow;
    :- t1.Lset(0);
    t1.p := t1.p[0 := if t < 1 then 0 else y.p[t - 1]];
    t1.p := t1.p[1 := y.p[t]];
    Padded(t1.p, TopTwo(y.p, t));
    return Ok;
  }

  // T2 := the three highest limbs of X.
  method LoadTopThree(t2: Mpi, x: Mpi, i: nat) returns (ret: Status)
    requires t2 != x && 1 <= i < |x.p| && |t2.p| >= 3
    modifies t2
    ensures ret.Fail? ==> ret.code == AllocFailed
    ensures ret.Ok? ==> |t2.p| == |old(t2.p)| && t2.Value() == Val(TopThree(x.p, i))
  {
    hide Val, Pow;
    :- t2.Lset(0);
    t2.p := t2.p[0 := if i < 2 then 0 else x.p[i - 2]];
    t2.p := t2.p[1 := if i < 1 then 0 else x.p[i - 1]];
    t2.p := t2.p[2 := x.p[i]];
    Padded(t2.p, TopThree(x.p, i));
    return Ok;
  }

  // What makes a division step well posed: X has i + 1 limbs, Y has t + 1, and the digit at k = i - t - 1 is below BASE.
  ghost predicate StepReady(x: seq<Limb>, y: seq<Limb>, i: nat, t: nat) {
    && t < i < |x| && t < |y|
    && y[t] > 0 && ZeroFrom(y, t + 1) && ZeroFrom(x, i + 1)
    && Val(x) < Val(y) * Pow(BASE, i - t)
  }

  // The digit z of x by w is the true one or one more.
  ghost predicate CloseDigit(x: nat, w: nat, z: nat) {
    z * w < x + w && x < (z + 1) * w
  }

  // Everything the correction loop needs to know about one candidate digit.
  lemma Candidate(x: seq<Limb>, y: seq<Limb>, i: nat, t: nat, z: Limb)
    requires StepReady(x, y, i, t)
    ensures Val(y) * Pow(BASE, i - t - 1) > 0
    ensures Val(x) / (Val(y) * Pow(BASE, i - t - 1)) < BASE
    ensures Val(TopTwo(y, t)) * z > Val(TopThree(x, i)) ==> z > Val(x) / (Val(y) * Pow(BASE, i - t - 1))
    ensures Val(TopTwo(y, t)) * z <= Val(TopThree(x, i)) && z >= Val(x) / (Val(y) * Pow(BASE, i - t - 1)) ==>
              CloseDigit(Val(x), Val(y) * Pow(BASE, i - t - 1), z)
  {
    hide Pow, Val;
    TopTwoLeads(y, t);
    TopThreeLeads(x, i);
    var w := Val(y) * Pow(BASE, i - t - 1);
    StepWeights(Val(y), w, i, t);
    hide TopTwo, TopThree;
    CandidateDigit(Val(x), Val(y), w, Val(TopThree(x, i)), Val(TopTwo(y, t)),
                   Pow(BASE, i), Pow(BASE, t), Pow(BASE, i - t), BASE, z);
  }

  // The same in numbers: the divisor and its place values, leading limbs, a candidate.
  lemma CandidateDigit(x: nat, y: nat, w: nat, top3: nat, top2: nat, bi: nat, bt: nat, bit: nat, b: nat, z: nat)
    requires Weights(y, w, bi, bt, bit, b) && Leading(y, top2, bt, b) && Leading(x, top3, bi, b * b)
    requires x < w * b && z < b
    ensures w > 0 && x / w < b
    ensures top2 * z > top3 ==> z > x / w
    ensures top2 * z <= top3 && z >= x / w ==> CloseDigit(x, w, z)
  {
    hide Weights, Leading;
    QuotientRoom(x, w, b);
    DivFloor(x, w, z);
    DivFloor(x, w, z + 1);
    Commute(z, top2);
    if z * w <= x {
      TrueDigitPasses(x, y, w, top3, top2, bi, bt, bit, b, z);
    }
    if z * top2 <= top3 {
      PassingDigitClose(x, y, w, top3, top2, bi, bt, bit, b, z);
    }
  }

  lemma QuotientRoom(x: nat, w: nat, b: nat)
    requires x < w * b
    ensures w > 0 && x / w < b
  {
    if w == 0 { Commute(w, b); }
    DivModSplit(x, w);
    if x / w >= b { MulMonotone(w, b, x / w); }
  }

  lemma StepWeights(y: nat, w: nat, i: nat, t: nat)
    requires t < i && w == y * Pow(BASE, i - t - 1) && Pow(BASE, t) <= y
    ensures Weights(y, w, Pow(BASE, i), Pow(BASE, t), Pow(BASE, i - t), BASE)
    ensures y * Pow(BASE, i - t) == w * BASE
  {
    PowAdd(BASE, t, i - t);
    assert Pow(BASE, i - t) == BASE * Pow(BASE, i - t - 1);
    WeightProduct(y, Pow(BASE, i - t - 1), BASE);
  }

  lemma WeightProduct(y: nat, u: nat, b: nat)
    ensures y * (b * u) == (y * u) * b
  {
  }

  // The true digit is not above the estimate taken from two limbs by one.
  lemma EstimateHigh(x: seq<Limb>, y: seq<Limb>, i: nat, t: nat)
    requires StepReady(x, y, i, t)
    ensures Val(x) / (Val(y) * Pow(BASE, i - t - 1)) <= (x[i] * BASE + x[i - 1]) / y[t]
  {
    hide Pow, Val;
    var y1, y0 := y[t], if t < 1 then 0 else y[t - 1];
    var x0 := if i < 2 then 0 else x[i - 2];
    assert TopTwo(y, t) == [y0, y1] && TopThree(x, i) == [x0, x[i - 1], x[i]];
    ValPair(y0, y1);
    ValTriple(x0, x[i - 1], x[i]);
    hide TopTwo, TopThree;
    var w := Val(y) * Pow(BASE, i - t - 1);
    Candidate(x, y, i, t, 0);
    var q := Val(x) / w;
    Candidate(x, y, i, t, q);
    Commute(q, Val(TopTwo(y, t)));
    FirstGuess(q, x[i], x[i - 1], x0, y1, y0, BASE);
  }

  // Choose the quotient digit at k = i - t - 1: estimate it from two limbs by one, then count down
  // while the two leading limbs of Y times the digit exceed the three leading limbs of X.
  method EstimateDigit(x: Mpi, y: Mpi, z: Mpi, t1: Mpi, t2: Mpi, i: nat, t: nat) returns (ret: Status)
    requires z != x && z != y && t1 != x && t1 != y && t2 != x && t2 != y && t1 != t2 && t1 != z && t2 != z
    requires StepReady(x.p, y.p, i, t) && i - t - 1 < |z.p|
    requires |t1.p| >= 2 && |t2.p| >= 3
    modifies z, t1, t2
    ensures ret.Fail? ==> ret.code == AllocFailed
    ensures ret.Ok? ==> |t1.p| >= 2 && |t2.p| >= 3
    ensures ret.Ok? ==> z.s == old(z.s) && |z.p| == |old(z.p)| && z.p == old(z.p)[i - t - 1 := z.p[i - t - 1]]
    ensures ret.Ok? ==> CloseDigit(x.Abs(), y.Abs() * Pow(BASE, i - t - 1), z.p[i - t - 1])
  {
    hide Pow, Val;
    var k := i - t - 1;
    ghost var q := Val(x.p) / (Val(y.p) * Pow(BASE, k));
    Candidate(x.p, y.p, i, t, 0);
    var guess: Limb := BASE - 1;
    if x.p[i] < y.p[t] {
      EstimateHigh(x.p, y.p, i, t);
      var rem;
      guess, rem := DivideDouble(x.p[i], x.p[i - 1], y.p[t]);
    }
    z.p := z.p[k := guess];
    ghost var g: Limb := guess;
    SmallWords();
    z.p := z.p[k := WAdd(z.p[k], 1)];
    while true
      invariant q <= g < BASE
      invariant z.s == old(z.s) && |z.p| == |old(z.p)| && z.p == old(z.p)[k := WAdd(g, 1)]
      invariant |t1.p| >= 2 && |t2.p| >= 3
      decreases g
    {
      z.p := z.p[k := WSub(z.p[k], 1)];
      assert z.p[k] == g;
      var order;
      ret, order := TestDigit(x, y, z.p[k], t1, t2, i, t);
      if ret.IsFailure() { return; }
      Candidate(x.p, y.p, i, t, g);
      if order <= 0 {
        break;
      }
      g := g - 1;
    }
    return Ok;
  }

  // The test of the correction loop: the divisor's two top limbs times the digit against the dividend's three.
  method TestDigit(x: Mpi, y: Mpi, digit: Limb, t1: Mpi, t2: Mpi, i: nat, t: nat) returns (ret: Status, order: int)
    requires t1 != x && t1 != y && t2 != x && t2 != y && t1 != t2
    requires t < i < |x.p| && t < |y.p| && |t1.p| >= 2 && |t2.p| >= 3
    modifies t1, t2
    ensures ret.Fail? ==> ret.code == AllocFailed
    ensures ret.Ok? ==> |t1.p| >= 2 && |t2.p| >= 3
    ensures ret.Ok? ==> order == Compare(Val(TopTwo(y.p, t)) * digit, Val(TopThree(x.p, i)))
  {
    hide Pow, Val, TopTwo, TopThree;
    order := 0;
    ret := LoadTopTwo(t1, y, t);
    if ret.IsFailure() { return; }
    ret := t1.MulInt(t1, digit);
    if ret.IsFailure() { return; }
    ret := LoadTopThree(t2, x, i);
    if ret.IsFailure() { return; }
    order := t1.Cmp(t2);
  }

  lemma ScaledValue(s: Sign, p0: seq<Limb>, p1: seq<Limb>, v: nat, m: nat)
    requires s * Val(p0) == v && Val(p1) == Val(p0) * m
    ensures s * Val(p1) == v * m
  {
    MulAssoc(s, Val(p0), m);
  }

  // T1 := Y * z * b^k, for a positive Y.
  method ShiftedMultiple(t1: Mpi, y: Mpi, z: Limb, k: nat) returns (ret: Status)
    requires t1 != y && y.s == 1 && |t1.p| >= 2
    modifies t1
    ensures ret.Fail? ==> ret.code == AllocFailed
    ensures ret.Ok? ==> |t1.p| >= 2 && t1.Value() == y.Abs() * z * Pow(BASE, k)
  {
    hide Pow, Val;
    :- t1.MulInt(y, z);
    ghost var p0 := t1.p;
    :- t1.ShiftL(BI_L * k);
    PowBase(k);
    ScaledValue(t1.s, p0, t1.p, y.Abs() * z, Pow(BASE, k));
    return Ok;
  }

  // Take the chosen multiple of Y from X, and add Y back once if that went below zero.
  method SubtractDigit(x: Mpi, y: Mpi, z: Mpi, t1: Mpi, k: nat) returns (ret: Status)
    requires x != y && z != x && z != y && t1 != x && t1 != y && t1 != z
    requires y.s == 1 && x.Value() == x.Abs() && k < |z.p| && |t1.p| >= 2 && |x.p| >= 1 && |y.p| >= 1
    requires CloseDigit(x.Abs(), y.Abs() * Pow(BASE, k), z.p[k])
    modifies x, z, t1
    ensures ret.Fail? ==> ret.code == AllocFailed
    ensures ret.Ok? ==> |t1.p| >= 2 && |x.p| >= |old(x.p)|
    ensures ret.Ok? ==> z.s == old(z.s) && |z.p| == |old(z.p)| && z.p == old(z.p)[k := z.p[k]]
    ensures ret.Ok? ==> x.Value() == x.Abs() < y.Abs() * Pow(BASE, k)
    ensures ret.Ok? ==> z.p[k] * (y.Abs() * Pow(BASE, k)) + x.Abs() == old(x.Abs())
  {
    hide Pow, Val;
    ghost var w := y.Abs() * Pow(BASE, k);
    ghost var x0 := x.Abs();
    ghost var d := z.p[k];
    :- ShiftedMultiple(t1, y, z.p[k], k);
    MoveDigit(y.Abs(), d, Pow(BASE, k), w);
    :- x.Sub(x, t1);
    var order := x.CmpInt(0);
    if order < 0 {
      if d == 0 { ZeroTimes(w); }
      :- AddBack(x, y, t1, k);
      z.p := z.p[k := WSub(z.p[k], 1)];
      Distribute(w, d, 1);
    }
    ValOfValue(x.s, x.p);
    return Ok;
  }

  // The divisor, moved up to the digit, is added once.
  method AddBack(x: Mpi, y: Mpi, t1: Mpi, k: nat) returns (ret: Status)
    requires x != y && t1 != x && t1 != y
    requires y.s == 1 && |t1.p| >= 2 && |x.p| >= 1 && |y.p| >= 1
    modifies x, t1
    ensures ret.Fail? ==> ret.code == AllocFailed
    ensures ret.Ok? ==> |t1.p| >= 2 && |x.p| >= |old(x.p)|
    ensures ret.Ok? ==> x.Value() == old(x.Value()) + y.Abs() * Pow(BASE, k)
  {
    hide Pow, Val;
    :- t1.Copy(y);
    ghost var p0 := t1.p;
    :- t1.ShiftL(BI_L * k);
    PowBase(k);
    ScaledValue(t1.s, p0, t1.p, y.Abs(), Pow(BASE, k));
    :- x.Add(x, t1);
    return Ok;
  }

  lemma ZeroTimes(w: int)
    ensures 0 * w == 0
  {
  }

  lemma MoveDigit(y: nat, d: nat, u: nat, w: nat)
    requires w == y * u
    ensures (y * d) * u == d * w
    ensures (d + 1) * w == d * w + w && (d - 1) * w == d * w - w
  {
  }

  // ---------------------------------------------------------------- normalisation and the two loops

  // Y has exactly t + 1 significant limbs.
  ghost predicate Divisor(y: seq<Limb>, t: nat) {
    t < |y| && y[t] > 0 && ZeroFrom(y, t + 1)
  }

  lemma DivisorBounds(y: seq<Limb>, t: nat)
    requires t < |y|
    ensures Divisor(y, t) <==> Pow(BASE, t) <= Val(y) < Pow(BASE, t + 1)
  {
    hide Val;
    if Divisor(y, t) {
      SizeFacts(y, t + 1);
    }
    if Pow(BASE, t) <= Val(y) < Pow(BASE, t + 1) {
      ValSmall(y, t + 1);
      if y[t] == 0 {
        ValTruncate(y, t);
        ValBound(y[..t]);
      }
    }
  }

  // A vector as long as its bit count asks for has a non-zero top limb.
  lemma TopLimb(y: seq<Limb>)
    requires Val(y) > 0 && |y| == LimbsFor(BitCount(Val(y)))
    ensures |y| > 0 && Divisor(y, |y| - 1)
  {
    hide Val, Pow, LimbsFor, BitCount, SizeOf;
    SizeOfBits(y);
    SizeFacts(y, SizeOf(y));
  }

  // Shift both numbers so that the divisor's top limb has BI_L - 1 significant bits.
  method Normalise(x: Mpi, y: Mpi) returns (ret: Status, k: nat)
    requires x != y && y.Abs() > 0
    requires |x.p| == SizeOf(x.p) && |y.p| == SizeOf(y.p)
    requires x.Abs() >= y.Abs()
    modifies x, y
    ensures ret.Fail? ==> ret.code == AllocFailed
    ensures ret.Ok? ==> x.s == old(x.s) && x.Abs() == old(x.Abs()) * Pow(2, k)
    ensures ret.Ok? ==> y.s == old(y.s) && y.Abs() == old(y.Abs()) * Pow(2, k)
    ensures ret.Ok? ==> 0 < |y.p| <= |x.p| <= |old(x.p)| + 1 && Divisor(y.p, |y.p| - 1)
    ensures ret.Ok? ==> BitCount(y.Abs()) % BI_L == BI_L - 1
  {
    hide Val, Pow, LimbsFor, BitCount, SizeOf;
    ghost var a, b := BitCount(x.Abs()), BitCount(y.Abs());
    SizeOfBits(x.p);
    SizeOfBits(y.p);
    BitCountMonotone(y.Abs(), x.Abs());
    var bits := y.BitLen();
    k := bits % BI_L;
    DivModSplit(bits, BI_L);
    if k < BI_L - 1 {
      k := BI_L - 1 - k;
      BitCountShift(x.Abs(), k);
      BitCountShift(y.Abs(), k);
      LimbsForMonotone(a, a + k);
      LimbsForMonotone(b, b + k);
      LimbsForMonotone(b + k, a + k);
      ret := x.ShiftL(k);
      if ret.IsFailure() { return; }
      ret := y.ShiftL(k);
      if ret.IsFailure() { return; }
      DivModUnique(b + k, BI_L, b / BI_L, BI_L - 1);
    } else {
      k := 0;
      LimbsForMonotone(b, a);
      PowZero();
    }
    TopLimb(y.p);
    ret := Ok;
  }

  // Digit n - t of the quotient: subtract the fully shifted divisor while it fits.
  method TopDigit(x: Mpi, y: Mpi, z: Mpi, n: nat, t: nat) returns (ret: Status)
    requires x != y && z != x && z != y
    requires t <= n && |x.p| == n + 1 && t < |y.p| && n - t < |z.p|
    requires y.s == 1 && x.s == 1 && Divisor(y.p, t) && z.p[n - t] == 0
    modifies x, y, z
    ensures ret.Fail? ==> ret.code == AllocFailed
    ensures ret.Ok? ==> y.s == 1 && t < |y.p| && y.Abs() == old(y.Abs()) && Divisor(y.p, t)
    ensures ret.Ok? ==> |x.p| >= n + 1 && x.Value() == x.Abs() < y.Abs() * Pow(BASE, n - t)
    ensures ret.Ok? ==> z.s == old(z.s) && |z.p| == |old(z.p)| && z.p == old(z.p)[n - t := z.p[n - t]]
    ensures ret.Ok? ==> z.p[n - t] * (y.Abs() * Pow(BASE, n - t)) + x.Abs() == old(x.Abs())
  {
    hide Val, Pow, BitCount, LimbsFor;
    ghost var x0, y0 := x.Abs(), y.Abs();
    ghost var w := y0 * Pow(BASE, n - t);
    SignTimes(1, x0);
    ValBound(x.p);
    DivisorBounds(y.p, t);
    :- y.ShiftL(BI_L * (n - t));
    PowBase(n - t);
    SignTimes(1, y.Abs());
    FullShift(y0, w, n, t);
    SmallWords();
    var order := x.Cmp(y);
    ZeroTimes(w);
    while order >= 0
      invariant order == Compare(x.Value(), y.Value())
      invariant y.s == 1 && y.Value() == y.Abs() == w && t < |y.p|
      invariant |x.p| >= n + 1 && x.Value() == x.Abs()
      invariant z.s == old(z.s) && |z.p| == |old(z.p)| && z.p == old(z.p)[n - t := z.p[n - t]]
      invariant z.p[n - t] * w + x.Abs() == x0
      decreases x.Abs()
    {
      NoDigitOverflow(z.p[n - t], w, x.Abs(), x0);
      z.p := z.p[n - t := z.p[n - t] + 1];
      :- x.Sub(x, y);
      ValOfValue(x.s, x.p);
      order := x.Cmp(y);
    }
    :- y.ShiftR(BI_L * (n - t));
    PowBase(n - t);
    DivModUnique(w, Pow(BASE, n - t), y0, 0);
    DivisorBounds(y.p, t);
    return Ok;
  }

  lemma FullShift(y: nat, w: nat, n: nat, t: nat)
    requires t <= n && w == y * Pow(BASE, n - t) && Pow(BASE, t) <= y
    ensures w > 0 && Pow(BASE, n + 1) <= BASE * w
  {
    hide Pow;
    PowAdd(BASE, t, n - t);
    MulMonotone(Pow(BASE, n - t), Pow(BASE, t), y);
    MulMonotone(BASE, Pow(BASE, n), w);
    PowNext(n);
  }

  lemma NoDigitOverflow(z: int, w: int, x: int, x0: int)
    requires z >= 0 && w > 0 && x >= w && z * w + x == x0 < BASE * w
    ensures z + 1 < BASE
    ensures (z + 1) * w + (x - w) == x0
  {
    Distribute(w, z, 1);
    CancelLess(z + 1, BASE, w);
  }

  // The loop over the remaining digits, highest first.
  method LowDigits(x: Mpi, y: Mpi, z: Mpi, t1: Mpi, t2: Mpi, n: nat, t: nat) returns (ret: Status)
    requires x != y && z != x && z != y && t1 != x && t1 != y && t2 != x && t2 != y && t1 != t2 && t1 != z && t2 != z
    requires t <= n < |x.p| && n - t < |z.p| && |t1.p| >= 2 && |t2.p| >= 3
    requires y.s == 1 && Divisor(y.p, t)
    requires x.Value() == x.Abs() < y.Abs() * Pow(BASE, n - t)
    requires ZeroBelow(z.p, n - t)
    modifies x, z, t1, t2
    ensures ret.Fail? ==> ret.code == AllocFailed
    ensures ret.Ok? ==> z.s == old(z.s) && |z.p| == |old(z.p)| && x.Abs() < y.Abs()
    ensures ret.Ok? ==> z.Abs() * y.Abs() + x.Abs() == old(z.Abs()) * y.Abs() + old(x.Abs())
    ensures ret.Ok? ==> |x.p| >= |old(x.p)|
  {
    hide Pow, Val;
    ghost var total := z.Abs() * y.Abs() + x.Abs();
    var i: nat := n;
    while i > t
      invariant t <= i <= n < |x.p| && |x.p| >= |old(x.p)| && |z.p| == |old(z.p)| && |t1.p| >= 2 && |t2.p| >= 3
      invariant z.s == old(z.s)
      invariant x.Value() == x.Abs() < y.Abs() * Pow(BASE, i - t)
      invariant ZeroBelow(z.p, i - t)
      invariant z.Abs() * y.Abs() + x.Abs() == total
    {
      ghost var k: nat := i - t - 1;
      ghost var z0, x0 := z.p, x.Abs();
      MakeReady(x.p, y.p, i, t);
      :- EstimateDigit(x, y, z, t1, t2, i, t);
      :- SubtractDigit(x, y, z, t1, i - t - 1);
      ValUpdate(z0, k, z.p[k]);
      AppendDigit(z0, z.p, k, y.Abs(), x0, x.Abs());
      i := i - 1;
    }
    OnePower(y.Abs());
    return Ok;
  }

  lemma OnePower(y: nat)
    ensures y * Pow(BASE, 0) == y
  {
  }

  lemma MakeReady(x: seq<Limb>, y: seq<Limb>, i: nat, t: nat)
    requires t < i < |x| && Divisor(y, t) && Val(x) < Val(y) * Pow(BASE, i - t)
    ensures StepReady(x, y, i, t)
  {
    hide Pow, Val;
    DivisorBounds(y, t);
    PowAdd(BASE, t + 1, i - t);
    MulStrict(Pow(BASE, i - t), Val(y), Pow(BASE, t + 1));
    ValSmall(x, i + 1);
  }

  lemma AppendDigit(z0: seq<Limb>, z: seq<Limb>, k: nat, y: nat, x0: nat, x: nat)
    requires k < |z0| == |z| && ZeroBelow(z0, k + 1) && z == z0[k := z[k]]
    requires z[k] * (y * Pow(BASE, k)) + x == x0
    ensures Val(z) * y + x == Val(z0) * y + x0
    ensures ZeroBelow(z, k)
  {
    hide Pow, Val;
    ValUpdate(z0, k, z[k]);
    var u, d := Pow(BASE, k), z[k];
    assert Val(z) == Val(z0) + u * d;
    AppendArithmetic(Val(z0), u, d, y);
  }

  lemma AppendArithmetic(v: int, u: int, d: int, y: int)
    ensures (v + u * d) * y == v * y + d * (y * u)
  {
    assert (u * d) * y == d * (y * u);
  }

  // Division of magnitudes with remainder, Q * |B| + X == |A|, on copies already scaled by 2^k.
  method DivideScaled(x: Mpi, y: Mpi, z: Mpi) returns (ret: Status)
    requires x != y && z != x && z != y
    requires 0 < |y.p| <= |x.p| && |x.p| - |y.p| < |z.p| && Divisor(y.p, |y.p| - 1)
    requires x.s == 1 && y.s == 1 && z.s == 1 && z.Abs() == 0
    modifies x, y, z
    ensures ret.Fail? ==> ret.code == AllocFailed
    ensures ret.Ok? ==> z.s == 1 && |z.p| == |old(z.p)| && x.Abs() < old(y.Abs())
    ensures ret.Ok? ==> z.Abs() * old(y.Abs()) + x.Abs() == old(x.Abs())
    ensures ret.Ok? ==> |x.p| >= |old(x.p)|
  {
    hide Pow, Val;
    var t1 := new Mpi();
    var t2 := new Mpi();
    :- t1.Grow(2);
    :- t2.Grow(3);
    var n, t := |x.p| - 1, |y.p| - 1;
    ghost var z0, x0 := z.p, x.Abs();
    ValZero(z.p);
    :- TopDigit(x, y, z, n, t);
    AppendDigit(z0, z.p, n - t, y.Abs(), x0, x.Abs());
    ZeroTimes(y.Abs());
    :- LowDigits(x, y, z, t1, t2, n, t);
    return Ok;
  }

  // Scaling back: the scaled remainder is an exact multiple and the quotient is the one asked for.
  lemma Unscale(a: nat, b: nat, c: nat, z: nat, x: nat)
    requires b > 0 && c > 0 && z * (b * c) + x == a * c && x < b * c
    ensures z == a / b && x / c == a % b
  {
    var r := a - z * b;
    assert (z * b) * c == z * (b * c);
    assert x == r * c;
    if r < 0 { MulMonotone(c, r, -1); }
    CancelLess(r, b, c);
    DivModUnique(a, b, z, r);
    DivModUnique(x, c, r, 0);
  }

  lemma SignedDivision(sa: Sign, va: nat, sb: Sign, vb: nat)
    requires vb > 0
    ensures SignProduct(sa, sb) * (va / vb) == TruncQuotient(sa * va, sb * vb)
    ensures sa * (va % vb) == TruncRemainder(sa * va, sb * vb)
  {
    hide TruncQuotient;
    SignTimes(sa, va);
    SignTimes(sb, vb);
    var q, r := va / vb, va % vb;
    DivModSplit(va, vb);
    SignTimes(SignProduct(sa, sb), q);
    SignTimes(sa, r);
    SignedQuotient(sa, va, sb, vb);
    SignMul(SignProduct(sa, sb), q, sb, vb);
    Commute(vb, q);
    SignTimes(SignProduct(SignProduct(sa, sb), sb), q * vb);
  }

  lemma SignedQuotient(sa: Sign, va: nat, sb: Sign, vb: nat)
    requires vb > 0
    ensures TruncQuotient(sa * va, sb * vb) == SignProduct(sa, sb) * (va / vb)
  {
    SignTimes(sa, va);
    SignTimes(sb, vb);
    SignTimes(SignProduct(sa, sb), va / vb);
    if va == 0 { DivModUnique(0, vb, 0, 0); }
  }

  lemma SmallDividend(sa: Sign, va: nat, sb: Sign, vb: nat)
    requires va < vb
    ensures TruncQuotient(sa * va, sb * vb) == 0
    ensures TruncRemainder(sa * va, sb * vb) == sa * va
  {
    SignTimes(sa, va);
    SignTimes(sb, vb);
    DivModUnique(va, vb, 0, va);
  }

  // The sign an operand shows once the quotient is stored: one that it overwrites has become positive.
  function SeenSign(overwritten: bool, s: Sign): Sign {
    if overwritten then 1 else s
  }

  // What is stored as quotient, possibly over the dividend or the divisor.
  function StoredQuotient(overA: bool, overB: bool, sa: Sign, va: nat, sb: Sign, vb: nat): int
    requires vb > 0
  {
    if va < vb then 0 else SignProduct(SeenSign(overA, sa), SeenSign(overB, sb)) * (va / vb)
  }

  // What is stored as remainder: its sign, and a small dividend itself, are read after the quotient is stored.
  function StoredRemainder(overA: bool, overB: bool, sa: Sign, va: nat, sb: Sign, vb: nat): int
    requires vb > 0
  {
    if va < vb then (if overA then 0 else sa * va)
    else (if overA then SignProduct(1, SeenSign(overB, sb)) else sa) * (va % vb)
  }

  // With the quotient apart from both operands the results are those of truncated division.
  lemma StoredApart(sa: Sign, va: nat, sb: Sign, vb: nat)
    requires vb > 0
    ensures StoredQuotient(false, false, sa, va, sb, vb) == TruncQuotient(sa * va, sb * vb)
    ensures StoredRemainder(false, false, sa, va, sb, vb) == TruncRemainder(sa * va, sb * vb)
  {
    hide TruncQuotient, TruncRemainder;
    if va < vb {
      SmallDividend(sa, va, sb, vb);
    } else {
      SignedDivision(sa, va, sb, vb);
    }
  }

  lemma SignMatters(s: Sign, t: Sign, v: nat)
    ensures s * v == t * v <==> s == t || v == 0
  {
    SignTimes(s, v);
    SignTimes(t, v);
  }

  lemma ZeroQuotients(va: nat, vb: nat)
    requires 0 < vb <= va
    ensures va / vb > 0 && (va == vb ==> va % vb == 0)
  {
    DivModSplit(va, vb);
    if va / vb <= 0 { MulMonotone(vb, va / vb, 0); }
    if va == vb { DivModUnique(va, vb, 1, 0); }
  }

  // Over the dividend, the quotient is right unless that is negative and not smaller than the divisor.
  lemma QuotientOverDividend(sa: Sign, va: nat, sb: Sign, vb: nat)
    requires vb > 0
    ensures StoredQuotient(true, false, sa, va, sb, vb) == TruncQuotient(sa * va, sb * vb) <==> sa == 1 || va < vb
    ensures StoredRemainder(true, false, sa, va, sb, vb) == TruncRemainder(sa * va, sb * vb)
       <==> if va < vb then va == 0 else sa == sb || va % vb == 0
  {
    hide TruncQuotient, TruncRemainder;
    if va < vb {
      SmallDividend(sa, va, sb, vb);
      SignTimes(sa, va);
    } else {
      SignedDivision(sa, va, sb, vb);
      ZeroQuotients(va, vb);
      SignMatters(sb, SignProduct(sa, sb), va / vb);
      SignMatters(sb, sa, va % vb);
    }
  }

  // Over the divisor, it is right unless that is negative and not larger; the remainder is right always.
  lemma QuotientOverDivisor(sa: Sign, va: nat, sb: Sign, vb: nat)
    requires vb > 0
    ensures StoredQuotient(false, true, sa, va, sb, vb) == TruncQuotient(sa * va, sb * vb) <==> sb == 1 || va < vb
    ensures StoredRemainder(false, true, sa, va, sb, vb) == TruncRemainder(sa * va, sb * vb)
  {
    hide TruncQuotient, TruncRemainder;
    if va < vb {
      SmallDividend(sa, va, sb, vb);
    } else {
      SignedDivision(sa, va, sb, vb);
      ZeroQuotients(va, vb);
      SignMatters(sa, SignProduct(sa, sb), va / vb);
    }
  }

  // A number divided by itself over itself gives one and nothing left.
  lemma QuotientOverBoth(s: Sign, v: nat)
    requires v > 0
    ensures StoredQuotient(true, true, s, v, s, v) == TruncQuotient(s * v, s * v) == 1
    ensures StoredRemainder(true, true, s, v, s, v) == TruncRemainder(s * v, s * v) == 0
  {
    hide TruncQuotient, TruncRemainder;
    SignedDivision(s, v, s, v);
    DivModUnique(v, v, 1, 0);
  }

  // A = Q * B + R with the quotient truncated towards zero; either result can be left out, and be
  // stored over an operand or the other result.
  method DivMpi(q: Mpi?, r: Mpi?, a: Mpi, b: Mpi) returns (ret: Status)
    modifies q, r
    ensures old(b.Value()) == 0 <==> ret == Fail(DivisionByZero)
    ensures ret.Fail? ==> ret.code == DivisionByZero || ret.code == AllocFailed
    ensures ret.Ok? ==> old(b.Abs()) > 0
    ensures ret.Ok? && q != null && q != r ==>
              q.Value() == StoredQuotient(q == a, q == b, old(a.s), old(a.Abs()), old(b.s), old(b.Abs()))
    ensures ret.Ok? && r != null ==>
              r.Value() == StoredRemainder(q == a, q == b, old(a.s), old(a.Abs()), old(b.s), old(b.Abs()))
    ensures ret.Ok? && r != null && q == null && |old(a.p)| > 0 ==> |r.p| >= Max(1, |old(r.p)|)
  {
    hide Pow, Val;
    var zero := b.CmpInt(0);
    SignTimes(b.s, b.Abs());
    if zero == 0 {
      return Fail(DivisionByZero);
    }
    var order := a.CmpAbs(b);
    if order < 0 {
      if q != null {
        :- q.Lset(0);
      }
      if r != null {
        :- r.Copy(a);
      }
      return Ok;
    }
    var x := new Mpi();
    var z := new Mpi();
    var k: nat;
    ret, k := DivideMagnitudes(x, z, a, b);
    if ret.IsFailure() { return; }
    if q != null {
      :- q.Copy(z);
      q.s := SignProduct(a.s, b.s);
    }
    if r != null {
      :- StoreRemainder(r, x, a, k);
    }
    ret := Ok;
  }

  // Scaled copies of the operands, divided: Z is |A| / |B| and X is 2^k times the remainder.
  method DivideMagnitudes(x: Mpi, z: Mpi, a: Mpi, b: Mpi) returns (ret: Status, k: nat)
    requires x != z && x != a && x != b && z != a && z != b && x.p == z.p == []
    requires 0 < b.Abs() <= a.Abs()
    modifies x, z
    ensures ret.Fail? ==> ret.code == AllocFailed
    ensures ret.Ok? ==> |x.p| >= 1 && |z.p| >= 1 && z.s == 1
    ensures ret.Ok? ==> z.Abs() == a.Abs() / b.Abs() && x.Abs() / Pow(2, k) == a.Abs() % b.Abs()
  {
    hide Pow, Val;
    k := 0;
    var y := new Mpi();
    ret := LoadMagnitudes(x, y, z, a, b);
    if ret.IsFailure() { return; }
    ret, k := Normalise(x, y);
    if ret.IsFailure() { return; }
    ret := DivideScaled(x, y, z);
    if ret.IsFailure() { return; }
    assert z.Abs() * (b.Abs() * Pow(2, k)) + x.Abs() == a.Abs() * Pow(2, k) && x.Abs() < b.Abs() * Pow(2, k);
    Unscale(a.Abs(), b.Abs(), Pow(2, k), z.Abs(), x.Abs());
    ret := Ok;
  }

  // Positive copies of the operands, and a quotient of zero with room for all digits.
  method LoadMagnitudes(x: Mpi, y: Mpi, z: Mpi, a: Mpi, b: Mpi) returns (ret: Status)
    requires x != z && x != y && y != z && x != a && x != b && y != a && y != b && z != a && z != b
    requires x.p == y.p == z.p == [] && 0 < b.Abs() <= a.Abs()
    modifies x, y, z
    ensures ret.Fail? ==> ret.code == AllocFailed
    ensures ret.Ok? ==> x.s == y.s == z.s == 1 && x.Abs() == a.Abs() && y.Abs() == b.Abs() && z.Abs() == 0
    ensures ret.Ok? ==> |x.p| == SizeOf(x.p) && |y.p| == SizeOf(y.p) && |x.p| <= |a.p| && |z.p| == |a.p| + 2
  {
    hide Pow, Val;
    ValOfZero();
    :- x.Copy(a);
    :- y.Copy(b);
    x.s, y.s := 1, 1;
    :- z.Grow(|a.p| + 2);
    :- z.Lset(0);
    SignTimes(1, z.Abs());
    CopiedSizes(a.p, x.p);
    CopiedSizes(b.p, y.p);
    return Ok;
  }

  // R := X / 2^k with the dividend's sign, a zero made positive.
  method StoreRemainder(r: Mpi, x: Mpi, a: Mpi, k: nat) returns (ret: Status)
    requires x != r && x != a && |x.p| >= 1
    modifies r, x
    ensures ret.Fail? ==> ret.code == AllocFailed
    ensures ret.Ok? ==> r.Value() == old(a.s) * (old(x.Abs()) / Pow(2, k))
    ensures ret.Ok? ==> |r.p| >= Max(1, |old(r.p)|)
  {
    hide Pow, Val;
    :- x.ShiftR(k);
    x.s := a.s;
    :- r.Copy(x);
    var none := r.CmpInt(0);
    if none == 0 {
      SignTimes(r.s, r.Abs());
      r.s := 1;
      SignTimes(1, r.Abs());
    }
    return Ok;
  }

  lemma CopiedSizes(a: seq<Limb>, x: seq<Limb>)
    requires Val(x) == Val(a) > 0 && |x| == Max(0, Max(1, SizeOf(a)))
    ensures |x| == SizeOf(x) <= |a|
  {
    hide Val, SizeOf;
    SizeOfBits(a);
    SizeOfBits(x);
    SizeFacts(a, SizeOf(a));
  }

  // The law the two results obey.
  lemma DivisionLaw(a: int, b: int)
    requires b != 0
    ensures a == TruncQuotient(a, b) * b + TruncRemainder(a, b)
    ensures -(if b > 0 then b else -b) < TruncRemainder(a, b) < (if b > 0 then b else -b)
    ensures TruncRemainder(a, b) > 0 ==> a > 0
    ensures TruncRemainder(a, b) < 0 ==> a < 0
  {
    if b > 0 { LawForPositive(a, b); } else { LawForPositive(a, -b); NegatedDivisor(a, b); }
  }

  lemma LawForPositive(a: int, b: int)
    requires b > 0
    ensures -b < TruncRemainder(a, b) < b
    ensures TruncRemainder(a, b) > 0 ==> a > 0
    ensures TruncRemainder(a, b) < 0 ==> a < 0
  {
    if a >= 0 {
      DivModSplit(a, b);
      Commute(b, a / b);
    } else {
      DivModSplit(-a, b);
      SignedProduct((-a) / b, b);
    }
  }

  lemma SignedProduct(q: int, b: int)
    ensures (-q) * b == -(b * q) && (-q) * b == q * -b
  {
  }

  lemma NegatedDivisor(a: int, b: int)
    requires b < 0
    ensures TruncRemainder(a, b) == TruncRemainder(a, -b)
  {
    SignedProduct(TruncQuotient(a, b), b);
    SignedProduct(TruncQuotient(a, -b), b);
  }

  // R = A mod B with 0 <= R < B; R may be stored over A. Over a positive B it could not: the divisor
  // of the correcting loops would change with the remainder, and they would not end.
  method ModMpi(r: Mpi, a: Mpi, b: Mpi) returns (ret: Status)
    requires r != b || b.Value() <= 0
    modifies r
    ensures old(b.Value()) < 0 ==> ret == Fail(NegativeValue)
    ensures old(b.Value()) == 0 ==> ret == Fail(DivisionByZero)
    ensures old(b.Value()) > 0 && ret.Fail? ==> ret.code == AllocFailed
    ensures ret.Ok? ==> old(b.Value()) > 0 && r.Value() == old(a.Value()) % old(b.Value())
    ensures ret.Ok? && |old(a.p)| > 0 ==> |r.p| >= Max(1, |old(r.p)|)
  {
    hide Pow, Val, TruncQuotient;
    var sign := b.CmpInt(0);
    if sign < 0 {
      return Fail(NegativeValue);
    }
    ghost var m, v := b.Value(), a.Value();
    hide StoredRemainder, StoredQuotient, TruncRemainder;
    ghost var sa, va, sb, vb := a.s, a.Abs(), b.s, b.Abs();
    :- DivMpi(null, r, a, b);
    StoredApart(sa, va, sb, vb);
    ghost var q := TruncQuotient(v, m);
    TruncDivision(v, m);
    NonZeroHasLimbs(b.s, b.p);
    ret := IntoRange(r, b, q, v);
  }

  // The correcting loops: the modulus is added or subtracted until the remainder is in range.
  method IntoRange(r: Mpi, b: Mpi, ghost q0: int, ghost v: int) returns (ret: Status)
    requires r != b && b.Value() > 0 && |b.p| > 0 && q0 * b.Value() + r.Value() == v
    modifies r
    ensures ret.Fail? ==> ret.code == AllocFailed
    ensures ret.Ok? ==> r.Value() == v % b.Value()
    ensures ret.Ok? && |old(r.p)| > 0 ==> |r.p| >= |old(r.p)|
  {
    hide Pow, Val;
    ghost var q, m := q0, b.Value();
    var sign := r.CmpInt(0);
    while sign < 0
      invariant sign == Compare(r.Value(), 0)
      invariant q * m + r.Value() == v
      invariant |old(r.p)| > 0 ==> |r.p| >= |old(r.p)|
      decreases -r.Value()
    {
      MoveQuotient(q, m, r.Value(), v);
      :- r.Add(r, b);
      q := q - 1;
      sign := r.CmpInt(0);
    }
    var order := r.Cmp(b);
    while order >= 0
      invariant order == Compare(r.Value(), m) && r.Value() >= 0
      invariant q * m + r.Value() == v
      invariant |old(r.p)| > 0 ==> |r.p| >= |old(r.p)|
      decreases r.Value()
    {
      MoveQuotient(q, m, r.Value(), v);
      :- r.Sub(r, b);
      q := q + 1;
      order := r.Cmp(b);
    }
    DivModUnique(v, m, q, r.Value());
    return Ok;
  }

  lemma NonZeroHasLimbs(s: Sign, p: seq<Limb>)
    requires s * Val(p) != 0
    ensures |p| > 0
  {
    if p == [] { EmptyIsZero(s, p); assert false; }
  }

  lemma TruncDivision(v: int, m: int)
    requires m != 0
    ensures TruncQuotient(v, m) * m + TruncRemainder(v, m) == v
  {
  }

  lemma MoveQuotient(q: int, m: int, x: int, v: int)
    requires q * m + x == v
    ensures (q - 1) * m + (x + m) == v
    ensures (q + 1) * m + (x - m) == v
  {
  }

  lemma EmptyIsZero(s: Sign, p: seq<Limb>)
    requires p == []
    ensures s * Val(p) == 0
  {
    SignTimes(s, 0);
  }
}
