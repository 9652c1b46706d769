// Montgomery multiplication (HAC 14.36) with R = b^n for an odd modulus of n limbs.
module Montgomery {
  import opened Numbers
  import opened Limbs
  import opened Words
  import opened Bignum

  // ---------------------------------------------------------------- the constant -N^-1 mod b

  // The table behind the starting value: for odd a, a * (a + 8 * bit 2 of a + 2) is 1 modulo 16.
  lemma OddResidues(a: int, r: int)
    requires a in {1, 3, 5, 7, 9, 11, 13, 15} && r == (if a == 15 then 1 else a + 2)
    ensures (a * (a + ((r / 4) % 2) * 8) - 1) % 16 == 0
  {
  }

  lemma QuarterBit(v: int, q: int, r: int)
    requires v == 16 * q + r && 0 <= r < 16
    ensures (v / 4) % 2 == (r / 4) % 2
  {
    DivModUnique(v, 4, 4 * q + r / 4, r % 4);
  }

  // The starting value is the inverse modulo 16; e and f count the multiples of 16 lost to wrap-around.
  lemma NewtonStart(m: int, v: int, x: int, e: int, f: int)
    requires m >= 0 && m % 2 == 1
    requires v == m + 2 - 16 * e && x == m + ((v / 4) % 2) * 8 - 16 * f
    ensures (m * x - 1) % 16 == 0
  {
    var a, j := m % 16, m / 16;
    OddSixteenth(m);
    var r, q := if a == 15 then 1 else a + 2, if a == 15 then j - e + 1 else j - e;
    QuarterBit(v, q, r);
    OddResidues(a, r);
    ResidueProduct(m, x, a, a + ((r / 4) % 2) * 8, j, j - f);
  }

  lemma OddSixteenth(m: int)
    requires m >= 0 && m % 2 == 1
    ensures m == 16 * (m / 16) + m % 16 && m % 16 in {1, 3, 5, 7, 9, 11, 13, 15}
  {
    var a, j := m % 16, m / 16;
    assert m == 2 * (8 * j) + a;
    EvenMultiple(a, 2, 8 * j);
  }

  lemma ResidueProduct(m: int, x: int, a: int, y: int, j: int, k: int)
    requires m == a + 16 * j && x == y + 16 * k && (a * y - 1) % 16 == 0
    ensures (m * x - 1) % 16 == 0
  {
    var t := (a * y - 1) / 16;
    assert m * x == a * y + 16 * (a * k + j * y + 16 * (j * k));
    DivModUnique(m * x - 1, 16, t + a * k + j * y + 16 * (j * k), 0);
  }

  // One Newton step doubles the number of correct bits.
  lemma NewtonStep(m: int, x: int, x1: int, p: int, j: int, base: int, k: int)
    requires p > 0 && (m * x - 1) % p == 0
    requires base == (p * p) * k
    requires x1 == x * (2 - m * x) + j * base
    ensures (m * x1 - 1) % (p * p) == 0
  {
    var t := (m * x - 1) / p;
    assert m * x == 1 + t * p;
    assert m * x1 == (m * x) * (2 - m * x) + m * (j * base);
    assert (1 + t * p) * (1 - t * p) == 1 - (t * t) * (p * p);
    assert m * (j * base) == (m * j * k) * (p * p);
    assert m * x1 - 1 == (m * j * k - t * t) * (p * p);
    DivModUnique(m * x1 - 1, p * p, m * j * k - t * t, 0);
  }

  // x * (2 - m * x) computed with wrapping words is that number up to a multiple of the word size.
  lemma WrappedStep(m: Limb, x: Limb) returns (j: int)
    ensures WMul(x, WSub(2, WMul(m, x))) == x * (2 - m * x) + j * BASE
  {
    SmallWords();
    var w, q1 := WMul(m, x), (m * x) / BASE;
    DivModSplit(m * x, BASE);
    var e := WSub(2, w);
    var c := if 2 >= w then 0 else 1;
    DivModSplit(x * e, BASE);
    var q3 := (x * e) / BASE;
    j := x * (q1 + c) - q3;
    WrappedArithmetic(m * x, x, w, q1, e, c, q3, BASE);
  }

  lemma WrappedArithmetic(mx: int, x: int, w: int, q1: int, e: int, c: int, q3: int, base: int)
    requires mx == base * q1 + w && e == 2 - w + c * base
    ensures x * e - base * q3 == x * (2 - mx) + (x * (q1 + c) - q3) * base
  {
    assert e == (2 - mx) + (q1 + c) * base;
    assert x * e == x * (2 - mx) + (x * (q1 + c)) * base;
  }

  // The Newton iteration: mm * N[0] is -1 modulo the word size.
  method MontgInit(n: Mpi) returns (mm: Limb)
    requires |n.p| > 0 && n.p[0] % 2 == 1
    ensures (mm * n.p[0] + 1) % BASE == 0
  {
    hide Pow;
    SmallWords();
    var m0 := n.p[0];
    var v := WAdd(m0, 2);
    WordsHoldSixteen();
    var x: Limb := WAdd(m0, ((v / 4) % 2) * 8);
    ghost var g := BASE / 16;
    NewtonStart(m0, v, x, if m0 + 2 < BASE then 0 else g, if m0 + ((v / 4) % 2) * 8 < BASE then 0 else g);
    var i: nat := BI_L;
    ghost var k: nat := 4;
    PowFour();
    while i >= 8
      invariant i in {64, 32, 16, 8, 4} && k * i == 4 * BI_L
      invariant (m0 * x - 1) % Pow(2, k) == 0
    {
      var j := WrappedStep(m0, x);
      PowAdd(2, k, k);
      PowAdd(2, k + k, BI_L - (k + k));
      NewtonStep(m0, x, WMul(x, WSub(2, WMul(m0, x))), Pow(2, k), j, BASE, Pow(2, BI_L - (k + k)));
      x := WMul(x, WSub(2, WMul(m0, x)));
      k := k + k;
      i := i / 2;
    }
    mm := WAdd(BASE - 1 - x, 1);
    NegatedInverse(m0, x, mm);
  }

  lemma PowFour()
    ensures Pow(2, 4) == 16
  {
  }

  lemma WordsHoldSixteen()
    ensures BASE % 16 == 0 && BASE > 16
  {
    PowFour();
    PowAdd(2, 4, BI_L - 4);
    PowLiterals();
    PowMonotone(2, 8, BI_L);
    DivModUnique(BASE, 16, Pow(2, BI_L - 4), 0);
  }

  lemma NegatedInverse(m: Limb, x: Limb, mm: Limb)
    requires (m * x - 1) % BASE == 0 && mm == WAdd(BASE - 1 - x, 1)
    ensures (mm * m + 1) % BASE == 0
  {
    SmallWords();
    var q := (m * x - 1) / BASE;
    DivModSplit(m * x - 1, BASE);
    var c := if x == 0 then 0 else 1;
    NegatedArithmetic(m, x, mm, c, q, BASE);
    DivModUnique(mm * m + 1, BASE, c * m - q, 0);
  }

  lemma NegatedArithmetic(m: int, x: int, mm: int, c: int, q: int, base: int)
    requires mm == c * base - x && m * x - 1 == base * q
    ensures mm * m + 1 == (c * m - q) * base
  {
  }

  // ---------------------------------------------------------------- multiplication

  lemma ValLow(p: seq<Limb>)
    requires |p| > 0
    ensures Congruent(Val(p), p[0], BASE)
  {
    CongruentIntro(Val(p), p[0], BASE, Val(p[1..]));
  }

  // The word u1 that makes the low limb vanish.
  function ClearingWord(d0: Limb, u0: Limb, b0: Limb, mm: Limb): Limb {
    SmallWords();
    WMul(WAdd(d0, WMul(u0, b0)), mm)
  }

  // With mm = -N^-1 the sum w + b * u0 + n * u1 is a multiple of the word size.
  lemma LowLimbClears(w: nat, b: nat, n: nat, d0: Limb, b0: Limb, n0: Limb, u0: Limb, mm: Limb)
    requires Congruent(w, d0, BASE) && Congruent(b, b0, BASE) && Congruent(n, n0, BASE)
    requires (mm * n0 + 1) % BASE == 0
    ensures (w + b * u0 + n * ClearingWord(d0, u0, b0, mm)) % BASE == 0
  {
    SmallWords();
    var kw := CongruentWitness(w, d0, BASE);
    var kb := CongruentWitness(b, b0, BASE);
    var kn := CongruentWitness(n, n0, BASE);
    var x := WMul(u0, b0);
    var sum := WAdd(d0, x);
    var u1 := ClearingWord(d0, u0, b0, mm);
    var q1, q2, q3 := (u0 * b0) / BASE, (sum * mm) / BASE, (mm * n0 + 1) / BASE;
    var c := if d0 + x < BASE then 0 else 1;
    DivModSplit(u0 * b0, BASE);
    DivModSplit(sum * mm, BASE);
    DivModSplit(mm * n0 + 1, BASE);
    var k := ClearingQuotient(w, b, n, d0, b0, n0, u0, u1, mm, x, sum, kw, kb, kn, q1, q2, q3, c, BASE);
    DivModUnique(w + b * u0 + n * u1, BASE, k, 0);
  }

  lemma ClearingQuotient(w: int, b: int, n: int, d0: int, b0: int, n0: int, u0: int, u1: int, mm: int, x: int, sum: int,
                         kw: int, kb: int, kn: int, q1: int, q2: int, q3: int, c: int, base: int) returns (k: int)
    requires w == d0 + kw * base && b == b0 + kb * base && n == n0 + kn * base
    requires u0 * b0 == base * q1 + x && sum == d0 + x - c * base
    requires sum * mm == base * q2 + u1 && mm * n0 + 1 == base * q3
    ensures w + b * u0 + n * u1 == k * base
  {
    k := kw + kb * u0 + kn * u1 + q1 + c + sum * q3 - q2 * n0;
    MoveBase(b, b0, kb, u0, base);
    MoveBase(n, n0, kn, u1, base);
    ClearingTerm(n0, u1, sum, mm, q2, q3, base);
    Commute(u0, b0);
    Collect(kw, kb * u0, kn * u1, q1, c, sum * q3, q2 * n0, base);
  }

  lemma MoveBase(b: int, b0: int, kb: int, u: int, base: int)
    requires b == b0 + kb * base
    ensures b * u == b0 * u + (kb * u) * base
  {
    MulAssoc(kb, base, u);
    Commute(base, u);
    MulAssoc(kb, u, base);
  }

  lemma ClearingTerm(n0: int, u1: int, sum: int, mm: int, q2: int, q3: int, base: int)
    requires sum * mm == base * q2 + u1 && mm * n0 + 1 == base * q3
    ensures n0 * u1 == (sum * q3) * base - sum - (q2 * n0) * base
  {
    Distribute(n0, sum * mm, base * q2);
    MulAssoc(sum, mm, n0);
    Commute(n0, sum * mm);
    Distribute(sum, mm * n0, 1);
    MulAssoc(sum, q3, base);
    Commute(q3, base);
    MulAssoc(q2, n0, base);
    Commute(n0, base);
    MulAssoc(q2, base, n0);
    Commute(q2, base);
    Commute(n0, base * q2);
  }

  lemma Collect(a: int, b: int, c: int, d: int, e: int, f: int, g: int, base: int)
    ensures (a + b + c + d + e + f - g) * base
         == a * base + b * base + c * base + d * base + e * base + f * base - g * base
  {
  }

  lemma RowBound(w: nat, b: nat, n: nat, u0: nat, u1: nat, r: nat, base: nat)
    requires base >= 2 && w < b + n && b <= n < r && u0 < base && u1 < base
    ensures w + b * u0 <= w + b * u0 + n * u1 < base * (b + n) <= (base * base) * r
  {
    MulMonotone(b, u0, base - 1);
    MulMonotone(n, u1, base - 1);
    MulMonotone(n, 0, u1);
    assert base * (b + n) == b + b * (base - 1) + n + n * (base - 1);
    MulMonotone(base, b + n, base * r) by {
      MulMonotone(r, 2, base);
    }
    MulAssoc(base, base, r);
  }

  // What a modulus and a factor have to satisfy.
  ghost predicate Operands(b: seq<Limb>, n: seq<Limb>) {
    |b| > 0 && |n| > 0 && Val(b) <= Val(n)
  }

  // One row: add u0 * B and the clearing multiple of N into the window of n + 2 limbs at `off`.
  method MontRow(t: Mpi, off: nat, b: Mpi, n: Mpi, m: nat, u0: Limb, mm: Limb) returns (ghost u1: Limb)
    requires t != b && t != n && Operands(b.p, n.p) && off + |n.p| + 2 <= |t.p|
    requires m <= |b.p| && m <= |n.p| && Val(b.p[..m]) == Val(b.p)
    requires (mm * n.p[0] + 1) % BASE == 0
    requires Val(t.p[off..off + |n.p| + 2]) < Val(b.p) + Val(n.p)
    modifies t`p
    ensures |t.p| == |old(t.p)| && t.p[..off] == old(t.p)[..off] && t.p[off] == 0
    ensures Val(t.p[off..off + |n.p| + 2]) < BASE * (Val(b.p) + Val(n.p))
    ensures Val(t.p[off..off + |n.p| + 2])
         == Val(old(t.p)[off..off + |n.p| + 2]) + Val(b.p) * u0 + Val(n.p) * u1
  {
    hide Val, Pow, Congruent, ClearingWord;
    ghost var hi := off + |n.p| + 2;
    ghost var w0 := Val(t.p[off..hi]);
    var clear := ClearingWord(t.p[off], u0, b.p[0], mm);
    u1 := clear;
    ValLow(t.p[off..hi]);
    ValLow(b.p);
    ValLow(n.p);
    LowLimbClears(w0, Val(b.p), Val(n.p), t.p[off], b.p[0], n.p[0], u0, mm);
    ValBound(n.p);
    SmallWords();
    RowBound(w0, Val(b.p), Val(n.p), u0, u1, Pow(BASE, |n.p|), BASE);
    RowRoom(|n.p|);
    t.MulHlp(m, b.p, off, u0, hi);
    assert n.p[..|n.p|] == n.p;
    t.MulHlp(|n.p|, n.p, off, clear, hi);
    LowLimbZero(t.p[off..hi]);
    assert t.p[off..hi][0] == t.p[off];
    assert Val(t.p[off..hi]) == w0 + Val(b.p) * u0 + Val(n.p) * u1;
  }

  lemma RowRoom(n: nat)
    ensures Pow(BASE, n + 2) == (BASE * BASE) * Pow(BASE, n)
  {
    MulAssoc(BASE, BASE, Pow(BASE, n));
  }

  lemma LowLimbZero(p: seq<Limb>)
    requires |p| > 0 && Val(p) % BASE == 0
    ensures p[0] == 0
  {
    DivModUnique(Val(p), BASE, Val(p[1..]), p[0]);
  }

  // The window after i rows: the Montgomery sum of the i low limbs of A, below B + N, its top limb clear.
  ghost predicate Window(t: seq<Limb>, i: nat, a: seq<Limb>, b: nat, n: nat, len: nat)
  {
    && n > 0 && i <= len <= |a| && i + len + 2 <= |t|
    && Val(t[i..i + len + 2]) < b + n
    && t[i + len + 1] == 0
    && Congruent(Val(t[i..i + len + 2]) * Pow(BASE, i), Val(a[..i]) * b, n)
  }

  lemma WindowStart(t: seq<Limb>, a: seq<Limb>, b: nat, n: nat, len: nat)
    requires n > 0 && len <= |a| && len + 2 <= |t| && ZeroFrom(t, 0)
    ensures Window(t, 0, a, b, n, len)
  {
    ValZero(t[0..len + 2]);
    assert Val(a[..0]) == 0;
    CongruentIntro(0, 0, n, 0);
  }

  // Shifting the window by the cleared low limb divides by the word size.
  lemma WindowStep(t0: seq<Limb>, t1: seq<Limb>, t2: seq<Limb>, i: nat, a: seq<Limb>, b: nat, n: nat, len: nat, u1: int)
    requires Window(t0, i, a, b, n, len) && i < len && |t1| == |t0| == |t2| && i + 1 + len + 2 <= |t0|
    requires t1[i] == 0
    requires Val(t1[i..i + len + 2]) < BASE * (b + n)
    requires Val(t1[i..i + len + 2]) == Val(t0[i..i + len + 2]) + b * a[i] + n * u1
    requires t2 == t1[i := a[i]][i + len + 2 := 0]
    ensures Window(t2, i + 1, a, b, n, len)
  {
    hide Congruent, Val, Pow;
    var w0, w1 := Val(t0[i..i + len + 2]), Val(t1[i..i + len + 2]);
    var low := t1[i + 1..i + len + 2];
    assert t2[i + 1..i + 1 + len + 2] == low + [0];
    ValAppendZero(low);
    var w := Val(low);
    assert w1 == BASE * w by { ValDropZero(t1[i..i + len + 2]); assert t1[i..i + len + 2][1..] == low; }
    MulStrict(BASE, w, b + n);
    ValNext(a, i);
    PowOneMore(i);
    StepCongruent(w, w0, b, n, a[i], u1, Pow(BASE, i), BASE, Val(a[..i]));
  }

  lemma ValAppendZero(p: seq<Limb>)
    ensures Val(p + [0]) == Val(p)
  {
    ValConcat(p, [0]);
    ValSingle(0);
    assert Pow(BASE, |p|) * 0 == 0;
  }

  lemma ValDropZero(p: seq<Limb>)
    requires |p| > 0 && p[0] == 0
    ensures Val(p) == BASE * Val(p[1..])
  {
  }

  lemma PowOneMore(i: nat)
    ensures Pow(BASE, i + 1) == BASE * Pow(BASE, i)
  {
  }

  lemma StepCongruent(w: int, w0: int, b: int, n: int, x: int, u1: int, p: int, base: int, v: int)
    requires n > 0 && base * w == w0 + b * x + n * u1
    requires Congruent(w0 * p, v * b, n)
    ensures Congruent(w * (base * p), (v + p * x) * b, n)
  {
    var k := CongruentWitness(w0 * p, v * b, n);
    assert w * (base * p) == (base * w) * p;
    assert (w0 + b * x + n * u1) * p == w0 * p + (b * x) * p + (u1 * p) * n;
    assert (v + p * x) * b == v * b + (b * x) * p;
    Distribute(n, k, u1 * p);
    CongruentIntro(w * (base * p), (v + p * x) * b, n, k + u1 * p);
  }

  // The full window is already the result, or exceeds it by one N.
  lemma WindowDone(t: seq<Limb>, a: seq<Limb>, b: nat, n: nat, len: nat, d: seq<Limb>)
    requires Window(t, len, a, b, n, len) && Val(a[..len]) == Val(a)
    requires d == t[len..len + len + 1]
    ensures Val(d) < b + n && Congruent(Val(d) * Pow(BASE, len), Val(a) * b, n)
    ensures Val(t) >= Val(d)
  {
    hide Congruent, Val, Pow;
    var w := t[len..len + len + 2];
    assert w == d + [0];
    ValAppendZero(d);
    ValSplit(t, len);
    var r := t[len..];
    assert w == r[..len + 2];
    ValSplit(r, len + 2);
    assert Pow(BASE, len + 2) * Val(r[len + 2..]) >= 0;
    MulMonotone(Val(r), 1, Pow(BASE, len));
    Commute(Val(r), Pow(BASE, len));
  }

  // Subtracting N once keeps the congruence.
  lemma ReduceOnce(d: int, r: int, x: int, n: int)
    requires n > 0 && Congruent(d * r, x, n)
    ensures Congruent((d - n) * r, x, n)
  {
    var k := CongruentWitness(d * r, x, n);
    assert (d - n) * r == x + (k - r) * n;
    CongruentIntro((d - n) * r, x, n, k - r);
  }

  // x is the Montgomery product of a and b modulo n: reduced, and x * R congruent to a * b.
  ghost predicate MontProduct(x: nat, a: nat, b: nat, r: nat, n: nat) {
    n > 0 && x < n && Congruent(x * r, a * b, n)
  }

  // A = A * B * R^-1 mod N, also when B is A. Refused exactly when T has too few limbs; the code
  // relies on 2n + 2 of them when it goes ahead.
  method MontMul(a: Mpi, b: Mpi, n: Mpi, mm: Limb, t: Mpi) returns (ret: Status)
    requires a != n && a != t && b != t && n != t
    requires Operands(b.p, n.p) && n.Abs() > 0 && |a.p| >= |n.p| + 1 && a.Abs() < Pow(BASE, |n.p|)
    requires |t.p| >= |n.p| + 1 ==> |t.p| >= 2 * |n.p| + 2
    requires (mm * n.p[0] + 1) % BASE == 0
    modifies a`p, t`p
    ensures ret == (if |old(t.p)| < |n.p| + 1 then Fail(BadInputData) else Ok)
    ensures |t.p| == |old(t.p)| && |a.p| == |old(a.p)|
    ensures ret.Ok? ==> MontProduct(a.Abs(), old(a.Abs()), old(b.Abs()), Pow(BASE, |n.p|), n.Abs())
  {
    hide Val, Pow, Congruent, ClearingWord, Window;
    if |t.p| < |n.p| + 1 {
      return Fail(BadInputData);
    }
    ghost var a0, b0, n0 := a.p, Val(b.p), Val(n.p);
    t.p := Zeros(|t.p|);
    var len := |n.p|;
    var m := if |b.p| < len then |b.p| else len;
    LowLimbs(b.p, n.p, m);
    ValSmall(a.p, len);
    WindowStart(t.p, a0, b0, n0, len);
    MontRows(a, b, n, m, mm, t);
    WindowDone(t.p, a0, b0, n0, len, t.p[len..len + len + 1]);
    CopyBack(a0, t.p, len);
    a.p := t.p[len..len + len + 1] + a.p[len + 1..];
    ghost var d := a.Abs();
    var order := a.CmpAbs(n);
    assert n.p[..len] == n.p;
    if order >= 0 {
      a.SubHlp(len, n.p);
      ReduceOnce(d, Pow(BASE, len), Val(a0) * b0, n0);
    } else {
      ValSplit(a.p, len);
      assert Pow(BASE, len) * Val(a.p[len..]) >= 0;
      t.SubHlp(len, a.p);
    }
    return Ok;
  }

  lemma CopyBack(a: seq<Limb>, t: seq<Limb>, len: nat)
    requires |a| >= len + 1 && ZeroFrom(a, len) && 2 * len + 1 <= |t|
    ensures Val(t[len..len + len + 1] + a[len + 1..]) == Val(t[len..len + len + 1])
  {
    hide Val, Pow;
    var d := t[len..len + len + 1];
    var p := d + a[len + 1..];
    ValTruncate(p, len + 1);
    assert p[..len + 1] == d;
  }

  // The limbs of B above those of N are zero.
  lemma LowLimbs(b: seq<Limb>, n: seq<Limb>, m: nat)
    requires Val(b) <= Val(n) && m == if |b| < |n| then |b| else |n|
    ensures Val(b[..m]) == Val(b)
  {
    hide Val, Pow;
    ValBound(n);
    if |b| < |n| {
      assert b[..m] == b;
    } else {
      ValSmall(b, m);
    }
  }

  // The row loop. Each pass leaves limb i of A in the limb it has cleared, as the code does.
  method MontRows(a: Mpi, b: Mpi, n: Mpi, m: nat, mm: Limb, t: Mpi)
    requires a != t && b != t && n != t && Operands(b.p, n.p) && n.Abs() > 0
    requires |a.p| >= |n.p| && |t.p| >= 2 * |n.p| + 2
    requires m <= |b.p| && m <= |n.p| && Val(b.p[..m]) == Val(b.p)
    requires (mm * n.p[0] + 1) % BASE == 0
    requires Window(t.p, 0, a.p, b.Abs(), n.Abs(), |n.p|)
    modifies t`p
    ensures |t.p| == |old(t.p)| && Window(t.p, |n.p|, a.p, b.Abs(), n.Abs(), |n.p|)
  {
    hide Val, Pow, Congruent, ClearingWord, Window;
    var i: nat := 0;
    while i < |n.p|
      invariant i <= |n.p| && |t.p| == |old(t.p)|
      invariant Window(t.p, i, a.p, b.Abs(), n.Abs(), |n.p|)
    {
      MontIteration(a, b, n, m, mm, t, i);
      i := i + 1;
    }
  }

  method MontIteration(a: Mpi, b: Mpi, n: Mpi, m: nat, mm: Limb, t: Mpi, i: nat)
    requires a != t && b != t && n != t && Operands(b.p, n.p) && i < |n.p|
    requires |a.p| >= |n.p| && |t.p| >= 2 * |n.p| + 2
    requires m <= |b.p| && m <= |n.p| && Val(b.p[..m]) == Val(b.p)
    requires (mm * n.p[0] + 1) % BASE == 0
    requires Window(t.p, i, a.p, b.Abs(), n.Abs(), |n.p|)
    modifies t`p
    ensures |t.p| == |old(t.p)| && Window(t.p, i + 1, a.p, b.Abs(), n.Abs(), |n.p|)
  {
    hide Val, Pow, Congruent, ClearingWord;
    ghost var b0, n0 := Val(b.p), Val(n.p);
    var len := |n.p|;
    var u0 := a.p[i];
    SmallWords();
    ghost var t0 := t.p;
    ghost var u1 := MontRow(t, i, b, n, m, u0, mm);
    ghost var t1 := t.p;
    t.p := t.p[i := u0];
    t.p := t.p[i + 1 + len + 1 := 0];
    WindowStep(t0, t1, t.p, i, a.p, b0, n0, len, u1);
  }

  // A = A * R^-1 mod N: the product with the one-limb number 1.
  method MontRed(a: Mpi, n: Mpi, mm: Limb, t: Mpi) returns (ret: Status)
    requires a != n && a != t && n != t
    requires |n.p| > 0 && n.Abs() > 0 && |a.p| >= |n.p| + 1 && a.Abs() < Pow(BASE, |n.p|)
    requires |t.p| >= |n.p| + 1 ==> |t.p| >= 2 * |n.p| + 2
    requires (mm * n.p[0] + 1) % BASE == 0
    modifies a`p, t`p
    ensures ret == (if |old(t.p)| < |n.p| + 1 then Fail(BadInputData) else Ok)
    ensures |t.p| == |old(t.p)| && |a.p| == |old(a.p)|
    ensures ret.Ok? ==> MontProduct(a.Abs(), old(a.Abs()), 1, Pow(BASE, |n.p|), n.Abs())
  {
    hide Val, Pow;
    SmallWords();
    var u := new Mpi.OfInt(1);
    SignTimes(u.s, u.Abs());
    ret := MontMul(a, u, n, mm, t);
  }
}
