// Bit counts, single bits and how they sit in limb vectors.
module Bits {
  import opened Numbers
  import opened Limbs

  // The number of significant bits.
  ghost function BitCount(v: nat): (r: nat)
    ensures v == 0 <==> r == 0
  {
    if v == 0 then 0 else 1 + BitCount(v / 2)
  }

  lemma {:induction false} BitCountBounds(v: nat)
    ensures v < Pow(2, BitCount(v))
    ensures v > 0 ==> Pow(2, BitCount(v) - 1) <= v
  {
    if v > 0 {
      BitCountBounds(v / 2);
    }
  }

  lemma {:induction false} BitCountUnique(v: nat, r: nat)
    requires v < Pow(2, r) && (r > 0 ==> Pow(2, r - 1) <= v)
    ensures r == BitCount(v)
  {
    BitCountBounds(v);
    var q := BitCount(v);
    if r < q { PowMonotone(2, r, q - 1); }
    if q < r { PowMonotone(2, q, r - 1); }
  }

  lemma {:induction false} BitCountMonotone(v: nat, w: nat)
    requires v <= w
    ensures BitCount(v) <= BitCount(w)
  {
    BitCountBounds(v);
    BitCountBounds(w);
    if BitCount(v) > BitCount(w) { PowMonotone(2, BitCount(w), BitCount(v) - 1); }
  }

  lemma BitCountShift(v: nat, k: nat)
    requires v > 0
    ensures v * Pow(2, k) > 0
    ensures BitCount(v * Pow(2, k)) == BitCount(v) + k
  {
    BitCountBounds(v);
    var r := BitCount(v);
    PowAdd(2, r, k);
    PowAdd(2, r - 1, k);
    ScaleRange(v, Pow(2, r - 1), Pow(2, r), Pow(2, k));
    BitCountUnique(v * Pow(2, k), r + k);
  }

  lemma ScaleRange(v: int, lo: int, hi: int, t: int)
    requires 0 < lo <= v < hi && t > 0
    ensures 0 < lo * t <= v * t < hi * t
  {
  }

  function LimbsFor(bits: nat): nat {
    bits / BI_L + if bits % BI_L != 0 then 1 else 0
  }

  lemma PowBase(i: nat)
    ensures Pow(BASE, i) == Pow(2, BI_L * i)
  {
    PowMul(2, BI_L, i);
  }

  // Bits of the top significant limb and the limbs below it.
  lemma BitsOfTop(p: seq<Limb>, i: nat, j: nat)
    requires i < |p| && ZeroFrom(p, i + 1)
    requires p[i] < Pow(2, j) && j > 0 && Pow(2, j - 1) <= p[i]
    ensures BitCount(Val(p)) == BI_L * i + j
  {
    ValTruncate(p, i + 1);
    ValNext(p, i);
    ValBound(p[..i]);
    PowBase(i);
    var w := Pow(BASE, i);
    DigitBound(w, Val(p[..i]), p[i], Pow(2, j));
    MulMonotone(w, Pow(2, j - 1), p[i]);
    PowAdd(2, BI_L * i, j);
    PowAdd(2, BI_L * i, j - 1);
    BitCountUnique(Val(p), BI_L * i + j);
  }

  // The significant limb count is the bit count rounded up.
  lemma SizeOfBits(p: seq<Limb>)
    ensures SizeOf(p) == LimbsFor(BitCount(Val(p)))
  {
    hide Pow, Val, BitCount, SizeOf;
    var n := SizeOf(p);
    SizeFacts(p, n);
    if n > 0 {
      var b := BitCount(Val(p));
      BitCountBounds(Val(p));
      PowBase(n);
      PowBase(n - 1);
      if b > BI_L * n { PowMonotone(2, BI_L * n, b - 1); }
      if b <= BI_L * (n - 1) { PowMonotone(2, b, BI_L * (n - 1)); }
      LimbsForUnique(b, n);
    }
  }

  lemma LimbsForUnique(bits: nat, n: nat)
    requires n > 0 && BI_L * (n - 1) < bits <= BI_L * n
    ensures LimbsFor(bits) == n
  {
    if bits == BI_L * n {
      DivModUnique(bits, BI_L, n, 0);
    } else {
      DivModUnique(bits, BI_L, n - 1, bits - BI_L * (n - 1));
    }
  }

  lemma LimbsForBounds(bits: nat)
    ensures bits <= BI_L * LimbsFor(bits)
    ensures bits > 0 ==> BI_L * (LimbsFor(bits) - 1) < bits
    ensures bits == 0 ==> LimbsFor(bits) == 0
  {
  }

  lemma LimbsForMonotone(a: nat, b: nat)
    requires a <= b
    ensures LimbsFor(a) <= LimbsFor(b)
    ensures b < a + BI_L ==> LimbsFor(b) <= LimbsFor(a) + 1
  {
    hide LimbsFor;
    LimbsForBounds(a);
    LimbsForBounds(b);
    if LimbsFor(a) > LimbsFor(b) { MulMonotone(BI_L, LimbsFor(b), LimbsFor(a) - 1); }
    if b < a + BI_L && LimbsFor(b) > LimbsFor(a) + 1 {
      MulMonotone(BI_L, LimbsFor(a) + 1, LimbsFor(b) - 1);
      Distribute(BI_L, LimbsFor(a), 1);
    }
  }

  // ---------------------------------------------------------------- single bits

  function BitAt(v: nat, k: nat): nat
    ensures BitAt(v, k) <= 1
  {
    (v / Pow(2, k)) % 2
  }

  lemma DivDiv(v: nat, a: nat, b: nat)
    requires a > 0 && b > 0
    ensures a * b > 0 && v / (a * b) == (v / a) / b
  {
    var q := v / a;
    var r := q / b;
    assert v == r * (a * b) + ((q % b) * a + v % a) by {
      assert q == r * b + q % b;
      assert q * a == (r * b) * a + (q % b) * a;
      assert (r * b) * a == r * (a * b);
    }
    DigitBound(a, v % a, q % b, b);
    DivModUnique(v, a * b, r, (q % b) * a + v % a);
  }

  // Reading bit j of limb i is reading bit BI_L * i + j of the number.
  lemma LimbBit(p: seq<Limb>, i: nat, j: nat)
    requires i < |p| && j < BI_L
    ensures BitAt(p[i], j) == BitAt(Val(p), BI_L * i + j)
  {
    var w, t, h := Pow(BASE, i), Pow(2, j), Pow(2, BI_L - j - 1);
    var low, top, rest := Val(p[..i]), Val(p[i..]), Val(p[i..][1..]);
    assert top == p[i] + BASE * rest;
    assert Pow(2, BI_L - j) == 2 * h;
    hide Pow, Val;
    ValSplit(p, i);
    ValBound(p[..i]);
    assert |p[..i]| == i;
    PowBase(i);
    PowAdd(2, BI_L * i, j);
    PowAdd(2, j, BI_L - j);
    BitOfDigit(Val(p), low, w, top, p[i], t, h, rest, BASE, Pow(2, BI_L * i + j));
  }

  lemma BitOfDigit(v: nat, low: nat, w: nat, top: nat, x: nat, t: nat, h: nat, rest: nat, base: nat, place: nat)
    requires v == low + w * top && low < w && t > 0 && place == w * t
    requires top == x + base * rest && base == t * (2 * h)
    ensures place > 0 && (v / place) % 2 == (x / t) % 2
  {
    SplitBit(v, low, w, top, t);
    TopBits(x, t, h, rest, base);
  }

  lemma SplitBit(v: nat, lo: nat, w: nat, top: nat, t: nat)
    requires v == lo + w * top && lo < w && t > 0
    ensures w * t > 0 && v / (w * t) == top / t
  {
    DivModUnique(v, w, top, lo);
    DivDiv(v, w, t);
  }

  lemma TopBits(x: int, t: int, h: int, rest: int, base: int)
    requires t > 0 && x >= 0 && base == t * (2 * h)
    ensures ((x + base * rest) / t) % 2 == (x / t) % 2
  {
    MoveFactor(t, h, rest);
    DivModSplit(x, t);
    AddMultiple(x, x / t, x % t, t, 2 * (h * rest), base * rest);
  }

  lemma MoveFactor(t: int, h: int, rest: int)
    ensures t * (2 * h) * rest == (2 * (h * rest)) * t
  {
    MulAssoc(t, 2 * h, rest);
    MulAssoc(2, h, rest);
    Commute(t, 2 * (h * rest));
  }

  lemma AddMultiple(x: int, q: int, r: int, t: int, k: int, m: int)
    requires t > 0 && x == t * q + r && 0 <= r < t && m == k * t
    ensures (x + m) / t == q + k
  {
    Commute(t, q);
    assert (q + k) * t == q * t + k * t;
    DivModUnique(x + m, t, q + k, r);
  }

  // One more low bit known to be zero.
  lemma LowBitZero(v: nat, k: nat)
    requires v % Pow(2, k) == 0 && BitAt(v, k) == 0
    ensures v % Pow(2, k + 1) == 0
  {
    var t := Pow(2, k);
    var q := v / t;
    assert v == q * t && q == 2 * (q / 2);
    assert v == (q / 2) * (2 * t) by { MulAssoc(q / 2, 2, t); }
    DivModUnique(v, 2 * t, q / 2, 0);
  }

  lemma {:induction false} AllBitsZero(v: nat, n: nat)
    requires v % Pow(2, n) == 0 && v < Pow(2, n)
    ensures v == 0
  {
    DivModUnique(v, Pow(2, n), 0, v);
  }
}
