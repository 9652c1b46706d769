// Arithmetic of single machine words: wrap-around, multiply-accumulate and two-by-one division.
module Words {
  import opened Numbers
  import opened Limbs

  // Unsigned addition and subtraction wrap around at BASE.
  function WAdd(x: Limb, y: Limb): Limb {
    if x + y < BASE then x + y else x + y - BASE
  }

  function WSub(x: Limb, y: Limb): Limb {
    if x >= y then x - y else x - y + BASE
  }

  // The value of a C comparison.
  function Bit(b: bool): Limb
  {
    BaseFacts();
    if b then 1 else 0
  }

  lemma SmallWords()
    ensures BASE > 2
  {
    BaseFacts();
  }

  // The comparison after a wrapping addition recovers the carry.
  lemma AddCarries(a: Limb, c: Limb)
    ensures WAdd(a, c) + BASE * Bit(WAdd(a, c) < c) == a + c
  {
    assert BASE * 0 == 0 && BASE * 1 == BASE;
  }

  lemma SubBorrows(a: Limb, c: Limb)
    ensures WSub(a, c) - BASE * Bit(a < c) == a - c
  {
    assert BASE * 0 == 0 && BASE * 1 == BASE;
  }

  // Two wrapping additions and their comparisons: at most one carry leaves the word.
  lemma AddWithCarry(a: Limb, t: Limb, c: Limb, x: Limb, out: Limb)
    requires c <= 1
    requires x == WAdd(WAdd(a, c), t) && out == Bit(WAdd(a, c) < c) + Bit(x < t)
    ensures out <= 1 && x + BASE * out == a + t + c
  {
    assert out <= 1 && (out == 0 || out == 1);
    assert out == 0 ==> BASE * out == 0;
    assert out == 1 ==> BASE * out == BASE;
  }

  lemma SubWithBorrow(a: Limb, t: Limb, c: Limb, x: Limb, out: Limb)
    requires c <= 1
    requires x == WSub(WSub(a, c), t) && out == Bit(WSub(a, c) < t) + Bit(a < c)
    ensures out <= 1 && x - BASE * out == a - t - c
  {
    assert out <= 1 && (out == 0 || out == 1);
    assert out == 0 ==> BASE * out == 0;
    assert out == 1 ==> BASE * out == BASE;
  }

  function WMul(x: Limb, y: Limb): Limb {
    (x * y) % BASE
  }

  function High(x: Limb): Limb
    ensures 0 <= High(x) < RADIX
  {
    HalfFacts(x);
    x / RADIX
  }

  function Low(x: Limb): Limb
    ensures 0 <= Low(x) < RADIX
  {
    HalfFacts(x);
    x % RADIX
  }

  lemma DivModBound(x: int, r: int)
    requires r > 0 && 0 <= x < r * r
    ensures 0 <= x / r < r && 0 <= x % r < r
    ensures x == (x / r) * r + x % r
  {
    if x / r >= r { MulMonotone(r, r, x / r); }
  }

  lemma HalfFacts(x: int)
    requires 0 <= x < BASE
    ensures 0 <= x / RADIX < RADIX <= BASE && 0 <= x % RADIX < RADIX
    ensures x == (x / RADIX) * RADIX + x % RADIX
  {
    BaseFacts();
    DivModBound(x, RADIX);
    SquareLarge(RADIX);
  }

  lemma SquareLarge(r: int)
    requires r > 0
    ensures r <= r * r
  {
  }

  // A word shifted left by half a word keeps its low half.
  function ShiftHalf(x: Limb): Limb {
    HalfFacts(x);
    LowHalfFits(x % RADIX);
    (x % RADIX) * RADIX
  }

  lemma LowHalfFits(x: int)
    requires 0 <= x < RADIX
    ensures 0 <= x * RADIX < BASE
  {
    BaseFacts();
    MulStrict(RADIX, x, RADIX);
  }

  lemma ProductBound(x: int, y: int, r: int)
    requires 0 <= x < r && 0 <= y < r
    ensures 0 <= x * y <= (r - 1) * (r - 1) == r * r - 2 * r + 1
  {
    MulMonotone(x, y, r - 1);
    MulMonotone(r - 1, x, r - 1);
  }

  lemma HalfProductFits(x: int, y: int)
    requires 0 <= x < RADIX && 0 <= y < RADIX
    ensures 0 <= x * y < BASE
  {
    BaseFacts();
    ProductBound(x, y, RADIX);
  }

  lemma AccumulateBound(x: int, y: int, c: int, d: int, base: int)
    requires 0 <= x < base && 0 <= y < base && 0 <= c < base && 0 <= d < base
    ensures x * y + c + d < base * base
  {
    ProductBound(x, y, base);
  }

  // The schoolbook identity behind the half-word product, the middle terms cut in two.
  lemma HalfProduct(s1: int, s0: int, b1: int, b0: int, r: int, rx: int, ry: int)
    requires r > 0 && rx == s0 * b1 && ry == s1 * b0
    ensures (s1 * r + s0) * (b1 * r + b0)
         == (s1 * b1 + rx / r + ry / r) * (r * r) + s0 * b0 + (rx % r) * r + (ry % r) * r
  {
    DivModSplit(rx, r);
    DivModSplit(ry, r);
    Commute(r, rx / r);
    Commute(r, ry / r);
    Expand(s1, s0, b1, b0, r);
    CutInTwo(rx, rx / r, rx % r, r);
    CutInTwo(ry, ry / r, ry % r, r);
    Gather(s1 * b1, rx / r, ry / r, r * r);
  }

  lemma Expand(s1: int, s0: int, b1: int, b0: int, r: int)
    ensures (s1 * r + s0) * (b1 * r + b0) == (s1 * b1) * (r * r) + (s0 * b1) * r + (s1 * b0) * r + s0 * b0
  {
    var u, v := s1 * r, b1 * r;
    assert (u + s0) * (v + b0) == u * v + u * b0 + s0 * v + s0 * b0;
    assert u * v == (s1 * b1) * (r * r) by {
      MulAssoc(s1, r, v);
      Commute(r, v);
      MulAssoc(b1, r, r);
      MulAssoc(s1, b1, r * r);
    }
    assert u * b0 == (s1 * b0) * r by {
      MulAssoc(s1, r, b0);
      Commute(r, b0);
      MulAssoc(s1, b0, r);
    }
    assert s0 * v == (s0 * b1) * r by { MulAssoc(s0, b1, r); }
  }

  lemma CutInTwo(x: int, h: int, l: int, r: int)
    requires x == h * r + l
    ensures x * r == h * (r * r) + l * r
  {
    MulAssoc(h, r, r);
    assert (h * r + l) * r == (h * r) * r + l * r;
  }

  lemma Gather(a: int, b: int, c: int, w: int)
    ensures (a + b + c) * w == a * w + b * w + c * w
  {
  }

  // Adding a low word into a double word high:low: the comparison recovers the carry.
  lemma AddIntoLow(high: int, low: Limb, x: Limb)
    requires high >= 0 && high * BASE + low + x < BASE * BASE
    ensures high + Bit(WAdd(low, x) < x) < BASE
    ensures (high + Bit(WAdd(low, x) < x)) * BASE + WAdd(low, x) == high * BASE + low + x
  {
    var h := high + Bit(WAdd(low, x) < x);
    assert h * BASE + WAdd(low, x) == high * BASE + low + x;
    MulStrict(BASE, h, BASE);
  }

  // Two source lines: a word is added to the low word, and its carry to the high one.
  method AddInto(high: Limb, low: Limb, x: Limb) returns (high': Limb, low': Limb)
    requires high * BASE + low + x < BASE * BASE
    ensures high' * BASE + low' == high * BASE + low + x
  {
    AddIntoLow(high, low, x);
    low' := WAdd(low, x);
    high' := high + Bit(low' < x);
  }

  // One MULADDC_CORE step in its generic half-word form: the double word carry:digit is d + s * b + c.
  method MulAddCore(s: Limb, d: Limb, b: Limb, c: Limb) returns (carry: Limb, digit: Limb)
    ensures carry * BASE + digit == d + s * b + c
  {
    var b0, b1 := Low(b), High(b);
    var s0, s1 := Low(s), High(s);
    HalfProductFits(s0, b1);
    HalfProductFits(s0, b0);
    HalfProductFits(s1, b0);
    HalfProductFits(s1, b1);
    var rx: Limb, r0: Limb := s0 * b1, s0 * b0;
    var ry: Limb, r1: Limb := s1 * b0, s1 * b1;
    ProductInHalves(s, b, s1, s0, b1, b0, rx, ry);
    AccumulateBound(s, b, c, d, BASE);
    hide High, Low, ShiftHalf, Pow;
    r1 := AddHighs(r1, High(rx), High(ry), r0 + ShiftHalf(rx) + ShiftHalf(ry));
    rx, ry := ShiftHalf(rx), ShiftHalf(ry);
    r1, r0 := AddInto(r1, r0, rx);
    r1, r0 := AddInto(r1, r0, ry);
    r1, r0 := AddInto(r1, r0, c);
    r1, r0 := AddInto(r1, r0, d);
    carry, digit := r1, r0;
  }

  method AddHighs(r: Limb, x: Limb, y: Limb, ghost low: nat) returns (r': Limb)
    requires (r + x + y) * BASE + low < BASE * BASE
    ensures r' == r + x + y
  {
    HighBound(r + x + y, low);
    r' := WAdd(r, x);
    r' := WAdd(r', y);
  }

  lemma ProductInHalves(s: Limb, b: Limb, s1: nat, s0: nat, b1: nat, b0: nat, rx: Limb, ry: Limb)
    requires s1 == High(s) && s0 == Low(s) && b1 == High(b) && b0 == Low(b) && rx == s0 * b1 && ry == s1 * b0
    ensures s * b == (s1 * b1 + High(rx) + High(ry)) * BASE + s0 * b0 + ShiftHalf(rx) + ShiftHalf(ry)
  {
    BaseFacts();
    HalfFacts(s);
    HalfFacts(b);
    HalfProduct(s1, s0, b1, b0, RADIX, rx, ry);
  }

  lemma HighBound(x: int, low: int)
    requires x >= 0 && low >= 0 && x * BASE + low < BASE * BASE
    ensures x < BASE
  {
    MulStrict(BASE, x, BASE);
  }
}
