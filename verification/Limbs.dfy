// Little-endian limb vectors and the number they stand for.
module Limbs {
  import opened Numbers

  // A limb is a machine word of 32 or 64 bits; everything is proved for both widths.
  type LimbWidth = w: nat | w == 32 || w == 64 witness 64
  const BI_L: LimbWidth
  const BI_H: nat := BI_L / 2
  const BASE: nat := Pow(2, BI_L)
  const RADIX: nat := Pow(2, BI_H)

  type Limb = x: int | 0 <= x < BASE witness 0

  lemma PowLiterals()
    ensures Pow(2, 8) == 256 && Pow(2, 16) == 65536
  {
    assert Pow(2, 4) == 16;
    PowAdd(2, 4, 4);
    PowAdd(2, 8, 8);
  }

  lemma PowEven(e: nat)
    requires e > 0
    ensures Pow(2, e) % 2 == 0
  {
  }

  lemma BaseFacts()
    ensures BASE >= 65536
    ensures BASE % 2 == 0
    ensures RADIX * RADIX == BASE && RADIX >= 256 && RADIX % 2 == 0
  {
    PowLiterals();
    PowMonotone(2, 16, BI_L);
    PowMonotone(2, 8, BI_H);
    PowEven(BI_L);
    PowEven(BI_H);
    PowAdd(2, BI_H, BI_H);
  }

  // The number a limb vector stands for, least significant limb first.
  function Val(p: seq<Limb>): nat {
    if p == [] then 0 else p[0] + BASE * Val(p[1..])
  }

  lemma {:induction false} ValConcat(p: seq<Limb>, q: seq<Limb>)
    ensures Val(p + q) == Val(p) + Pow(BASE, |p|) * Val(q)
  {
    if p == [] {
      assert p + q == q;
    } else {
      assert (p + q)[1..] == p[1..] + q;
      ValConcat(p[1..], q);
      MulAssoc(BASE, Pow(BASE, |p| - 1), Val(q));
      Distribute(BASE, Val(p[1..]), Pow(BASE, |p| - 1) * Val(q));
    }
  }

  lemma ValSplit(p: seq<Limb>, i: nat)
    requires i <= |p|
    ensures Val(p) == Val(p[..i]) + Pow(BASE, i) * Val(p[i..])
  {
    ValConcat(p[..i], p[i..]);
    assert p[..i] + p[i..] == p;
  }

  lemma ValSingle(x: Limb)
    ensures Val([x]) == x
  {
    assert Val([x]) == x + BASE * Val([]);
  }

  // One limb more of a prefix.
  lemma ValNext(p: seq<Limb>, i: nat)
    requires i < |p|
    ensures Val(p[..i + 1]) == Val(p[..i]) + Pow(BASE, i) * p[i]
  {
    assert p[..i + 1] == p[..i] + [p[i]];
    ValConcat(p[..i], [p[i]]);
    ValSingle(p[i]);
  }

  // What storing one limb does to the number.
  lemma ValUpdate(p: seq<Limb>, i: nat, x: Limb)
    requires i < |p|
    ensures Val(p[i := x]) == Val(p) + Pow(BASE, i) * (x - p[i])
  {
    var q := p[i := x];
    ValSplit(p, i);
    ValSplit(q, i);
    assert q[..i] == p[..i];
    assert q[i..][1..] == p[i..][1..];
    Distribute(Pow(BASE, i), Val(q[i..]), Val(p[i..]));
  }

  lemma {:induction false} ValBound(p: seq<Limb>)
    ensures Val(p) < Pow(BASE, |p|)
  {
    if p != [] {
      ValBound(p[1..]);
      DigitBound(BASE, p[0], Val(p[1..]), Pow(BASE, |p| - 1));
    }
  }

  // Every limb from position n on is zero.
  ghost predicate ZeroFrom(p: seq<Limb>, n: nat) {
    forall i :: n <= i < |p| ==> p[i] == 0
  }

  lemma {:induction false} ValZero(p: seq<Limb>)
    ensures Val(p) == 0 <==> ZeroFrom(p, 0)
  {
    if p != [] {
      ValZero(p[1..]);
      if Val(p) == 0 {
        assert Val(p[1..]) == 0 by {
          if Val(p[1..]) >= 1 { MulMonotone(BASE, 1, Val(p[1..])); }
        }
        assert forall i :: 1 <= i < |p| ==> p[i] == p[1..][i - 1];
      }
      if ZeroFrom(p, 0) {
        assert ZeroFrom(p[1..], 0);
      }
    }
  }

  // High zero limbs do not count.
  lemma ValTruncate(p: seq<Limb>, i: nat)
    requires i <= |p| && ZeroFrom(p, i)
    ensures Val(p[..i]) == Val(p)
  {
    ValSplit(p, i);
    ValZero(p[i..]);
  }

  // A number below BASE^i has only zero limbs from position i on.
  lemma ValSmall(p: seq<Limb>, i: nat)
    requires i <= |p| && Val(p) < Pow(BASE, i)
    ensures ZeroFrom(p, i) && Val(p[..i]) == Val(p)
  {
    ValSplit(p, i);
    if Val(p[i..]) >= 1 {
      MulMonotone(Pow(BASE, i), 1, Val(p[i..]));
    }
    ValZero(p[i..]);
    assert forall k :: i <= k < |p| ==> p[k] == p[i..][k - i];
  }

  // A non-zero limb at position i makes the number at least BASE^i.
  lemma ValLarge(p: seq<Limb>, i: nat)
    requires i < |p|
    ensures Val(p) >= Pow(BASE, i) * p[i]
    ensures p[i] > 0 ==> Val(p) >= Pow(BASE, i)
  {
    hide Pow, Val;
    ValSplit(p, i);
    ValFirst(p[i..]);
    DigitLarge(Val(p), Val(p[..i]), Pow(BASE, i), Val(p[i..]), p[i]);
  }

  lemma ValFirst(p: seq<Limb>)
    requires p != []
    ensures Val(p) >= p[0]
  {
  }

  lemma DigitLarge(v: nat, low: nat, w: nat, top: nat, x: nat)
    requires v == low + w * top && x <= top
    ensures v >= w * x && (x > 0 ==> v >= w)
  {
    MulMonotone(w, x, top);
    if x > 0 { MulMonotone(w, 1, x); }
  }

  // The low limb decides the parity.
  lemma ValParity(p: seq<Limb>)
    requires |p| > 0
    ensures Val(p) % 2 == p[0] % 2
  {
    BaseFacts();
    EvenMultiple(p[0], BASE, Val(p[1..]));
  }

  // A carry loop that has reached limb i with carry c out of `total`. Borrows are negative carries.
  ghost predicate Carrying(p: seq<Limb>, i: nat, c: int, total: int) {
    Val(p) + Pow(BASE, i) * c == total
  }

  // The step every carry loop makes: limb i receives delta and the carry coming in.
  lemma CarryStep(p: seq<Limb>, i: nat, x: Limb, delta: int, c: int, out: int, total: int)
    requires i < |p| && Carrying(p, i, c, total)
    requires x + BASE * out == p[i] + delta + c
    ensures Carrying(p[i := x], i + 1, out, total + Pow(BASE, i) * delta)
  {
    ValUpdate(p, i, x);
    CarryArithmetic(Pow(BASE, i), BASE, x, p[i], delta, c, out);
  }

  lemma CarryArithmetic(w: int, base: int, x: int, y: int, delta: int, c: int, out: int)
    requires x + base * out == y + delta + c
    ensures w * (x - y) + (base * w) * out == w * c + w * delta
  {
    assert (base * w) * out == w * (base * out);
    assert w * (x - y) + w * (base * out) == w * ((x - y) + base * out);
    assert w * c + w * delta == w * (c + delta);
  }

  lemma CarryOn(p: seq<Limb>, i: nat, x: Limb, c: int, out: int, total: int)
    requires i < |p| && Carrying(p, i, c, total)
    requires x + BASE * out == p[i] + c
    ensures Carrying(p[i := x], i + 1, out, total)
  {
    CarryStep(p, i, x, 0, c, out, total);
  }

  lemma AddStep(p: seq<Limb>, i: nat, x: Limb, c: int, out: int, start: int, q: seq<Limb>)
    requires i < |p| && i < |q| && Carrying(p, i, c, start + Val(q[..i]))
    requires x + BASE * out == p[i] + q[i] + c
    ensures Carrying(p[i := x], i + 1, out, start + Val(q[..i + 1]))
  {
    CarryStep(p, i, x, q[i], c, out, start + Val(q[..i]));
    ValNext(q, i);
  }

  lemma SubStep(p: seq<Limb>, i: nat, x: Limb, c: int, out: int, start: int, q: seq<Limb>)
    requires i < |p| && i < |q| && Carrying(p, i, -c, start - Val(q[..i]))
    requires x - BASE * out == p[i] - q[i] - c
    ensures Carrying(p[i := x], i + 1, -out, start - Val(q[..i + 1]))
  {
    assert BASE * (-out) == -(BASE * out);
    CarryStep(p, i, x, -(q[i] as int), -c, -out, start - Val(q[..i]));
    assert Pow(BASE, i) * -(q[i] as int) == -(Pow(BASE, i) * q[i]);
    ValNext(q, i);
  }

  lemma MulStep(p: seq<Limb>, i: nat, x: Limb, c: int, out: int, start: int, q: seq<Limb>, b: Limb)
    requires i < |p| && i < |q| && Carrying(p, i, c, start + Val(q[..i]) * b)
    requires x + BASE * out == p[i] + q[i] * b + c
    ensures Carrying(p[i := x], i + 1, out, start + Val(q[..i + 1]) * b)
  {
    CarryStep(p, i, x, q[i] * b, c, out, start + Val(q[..i]) * b);
    ValNext(q, i);
    MulPrefix(Val(q[..i]), Pow(BASE, i), q[i], b);
  }

  lemma MulPrefix(v: int, w: int, x: int, b: int)
    ensures (v + w * x) * b == v * b + w * (x * b)
  {
    MulAssoc(w, x, b);
  }

  // Once the carry is gone the number is the total.
  lemma CarryDone(p: seq<Limb>, i: nat, total: int)
    requires Carrying(p, i, 0, total)
    ensures Val(p) == total
  {
  }

  lemma CarryStart(p: seq<Limb>, q: seq<Limb>)
    ensures Carrying(p, 0, 0, Val(p) + Val(q[..0]))
    ensures Carrying(p, 0, 0, Val(p) - Val(q[..0]))
  {
  }

  // Only the number matters, not how many limbs hold it.
  lemma CarrySame(p: seq<Limb>, q: seq<Limb>, i: nat, c: int, total: int)
    requires Carrying(p, i, c, total) && Val(p) == Val(q)
    ensures Carrying(q, i, c, total)
  {
  }

  // A pending carry means there is room left for it.
  lemma CarryFits(p: seq<Limb>, i: nat, c: int, total: int)
    requires i <= |p| && Carrying(p, i, c, total) && 0 <= total < Pow(BASE, |p|)
    ensures c != 0 ==> i < |p|
  {
    ValBound(p);
    if c >= 1 { MulMonotone(Pow(BASE, i), 1, c); }
    if c <= -1 { MulMonotone(Pow(BASE, i), c, -1); }
  }

  // The count of limbs up to the highest non-zero one.
  ghost predicate IsSize(p: seq<Limb>, n: nat) {
    && n <= |p|
    && ZeroFrom(p, n)
    && (n > 0 ==> p[n - 1] != 0)
  }

  ghost function SizeOf(p: seq<Limb>): (n: nat)
    ensures IsSize(p, n)
  {
    if p == [] then 0
    else if p[|p| - 1] != 0 then |p|
    else
      SizeOf(p[..|p| - 1])
  }

  lemma SizeUnique(p: seq<Limb>, n: nat)
    requires IsSize(p, n)
    ensures n == SizeOf(p)
  {
    assert IsSize(p, SizeOf(p));
  }

  lemma SizeFacts(p: seq<Limb>, n: nat)
    requires IsSize(p, n)
    ensures Val(p[..n]) == Val(p) < Pow(BASE, n)
    ensures n > 0 ==> Pow(BASE, n - 1) <= Val(p)
    ensures n == 0 <==> Val(p) == 0
  {
    ValTruncate(p, n);
    ValBound(p[..n]);
    if n > 0 { ValLarge(p, n - 1); }
  }

  // More significant limbs, larger number.
  lemma SizeCompare(p: seq<Limb>, m: nat, q: seq<Limb>, n: nat)
    requires IsSize(p, m) && IsSize(q, n) && m > n
    ensures Val(p) > Val(q)
  {
    SizeFacts(p, m);
    SizeFacts(q, n);
    PowMonotone(BASE, n, m - 1);
  }

  // How the significant sizes order two numbers.
  lemma CompareSizes(p: seq<Limb>, q: seq<Limb>)
    ensures SizeOf(p) > SizeOf(q) ==> Val(p) > Val(q)
    ensures SizeOf(q) > SizeOf(p) ==> Val(q) > Val(p)
    ensures SizeOf(p) == SizeOf(q) ==> Val(p) - Val(q) == Val(p[..SizeOf(p)]) - Val(q[..SizeOf(q)])
    ensures SizeOf(p) == 0 <==> Val(p) == 0
    ensures SizeOf(q) == 0 <==> Val(q) == 0
  {
    var m, n := SizeOf(p), SizeOf(q);
    SizeFacts(p, m);
    SizeFacts(q, n);
    if m > n { SizeCompare(p, m, q, n); }
    if n > m { SizeCompare(q, n, p, m); }
  }

  // Equal high limbs, then a larger limb: larger number.
  lemma TopLimbCompare(p: seq<Limb>, q: seq<Limb>, i: nat)
    requires i < |p| && i < |q| && p[i] > q[i]
    ensures Val(p[..i + 1]) > Val(q[..i + 1])
  {
    ValNext(p, i);
    ValNext(q, i);
    ValBound(q[..i]);
    MulMonotone(Pow(BASE, i), q[i] + 1, p[i]);
    Distribute(Pow(BASE, i), q[i], 1);
  }

  lemma EqualLimbs(p: seq<Limb>, q: seq<Limb>, i: nat)
    requires i < |p| && i < |q| && p[i] == q[i]
    ensures Val(p[..i + 1]) - Val(q[..i + 1]) == Val(p[..i]) - Val(q[..i])
  {
    ValNext(p, i);
    ValNext(q, i);
  }
}
