// Multi-precision integers: a sign and a little-endian limb vector, rewritten in place.
module Bignum {
  import opened Numbers
  import opened Limbs
  import opened Words
  import opened WordDivision
  import opened Bits

  datatype Error = AllocFailed | BadInputData | NegativeValue | DivisionByZero | NotAcceptable | BufferTooSmall

  // The return code of an operation; `:-` plays the part of MBEDTLS_MPI_CHK.
  datatype Status = Ok | Fail(code: Error) {
    predicate IsFailure() {
      Fail?
    }

    function PropagateFailure(): Status
      requires IsFailure()
    {
      this
    }
  }

  const MAX_LIMBS: nat := 10000

  type Sign = x: int | x == 1 || x == -1 witness 1

  function Compare(x: int, y: int): int {
    if x < y then -1 else if x > y then 1 else 0
  }

  function Zeros(n: nat): (z: seq<Limb>)
    ensures |z| == n && ZeroFrom(z, 0)
  {
    seq(n, i => 0)
  }

  function Max(x: int, y: int): int {
    if x < y then y else x
  }

  class Mpi {
    var s: Sign
    var p: seq<Limb>

    constructor ()
      ensures s == 1 && p == []
    {
      s, p := 1, [];
    }

    ghost function Abs(): nat
      reads this
    {
      Val(p)
    }

    ghost function Value(): int
      reads this
    {
      s * Val(p)
    }

    method Free()
      modifies this
      ensures s == 1 && p == []
    {
      s, p := 1, [];
    }

    // Enlarge to at least the given number of limbs; allocation can be refused.
    method Grow(nblimbs: nat) returns (ret: Status)
      modifies this
      ensures s == old(s)
      ensures ret.Ok? ==> p == old(p) + Zeros(Max(0, nblimbs - |old(p)|)) && Abs() == old(Abs())
      ensures ret.Fail? ==> ret.code == AllocFailed && p == old(p)
      ensures nblimbs > MAX_LIMBS ==> ret.Fail?
    {
      if nblimbs > MAX_LIMBS {
        return Fail(AllocFailed);
      }
      if |p| < nblimbs {
        var refused: bool := *;
        if refused {
          return Fail(AllocFailed);
        }
        var z := Zeros(nblimbs - |p|);
        ValConcat(p, z);
        ValZero(z);
        p := p + z;
      }
      return Ok;
    }

    // The loop most operations use to skip high zero limbs.
    static method Size(p: seq<Limb>) returns (n: nat)
      ensures n == SizeOf(p) && IsSize(p, n)
    {
      n := |p|;
      while n > 0
        invariant n <= |p|
        invariant ZeroFrom(p, n)
      {
        if p[n - 1] != 0 {
          break;
        }
        n := n - 1;
      }
      SizeUnique(p, n);
    }

    // Copy Y; the source's high zero limbs are not copied and this never loses limbs, unless Y has none.
    method Copy(y: Mpi) returns (ret: Status)
      modifies this
      ensures ret.Fail? ==> ret.code == AllocFailed
      ensures ret.Ok? ==> Abs() == old(y.Abs()) && Value() == old(y.Value())
      ensures ret.Ok? && |old(y.p)| > 0 ==> s == old(y.s) && |p| >= Max(1, |old(p)|)
      ensures ret.Ok? && this != y && |old(y.p)| > 0 ==> |p| == Max(|old(p)|, Max(1, SizeOf(old(y.p))))
      ensures ret.Ok? && |old(y.p)| == 0 ==> p == [] && (this != y ==> s == 1)
      ensures ret.Ok? && this == y ==> s == old(s) && p == old(p)
    {
      hide Val, Pow;
      ValOfZero();
      if this == y {
        return Ok;
      }
      if |y.p| == 0 {
        Free();
        return Ok;
      }
      var i := |y.p| - 1;
      while i > 0
        invariant 0 <= i < |y.p|
        invariant ZeroFrom(y.p, i + 1)
      {
        if y.p[i] != 0 {
          break;
        }
        i := i - 1;
      }
      i := i + 1;
      assert y.p[i - 1] != 0 ==> i == SizeOf(y.p) by {
        if y.p[i - 1] != 0 { SizeUnique(y.p, i); }
      }
      assert y.p[i - 1] == 0 ==> SizeOf(y.p) == 0 by {
        if y.p[i - 1] == 0 { SizeUnique(y.p, 0); }
      }
      s := y.s;
      if |p| < i {
        :- Grow(i);
      } else {
        p := p[..i] + Zeros(|p| - i);
      }
      assert ZeroFrom(p, i);
      p := y.p[..i] + p[i..];
      ValConcat(y.p[..i], p[i..]);
      ValZero(p[i..]);
      ValTruncate(y.p, i);
      return Ok;
    }

    method Lset(z: int) returns (ret: Status)
      requires -(BASE as int) < z < BASE
      modifies this
      ensures ret.Fail? ==> ret.code == AllocFailed
      ensures ret.Ok? ==> Value() == z && |p| == Max(1, |old(p)|)
      ensures ret.Ok? ==> s == (if z < 0 then -1 else 1) && ZeroFrom(p, 1)
      ensures ret.Ok? ==> p[0] == (if z < 0 then -z else z)
    {
      var limb: Limb := if z < 0 then -z else z;
      :- Grow(1);
      p := Zeros(|p|);
      ValZero(p);
      ghost var p0 := p;
      p := p[0 := limb];
      s := if z < 0 then -1 else 1;
      ValUpdate(p0, 0, limb);
      return Ok;
    }

    // ---------------------------------------------------------------- comparison

    // Compare magnitudes.
    method CmpAbs(y: Mpi) returns (r: int)
      ensures r == Compare(Abs(), y.Abs())
    {
      var i: nat := Size(p);
      var j: nat := Size(y.p);
      CompareSizes(p, y.p);
      if i == 0 && j == 0 {
        return 0;
      }
      if i > j {
        return 1;
      }
      if j > i {
        return -1;
      }
      ghost var n: nat := i;
      while i > 0
        invariant i <= n <= |p| && n <= |y.p|
        invariant Val(p[..n]) - Val(y.p[..n]) == Val(p[..i]) - Val(y.p[..i])
      {
        if p[i - 1] > y.p[i - 1] {
          TopLimbCompare(p, y.p, i - 1);
          return 1;
        }
        if p[i - 1] < y.p[i - 1] {
          TopLimbCompare(y.p, p, i - 1);
          return -1;
        }
        EqualLimbs(p, y.p, i - 1);
        i := i - 1;
      }
      return 0;
    }

    // Compare signed values; a zero has no sign here.
    method Cmp(y: Mpi) returns (r: int)
      ensures r == Compare(Value(), y.Value())
    {
      var i: nat := Size(p);
      var j: nat := Size(y.p);
      CompareSizes(p, y.p);
      SignTimes(s, Abs());
      SignTimes(y.s, y.Abs());
      if i == 0 && j == 0 {
        return 0;
      }
      if i > j {
        return s;
      }
      if j > i {
        return -(y.s as int);
      }
      if s > 0 && y.s < 0 {
        return 1;
      }
      if y.s > 0 && s < 0 {
        return -1;
      }
      ghost var n: nat := i;
      while i > 0
        invariant i <= n <= |p| && n <= |y.p|
        invariant Val(p[..n]) - Val(y.p[..n]) == Val(p[..i]) - Val(y.p[..i])
      {
        if p[i - 1] > y.p[i - 1] {
          TopLimbCompare(p, y.p, i - 1);
          return s;
        }
        if p[i - 1] < y.p[i - 1] {
          TopLimbCompare(y.p, p, i - 1);
          return -(s as int);
        }
        EqualLimbs(p, y.p, i - 1);
        i := i - 1;
      }
      return 0;
    }

    // Compare with a single signed word.
    method CmpInt(z: int) returns (r: int)
      requires -(BASE as int) < z < BASE
      ensures r == Compare(Value(), z)
    {
      var y := new Mpi.OfInt(z);
      r := Cmp(y);
    }

    // The one-limb operand that the *_int operations build on the stack.
    constructor OfInt(z: int)
      requires -(BASE as int) < z < BASE
      ensures Value() == z && |p| == 1
      ensures s == (if z < 0 then -1 else 1)
    {
      var limb: Limb := if z < 0 then -z else z;
      ValSingle(limb);
      s, p := if z < 0 then -1 else 1, [limb];
    }

    // ---------------------------------------------------------------- addition and subtraction

    // Add the low j limbs of b, which can be this number itself, and let the carry run, growing if it has to.
    method AddLimbs(b: Mpi, j: nat) returns (ret: Status)
      requires j <= |b.p| && j <= |p|
      modifies this
      ensures s == old(s) && |p| >= |old(p)|
      ensures ret.Fail? ==> ret.code == AllocFailed
      ensures ret.Ok? ==> Abs() == old(Abs()) + Val(old(b.p)[..j])
    {
      hide Carrying, Pow, Val, WAdd, WSub;
      ghost var x0, y0 := p, b.p;
      var c: Limb := 0;
      var i: nat := 0;
      SmallWords();
      CarryStart(p, y0);
      while i < j
        invariant i <= j <= |p| == |x0|
        invariant c <= 1
        invariant s == old(s)
        invariant Carrying(p, i, c, Val(x0) + Val(y0[..i]))
        invariant forall k :: i <= k < j ==> b.p[k] == y0[k]
        invariant b != this ==> b.p == y0
      {
        var tmp := b.p[i];
        ghost var before := p;
        ghost var carry := c;
        var x := WAdd(p[i], c);
        c := Bit(x < c);
        x := WAdd(x, tmp);
        c := c + Bit(x < tmp);
        p := p[i := x];
        AddWithCarry(before[i], tmp, carry, x, c);
        AddStep(before, i, x, carry, c, Val(x0), y0);
        i := i + 1;
      }
      while c != 0
        invariant i <= |p| && |x0| <= |p|
        invariant c <= 1
        invariant s == old(s)
        invariant Carrying(p, i, c, Val(x0) + Val(y0[..j]))
        decreases c, |p| - i
      {
        if i >= |p| {
          ghost var small := p;
          :- Grow(i + 1);
          CarrySame(small, p, i, c, Val(x0) + Val(y0[..j]));
        }
        ghost var before := p;
        ghost var carry := c;
        var x := WAdd(p[i], c);
        c := Bit(x < c);
        p := p[i := x];
        AddCarries(before[i], carry);
        CarryOn(before, i, x, carry, c, Val(x0) + Val(y0[..j]));
        i := i + 1;
      }
      CarryDone(p, i, Val(x0) + Val(y0[..j]));
      return Ok;
    }

    // Magnitude addition, for every aliasing of the result with the operands.
    method AddAbs(a: Mpi, b: Mpi) returns (ret: Status)
      modifies this
      ensures ret.Fail? ==> ret.code == AllocFailed
      ensures ret.Ok? ==> s == 1 && Abs() == old(a.Abs()) + old(b.Abs())
      ensures ret.Ok? && |old(a.p)| > 0 && |old(b.p)| > 0 ==> |p| >= Max(1, |old(p)|)
    {
      hide Carrying, Pow, Val, WAdd, WSub;
      var a', b' := a, b;
      if this == b {
        a', b' := this, a;
      }
      if this != a' {
        :- Copy(a');
      }
      s := 1;
      var j := Size(b'.p);
      SizeFacts(b'.p, j);
      :- Grow(j);
      assert Abs() + Val(b'.p[..j]) == old(a.Abs()) + old(b.Abs()) by {
        ValTruncate(b'.p, j);
      }
      ret := AddLimbs(b', j);
    }

    // Subtract the low n limbs of another vector; the borrow stops inside because the result is not negative.
    method SubHlp(n: nat, sp: seq<Limb>)
      requires n <= |sp| && n <= |p|
      requires Val(sp[..n]) <= Abs()
      modifies this`p
      ensures |p| == |old(p)| && Abs() == old(Abs()) - Val(sp[..n])
    {
      hide Carrying, Pow, Val, WAdd, WSub;
      var c: Limb := 0;
      var i: nat := 0;
      ghost var x0 := p;
      ghost var total := Val(x0) - Val(sp[..n]);
      SmallWords();
      CarryStart(p, sp);
      while i < n
        invariant i <= n && |p| == |x0|
        invariant c <= 1
        invariant Carrying(p, i, -(c as int), Val(x0) - Val(sp[..i]))
      {
        ghost var before := p;
        ghost var borrow := c;
        var z := Bit(p[i] < c);
        var x := WSub(p[i], c);
        c := Bit(x < sp[i]) + z;
        x := WSub(x, sp[i]);
        p := p[i := x];
        SubWithBorrow(before[i], sp[i], borrow, x, c);
        SubStep(before, i, x, borrow, c, Val(x0), sp);
        i := i + 1;
      }
      ValBound(x0);
      while c != 0
        invariant i <= |p| == |x0|
        invariant c <= 1
        invariant Carrying(p, i, -(c as int), total)
        decreases |p| - i
      {
        CarryFits(p, i, -(c as int), total);
        ghost var before := p;
        ghost var borrow := c;
        var z := Bit(p[i] < c);
        var x := WSub(p[i], c);
        p := p[i := x];
        c := z;
        SubBorrows(before[i], borrow);
        CarryOn(before, i, x, -(borrow as int), -(c as int), total);
        i := i + 1;
      }
      CarryDone(p, i, total);
    }

    // Magnitude subtraction; refused exactly when the result would be negative.
    method SubAbs(a: Mpi, b: Mpi) returns (ret: Status)
      modifies this
      ensures old(a.Abs()) < old(b.Abs()) ==> ret == Fail(NegativeValue) && s == old(s) && p == old(p)
      ensures old(a.Abs()) >= old(b.Abs()) ==> ret.Ok? || ret.code == AllocFailed
      ensures ret.Ok? ==> s == 1 && Abs() == old(a.Abs()) - old(b.Abs())
      ensures ret.Ok? && |old(a.p)| > 0 && |old(b.p)| > 0 ==> |p| >= Max(1, |old(p)|)
    {
      hide Val, SizeOf;
      var order := a.CmpAbs(b);
      if order < 0 {
        return Fail(NegativeValue);
      }
      var b' := b;
      if this == b {
        b' := new Mpi();
        :- b'.Copy(b);
      }
      if this != a {
        :- Copy(a);
      }
      s := 1;
      var n := Size(b'.p);
      SizeFacts(b'.p, n);
      CompareSizes(b'.p, p);
      SubHlp(n, b'.p);
      return Ok;
    }

    // Signed addition, for every aliasing.
    method Add(a: Mpi, b: Mpi) returns (ret: Status)
      modifies this
      ensures ret.Fail? ==> ret.code == AllocFailed
      ensures ret.Ok? ==> Value() == old(a.Value()) + old(b.Value())
      ensures ret.Ok? && |old(a.p)| > 0 && |old(b.p)| > 0 ==> |p| >= Max(1, |old(p)|)
    {
      var sign: Sign := a.s;
      if a.s * b.s < 0 {
        var order := a.CmpAbs(b);
        if order >= 0 {
          :- SubAbs(a, b);
          s := sign;
        } else {
          :- SubAbs(b, a);
          s := -(sign as int);
        }
      } else {
        :- AddAbs(a, b);
        s := sign;
      }
      return Ok;
    }

    // Signed subtraction, for every aliasing.
    method Sub(a: Mpi, b: Mpi) returns (ret: Status)
      modifies this
      ensures ret.Fail? ==> ret.code == AllocFailed
      ensures ret.Ok? ==> Value() == old(a.Value()) - old(b.Value())
      ensures ret.Ok? && |old(a.p)| > 0 && |old(b.p)| > 0 ==> |p| >= Max(1, |old(p)|)
    {
      var sign: Sign := a.s;
      if a.s * b.s > 0 {
        var order := a.CmpAbs(b);
        if order >= 0 {
          :- SubAbs(a, b);
          s := sign;
        } else {
          :- SubAbs(b, a);
          s := -(sign as int);
        }
      } else {
        :- AddAbs(a, b);
        s := sign;
      }
      return Ok;
    }

    // ---------------------------------------------------------------- multiplication

    // Multiply-accumulate the low n limbs of sp times b into this number from limb `off` on.
    // Only limbs off..hi change; the product fits there, so no carry leaves that window.
    method MulHlp(n: nat, sp: seq<Limb>, off: nat, b: Limb, ghost hi: nat)
      requires n <= |sp| && off + n < hi <= |p|
      requires Val(p[off..hi]) + Val(sp[..n]) * b < Pow(BASE, hi - off)
      modifies this`p
      ensures |p| == |old(p)| && p[..off] == old(p[..off]) && p[hi..] == old(p[hi..])
      ensures Val(p[off..hi]) == old(Val(p[off..hi])) + Val(sp[..n]) * b
    {
      hide Carrying, Pow, Val, WAdd, WSub;
      var c: Limb := 0;
      var i: nat := 0;
      ghost var w := p[off..hi];
      ghost var w0 := w;
      ghost var total := Val(w0) + Val(sp[..n]) * b;
      assert total >= 0 by { MulMonotone(Val(sp[..n]), 0, b); }
      CarryStart(w, sp);
      assert Val(sp[..0]) * b == 0;
      while i < n
        invariant i <= n
        invariant |p| == |old(p)| && p[..off] == old(p[..off]) && p[hi..] == old(p[hi..])
        invariant w == p[off..hi]
        invariant Carrying(w, i, c, Val(w0) + Val(sp[..i]) * b)
      {
        var carry, digit := MulAddCore(sp[i], p[off + i], b, c);
        p := p[off + i := digit];
        MulStep(w, i, digit, c, carry, Val(w0), sp, b);
        w := w[i := digit];
        c := carry;
        i := i + 1;
      }
      var first := true;
      while first || c != 0
        invariant i <= hi - off
        invariant first || c != 0 ==> i < hi - off
        invariant |p| == |old(p)| && p[..off] == old(p[..off]) && p[hi..] == old(p[hi..])
        invariant w == p[off..hi]
        invariant Carrying(w, i, c, total)
        decreases hi - off - i
      {
        first := false;
        ghost var carry := c;
        var x := WAdd(p[off + i], c);
        c := Bit(x < c);
        p := p[off + i := x];
        AddCarries(w[i], carry);
        CarryOn(w, i, x, carry, c, total);
        w := w[i := x];
        i := i + 1;
        CarryFits(w, i, c, total);
      }
      CarryDone(w, i, total);
    }

    // The multiply loop: one multiply-accumulate per limb of y, highest limb first, into a cleared number.
    method MulLimbs(i: nat, x: seq<Limb>, m: nat, y: seq<Limb>)
      requires IsSize(x, i) && IsSize(y, m) && i + m <= |p|
      requires Abs() == 0
      modifies this`p
      ensures |p| == |old(p)| && Abs() == Val(x) * Val(y)
    {
      hide Val, Pow;
      var j: nat := m;
      ProductStart(p, x, y, i, m);
      while j > 0
        invariant j <= m && |p| == |old(p)|
        invariant ZeroBelow(p, j)
        invariant Val(p[j..|p|]) == Val(x) * Val(y[j..m])
      {
        ProductStep(p, x, y, i, j, m);
        ghost var before := p;
        MulHlp(i, x, j - 1, y[j - 1], |p|);
        j := j - 1;
        ZeroBelowPrefix(before, p, j);
      }
      ProductDone(p, x, y, m);
    }

    // Baseline multiplication, for every aliasing of the result with the operands.
    method Mul(a: Mpi, b: Mpi) returns (ret: Status)
      modifies this
      ensures ret.Fail? ==> ret.code == AllocFailed
      ensures ret.Ok? ==> Value() == old(a.Value()) * old(b.Value())
      ensures ret.Ok? ==> |p| >= Max(1, |old(p)|)
    {
      hide Val, Pow;
      var a', b' := a, b;
      if this == a {
        a' := new Mpi();
        :- a'.Copy(a);
      }
      if this == b {
        b' := new Mpi();
        :- b'.Copy(b);
      }
      var x, y, sx, sy := a'.p, b'.p, a'.s, b'.s;
      assert sx * Val(x) == old(a.Value()) && sy * Val(y) == old(b.Value());
      var i: nat := Size(x);
      var j: nat := Size(y);
      :- Grow(i + j);
      :- Lset(0);
      ValOfValue(s, p);
      MulLimbs(i, x, j, y);
      s := SignProduct(sx, sy);
      SignMul(sx, Val(x), sy, Val(y));
      return Ok;
    }

    // Product with one word.
    method MulInt(a: Mpi, b: Limb) returns (ret: Status)
      modifies this
      ensures ret.Fail? ==> ret.code == AllocFailed
      ensures ret.Ok? ==> Value() == old(a.Value()) * b
      ensures ret.Ok? ==> |p| >= Max(1, |old(p)|)
    {
      var y := new Mpi.OfInt(b);
      ret := Mul(a, y);
    }

    // ---------------------------------------------------------------- bits and shifts

    method BitLen() returns (r: nat)
      ensures r == BitCount(Abs())
    {
      if |p| == 0 {
        return 0;
      }
      var i := |p| - 1;
      while i > 0
        invariant 0 <= i < |p|
        invariant ZeroFrom(p, i + 1)
      {
        if p[i] != 0 {
          break;
        }
        i := i - 1;
      }
      var zeros := Clz(p[i]);
      var j := BI_L - zeros;
      if p[i] != 0 {
        BitsOfTop(p, i, j);
      } else {
        ValZero(p);
      }
      return i * BI_L + j;
    }

    // The number of low zero bits, 0 for the number zero.
    method Lsb() returns (count: nat)
      ensures Abs() == 0 ==> count == 0
      ensures Abs() != 0 ==> Abs() % Pow(2, count) == 0 && BitAt(Abs(), count) == 1
    {
      var i := 0;
      count := 0;
      while i < |p|
        invariant i <= |p| && count == BI_L * i
        invariant Abs() % Pow(2, count) == 0
      {
        var j := 0;
        while j < BI_L
          invariant j <= BI_L && count == BI_L * i + j
          invariant Abs() % Pow(2, count) == 0
        {
          LimbBit(p, i, j);
          if BitAt(p[i], j) != 0 {
            BitOfZero(count);
            return;
          }
          LowBitZero(Abs(), count);
          j, count := j + 1, count + 1;
        }
        assert BI_L * (i + 1) == BI_L * i + BI_L;
        i := i + 1;
      }
      ValBound(p);
      PowBase(|p|);
      AllBitsZero(Abs(), count);
      return 0;
    }

    // Multiply by 2^count in place, with room made for the result.
    method ShiftL(count: nat) returns (ret: Status)
      modifies this
      ensures ret.Fail? ==> ret.code == AllocFailed
      ensures ret.Ok? ==> Abs() == old(Abs()) * Pow(2, count) && s == old(s)
      ensures ret.Ok? ==> |p| == Max(|old(p)|, LimbsFor(BitCount(old(Abs())) + count))
    {
      hide Val, Pow, BitCount, LimbsFor;
      var v0, t1 := count / BI_L, count % BI_L;
      var bits := BitLen();
      var i := bits + count;
      LimbsForBounds(i);
      if |p| * BI_L < i {
        :- Grow(LimbsFor(i));
      }
      ShiftRoom(p, count, v0, t1);
      if v0 > 0 {
        ShiftLimbsL(v0);
      }
      if t1 > 0 {
        ShiftBitsL(v0, t1);
      }
      return Ok;
    }

    // The limb part of a left shift: every limb moves up and the vacated low limbs are cleared.
    method ShiftLimbsL(v0: nat)
      requires 0 < v0 <= |p| && Abs() * Pow(BASE, v0) < Pow(BASE, |p|)
      modifies this`p
      ensures |p| == |old(p)| && Abs() == old(Abs()) * Pow(BASE, v0) && ZeroBelow(p, v0)
    {
      hide Val, Pow;
      var i: nat := |p|;
      ghost var m := p;
      SmallWords();
      while i > v0
        invariant v0 <= i <= |p| == |m|
        invariant forall k :: i <= k < |m| ==> p[k] == m[k - v0]
        invariant forall k :: 0 <= k < i ==> p[k] == m[k]
      {
        p := p[i - 1 := p[i - v0 - 1]];
        i := i - 1;
      }
      while i > 0
        invariant i <= v0 && |p| == |m|
        invariant forall k :: v0 <= k < |m| ==> p[k] == m[k - v0]
        invariant forall k :: i <= k < v0 ==> p[k] == 0
      {
        p := p[i - 1 := 0];
        i := i - 1;
      }
      MovedUp(m, p, v0);
    }

    // The bit part of a left shift: the bits leaving a limb enter the next one.
    method ShiftBitsL(v0: nat, t1: nat)
      requires 0 < t1 < BI_L && v0 <= |p| && ZeroBelow(p, v0)
      requires Abs() * Pow(2, t1) < Pow(BASE, |p|)
      modifies this`p
      ensures |p| == |old(p)| && Abs() == old(Abs()) * Pow(2, t1)
    {
      hide Val, Pow, Carrying;
      var t, h := Pow(2, t1), Pow(2, BI_L - t1);
      PowSplit(t1, t, h);
      ghost var m := p;
      var r0: Limb := 0;
      var i: nat := v0;
      ShiftStart(p, v0, t - 1);
      while i < |p|
        invariant v0 <= i <= |p| == |m|
        invariant r0 < t
        invariant forall k :: i <= k < |m| ==> p[k] == m[k]
        invariant Carrying(p, i, r0, Val(m) + Val(m[..i]) * (t - 1))
      {
        ShiftWord(p[i], r0, h, t, BASE);
        ghost var before := p;
        var r1: Limb := p[i] / h;
        var x: Limb := (p[i] % h) * t + r0;
        p := p[i := x];
        MulStep(before, i, x, r0, r1, Val(m), m, t - 1);
        r0 := r1;
        i := i + 1;
      }
      ShiftDone(m, p, r0, t);
    }

    // Divide the magnitude by 2^count in place, rounding down.
    method ShiftR(count: nat) returns (ret: Status)
      modifies this
      ensures ret.Fail? ==> ret.code == AllocFailed
      ensures ret.Ok? ==> Abs() == old(Abs()) / Pow(2, count) && (s == old(s) || (s == 1 && Abs() == 0))
      ensures ret.Ok? ==> |p| == |old(p)| || (|old(p)| == 0 && |p| == 1)
    {
      hide Val, Pow;
      var v0, v1 := count / BI_L, count % BI_L;
      SmallWords();
      if v0 > |p| || (v0 == |p| && v1 > 0) {
        ShiftedOut(p, count);
        ValOfZero();
        ret := LsetZero();
        return;
      }
      ShiftTwice(Val(p), count, v0, v1);
      if v0 > 0 {
        ShiftLimbsR(v0);
      }
      if v1 > 0 {
        ShiftBitsR(v1);
      }
      return Ok;
    }

    // Lset(0), stated through the magnitude.
    method LsetZero() returns (ret: Status)
      modifies this
      ensures ret.Fail? ==> ret.code == AllocFailed
      ensures ret.Ok? ==> s == 1 && Abs() == 0 && |p| == Max(1, |old(p)|)
    {
      if |p| == 0 {
        :- Grow(1);
      }
      p := Zeros(|p|);
      s := 1;
      ValZero(p);
      return Ok;
    }

    method ShiftLimbsR(v0: nat)
      requires 0 < v0 <= |p|
      modifies this`p
      ensures |p| == |old(p)| && Abs() == old(Abs()) / Pow(BASE, v0)
    {
      var i: nat := 0;
      ghost var m := p;
      SmallWords();
      while i < |p| - v0
        invariant i <= |p| - v0 && |p| == |m|
        invariant forall k :: 0 <= k < i ==> p[k] == m[k + v0]
        invariant forall k :: i <= k < |m| ==> p[k] == m[k]
      {
        p := p[i := p[i + v0]];
        i := i + 1;
      }
      while i < |p|
        invariant |m| - v0 <= i <= |p| == |m|
        invariant forall k :: 0 <= k < |m| - v0 ==> p[k] == m[k + v0]
        invariant forall k :: |m| - v0 <= k < i ==> p[k] == 0
      {
        p := p[i := 0];
        i := i + 1;
      }
      MovedDown(m, p, v0);
    }

    // The bit part of a right shift, from the top limb down: r0 holds the bits pushed out of the limb above.
    method ShiftBitsR(v1: nat)
      requires 0 < v1 < BI_L
      modifies this`p
      ensures |p| == |old(p)| && Abs() == old(Abs()) / Pow(2, v1)
    {
      hide Val, Pow;
      var t, h := Pow(2, v1), Pow(2, BI_L - v1);
      PowSplit(v1, t, h);
      ghost var m := p;
      ghost var rem := 0;
      var r0: Limb := 0;
      var i: nat := |p|;
      ValOfZero();
      assert p[i..] == [] && m[i..] == [];
      while i > 0
        invariant i <= |p| == |m|
        invariant forall k :: 0 <= k < i ==> p[k] == m[k]
        invariant 0 <= rem < t && r0 == rem * h
        invariant Val(p[i..]) * t + rem == Val(m[i..])
      {
        ShiftRightWord(p[i - 1], rem, h, t, BASE);
        ShiftRightStep(p, m, i, rem, h, t);
        rem := p[i - 1] % t;
        var r1: Limb := (p[i - 1] % t) * h;
        var x: Limb := p[i - 1] / t + r0;
        ghost var before := p;
        p := p[i - 1 := x];
        assert p[i - 1..] == [x] + before[i..];
        r0 := r1;
        i := i - 1;
      }
      assert p[0..] == p && m[0..] == m;
      DivModUnique(Val(m), t, Val(p), rem);
    }
  }

  lemma SignTimes(s: Sign, v: nat)
    ensures s == 1 ==> s * v == v
    ensures s == -1 ==> s * v == -(v as int)
  {
  }

  lemma ValOfValue(s: Sign, p: seq<Limb>)
    ensures s * Val(p) >= 0 ==> Val(p) == s * Val(p)
    ensures s * Val(p) <= 0 ==> Val(p) == -(s * Val(p))
  {
    SignTimes(s, Val(p));
  }

  function SignProduct(s: Sign, t: Sign): Sign {
    if s == t then 1 else -1
  }

  lemma SignMul(s: Sign, v: nat, t: Sign, w: nat)
    ensures SignProduct(s, t) * (v * w) == (s * v) * (t * w)
  {
    SignTimes(s, v);
    SignTimes(t, w);
  }

  lemma BitOfZero(k: nat)
    ensures BitAt(0, k) == 0
  {
    DivModUnique(0, Pow(2, k), 0, 0);
  }

  ghost predicate ZeroBelow(p: seq<Limb>, n: nat) {
    forall i :: 0 <= i < n && i < |p| ==> p[i] == 0
  }

  lemma ZeroBelowPrefix(p: seq<Limb>, q: seq<Limb>, n: nat)
    requires n <= |p| == |q| && p[..n] == q[..n] && ZeroBelow(p, n)
    ensures ZeroBelow(q, n)
  {
    assert forall i :: 0 <= i < n ==> q[i] == q[..n][i] == p[i];
  }

  lemma ProductStart(p: seq<Limb>, x: seq<Limb>, y: seq<Limb>, i: nat, m: nat)
    requires IsSize(x, i) && IsSize(y, m) && m <= |p| && Val(p) == 0
    ensures ZeroBelow(p, m) && Val(p[m..|p|]) == Val(x) * Val(y[m..m])
    ensures Val(x[..i]) == Val(x) < Pow(BASE, i)
    ensures Val(y[..m]) == Val(y)
  {
    ValZero(p);
    ValZero(p[m..|p|]);
    SizeFacts(x, i);
    SizeFacts(y, m);
    assert y[m..m] == [];
    assert Val(x) * 0 == 0;
  }

  lemma ProductDone(p: seq<Limb>, x: seq<Limb>, y: seq<Limb>, m: nat)
    requires m <= |y| && Val(y[..m]) == Val(y) && Val(p[0..|p|]) == Val(x) * Val(y[0..m])
    ensures Val(p) == Val(x) * Val(y)
  {
    assert p[0..|p|] == p && y[0..m] == y[..m];
  }

  // What the multiply-accumulate of limb j - 1 of y starts from, reaches, and why it fits.
  lemma ProductStep(p: seq<Limb>, x: seq<Limb>, y: seq<Limb>, i: nat, j: nat, m: nat)
    requires 0 < j <= m <= |y| && i <= |x| && i + m <= |p|
    requires Val(x[..i]) == Val(x) < Pow(BASE, i)
    requires ZeroBelow(p, j) && Val(p[j..|p|]) == Val(x) * Val(y[j..m])
    ensures Val(p[j - 1..|p|]) + Val(x[..i]) * y[j - 1] == Val(x) * Val(y[j - 1..m])
    ensures Val(p[j - 1..|p|]) + Val(x[..i]) * y[j - 1] < Pow(BASE, |p| - (j - 1))
  {
    assert p[j - 1..|p|][1..] == p[j..|p|];
    assert y[j - 1..m][1..] == y[j..m];
    ProductArithmetic(Val(x), Val(y[j..m]), y[j - 1], BASE);
    ValBound(y[j - 1..m]);
    ProductFits(Val(x), Val(y[j - 1..m]), Pow(BASE, i), Pow(BASE, m - j + 1));
    PowAdd(BASE, i, m - j + 1);
    PowMonotone(BASE, i + (m - j + 1), |p| - (j - 1));
  }

  lemma ProductArithmetic(v: int, w: int, t: int, base: int)
    ensures base * (v * w) + v * t == v * (t + base * w)
  {
    assert base * (v * w) == v * (base * w);
  }

  lemma ProductFits(v: nat, w: nat, a: nat, b: nat)
    requires v < a && w < b
    ensures v * w < a * b
  {
    MulMonotone(v, w, b);
    MulStrict(b, v, a);
  }

  lemma ValOfZero()
    ensures Val([]) == 0
  {
  }

  lemma PowSplit(t1: nat, t: nat, h: nat)
    requires 0 < t1 < BI_L && t == Pow(2, t1) && h == Pow(2, BI_L - t1)
    ensures h * t == BASE && h > 1 && t > 1 && t < BASE
  {
    PowAdd(2, BI_L - t1, t1);
    assert Pow(2, t1) == 2 * Pow(2, t1 - 1);
    assert Pow(2, BI_L - t1) == 2 * Pow(2, BI_L - t1 - 1);
    MulMonotone(t, 2, h);
  }

  lemma PowCount(v0: nat, t1: nat, count: nat)
    requires count == BI_L * v0 + t1
    ensures Pow(2, count) == Pow(BASE, v0) * Pow(2, t1)
  {
    hide Pow;
    PowBase(v0);
    PowAdd(2, BI_L * v0, t1);
  }

  // Room for the bits of the result is room for both parts of the shift.
  lemma ShiftRoom(p: seq<Limb>, count: nat, v0: nat, t1: nat)
    requires BitCount(Val(p)) + count <= BI_L * |p|
    requires v0 == count / BI_L && t1 == count % BI_L
    ensures v0 <= |p|
    ensures Val(p) * Pow(BASE, v0) < Pow(BASE, |p|)
    ensures Val(p) * Pow(2, count) == (Val(p) * Pow(BASE, v0)) * Pow(2, t1) < Pow(BASE, |p|)
    ensures v0 == 0 ==> Val(p) * Pow(BASE, v0) == Val(p)
    ensures t1 == 0 ==> Val(p) * Pow(2, count) == Val(p) * Pow(BASE, v0)
  {
    hide Pow, Val, BitCount;
    var b := BitCount(Val(p));
    DivModSplit(count, BI_L);
    DivAtMost(count, BI_L, |p|);
    PowCount(v0, t1, count);
    PowZero();
    assert Pow(2, b) * Pow(2, count) <= Pow(BASE, |p|) by {
      PowBase(|p|);
      PowMonotone(2, b + count, BI_L * |p|);
      PowAdd(2, b, count);
    }
    BitCountBounds(Val(p));
    ShiftRoomArithmetic(Val(p), Pow(BASE, v0), Pow(2, t1), Pow(2, count), Pow(2, b), Pow(BASE, |p|));
  }

  lemma PowZero()
    ensures Pow(BASE, 0) == 1 && Pow(2, 0) == 1
  {
  }

  lemma ShiftRoomArithmetic(v: nat, w: nat, t: nat, c: nat, hi: nat, room: nat)
    requires w > 0 && t > 0 && c == w * t && v < hi && hi * c <= room
    ensures v * w < room && v * c == (v * w) * t < room
  {
    MulStrict(c, v, hi);
    MulAssoc(v, w, t);
    assert v * w >= 0;
    MulMonotone(v * w, 1, t);
  }

  lemma {:induction false} ValZerosBelow(p: seq<Limb>, n: nat)
    requires n <= |p| && ZeroBelow(p, n)
    ensures Val(p[..n]) == 0
  {
    ValZero(p[..n]);
  }

  lemma MovedUp(m: seq<Limb>, p: seq<Limb>, v0: nat)
    requires v0 <= |m| == |p|
    requires forall k :: v0 <= k < |m| ==> p[k] == m[k - v0]
    requires forall k :: 0 <= k < v0 ==> p[k] == 0
    requires Val(m) * Pow(BASE, v0) < Pow(BASE, |m|)
    ensures ZeroBelow(p, v0) && Val(p) == Val(m) * Pow(BASE, v0)
  {
    hide Pow, Val;
    var n := |m| - v0;
    assert Val(m) < Pow(BASE, n) by {
      PowAdd(BASE, n, v0);
      CancelLess(Val(m), Pow(BASE, n), Pow(BASE, v0));
    }
    ValSmall(m, n);
    assert p[v0..] == m[..n];
    ValZerosBelow(p, v0);
    ValSplit(p, v0);
    Commute(Pow(BASE, v0), Val(m));
  }

  lemma MovedDown(m: seq<Limb>, p: seq<Limb>, v0: nat)
    requires v0 <= |m| == |p|
    requires forall k :: 0 <= k < |m| - v0 ==> p[k] == m[k + v0]
    requires forall k :: |m| - v0 <= k < |m| ==> p[k] == 0
    ensures Val(p) == Val(m) / Pow(BASE, v0)
  {
    hide Pow, Val;
    var n := |m| - v0;
    ValTruncate(p, n);
    assert p[..n] == m[v0..];
    ValSplit(m, v0);
    ValBound(m[..v0]);
    DivModUnique(Val(m), Pow(BASE, v0), Val(p), Val(m[..v0]));
  }

  lemma ShiftStart(p: seq<Limb>, v0: nat, b: int)
    requires v0 <= |p| && ZeroBelow(p, v0)
    ensures Carrying(p, v0, 0, Val(p) + Val(p[..v0]) * b)
  {
    ValZerosBelow(p, v0);
    assert 0 * b == 0;
  }

  // One limb of a left shift by log2(t): h * t is the word size.
  lemma ShiftWord(x: int, r0: int, h: int, t: int, base: int)
    requires h > 0 && t > 0 && h * t == base && 0 <= x < base && 0 <= r0 < t
    ensures 0 <= x / h < t && t <= base
    ensures 0 <= (x % h) * t + r0 < base
    ensures (x % h) * t + r0 + base * (x / h) == x + x * (t - 1) + r0
  {
    var q, r := x / h, x % h;
    if q >= t { MulMonotone(h, t, q); }
    DigitBound(t, r0, r, h);
    assert r * t >= 0;
    assert (h * t) * q == (h * q) * t;
    assert (h * q + r) * t == (h * q) * t + r * t;
    MulMonotone(t, 1, h);
  }

  lemma ShiftDone(m: seq<Limb>, p: seq<Limb>, r0: Limb, t: nat)
    requires |p| == |m| && t > 0 && Val(m) * t < Pow(BASE, |m|)
    requires Carrying(p, |p|, r0, Val(m) + Val(m[..|p|]) * (t - 1))
    ensures Val(p) == Val(m) * t
  {
    assert m[..|p|] == m;
    hide Val, Pow;
    Distribute(Val(m), t, 1);
    assert Val(m) * t >= 0;
    CarryFits(p, |p|, r0, Val(m) * t);
    CarryDone(p, |p|, Val(m) * t);
  }

  lemma ShiftedOut(p: seq<Limb>, count: nat)
    requires BI_L * |p| <= count
    ensures Val(p) / Pow(2, count) == 0
  {
    ValBound(p);
    PowBase(|p|);
    PowMonotone(2, BI_L * |p|, count);
    DivModUnique(Val(p), Pow(2, count), 0, Val(p));
  }

  lemma ShiftTwice(v: nat, count: nat, v0: nat, v1: nat)
    requires v0 == count / BI_L && v1 == count % BI_L
    ensures v / Pow(2, count) == (v / Pow(BASE, v0)) / Pow(2, v1)
    ensures v0 == 0 ==> v / Pow(BASE, v0) == v
    ensures v1 == 0 ==> v / Pow(2, count) == v / Pow(BASE, v0)
  {
    PowCount(v0, v1, count);
    DivDiv(v, Pow(BASE, v0), Pow(2, v1));
  }

  lemma ShiftRightWord(x: int, rem: int, h: int, t: int, base: int)
    requires h > 0 && t > 0 && h * t == base && 0 <= x < base && 0 <= rem < t
    ensures 0 <= (x % t) * h < base
    ensures 0 <= x / t + rem * h < base
    ensures (x / t + rem * h) * t + x % t == x + base * rem
  {
    var q := x / t;
    if q >= h { MulMonotone(t, h, q); }
    DigitBound(h, q, rem, t);
    MulStrict(h, x % t, t);
    assert (q + rem * h) * t == q * t + rem * (h * t);
  }

  // What a limb of the right shift adds to quotient and remainder.
  lemma ShiftRightStep(p: seq<Limb>, m: seq<Limb>, i: nat, rem: int, h: int, t: int)
    requires 0 < i <= |p| == |m| && p[i - 1] == m[i - 1]
    requires h > 0 && t > 0 && h * t == BASE && 0 <= rem < t
    requires Val(p[i..]) * t + rem == Val(m[i..])
    requires 0 <= p[i - 1] / t + rem * h < BASE
    ensures Val([p[i - 1] / t + rem * h] + p[i..]) * t + p[i - 1] % t == Val(m[i - 1..])
  {
    var x: Limb := p[i - 1] / t + rem * h;
    var q := [x] + p[i..];
    assert q[1..] == p[i..] && m[i - 1..][1..] == m[i..];
    ShiftRightWord(p[i - 1], rem, h, t, BASE);
    ShiftRightArithmetic(x, Val(p[i..]), t, rem, BASE);
  }

  lemma ShiftRightArithmetic(x: int, v: int, t: int, rem: int, base: int)
    ensures (x + base * v) * t == x * t + base * (v * t + rem) - base * rem
  {
    assert (x + base * v) * t == x * t + base * (v * t);
    Distribute(base, v * t, rem);
  }
}
