// Byte strings, blocks of sixteen bytes and numbers written in bytes.
module Bytes {
  import opened Numbers

  type Byte = b: int | 0 <= b < 256

  type Block = s: seq<Byte> | |s| == 16 witness [0, 0, 0, 0, 0, 0, 0, 0, 0, 0, 0, 0, 0, 0, 0, 0]

  // Sizes are counted in words of 32 or of 64 bits.
  const WIDE: bool
  const SIZE_MAX: nat := if WIDE then 0xFFFF_FFFF_FFFF_FFFF else 0xFFFF_FFFF

  function Zeros(n: nat): (r: seq<Byte>)
    ensures |r| == n
  {
    seq(n, _ => 0)
  }

  // ---------------------------------------------------------------- exclusive or

  // Exclusive or of the low n bits.
  function XorBits(a: nat, b: nat, n: nat): (r: nat) {
    if n == 0 then 0 else (a + b) % 2 + 2 * XorBits(a / 2, b / 2, n - 1)
  }

  lemma {:induction false} XorBitsBelow(a: nat, b: nat, n: nat)
    ensures XorBits(a, b, n) < Pow(2, n)
  {
    if n > 0 {
      XorBitsBelow(a / 2, b / 2, n - 1);
    }
  }

  function Xor(a: Byte, b: Byte): (r: Byte) {
    XorBitsBelow(a, b, 8);
    assert Pow(2, 8) == 256;
    XorBits(a, b, 8)
  }

  lemma BitTwice(a: nat, b: nat, rest: nat)
    ensures ((a + b) % 2 + 2 * rest) / 2 == rest
    ensures ((a + b) % 2 + 2 * rest + b) % 2 == a % 2
  {
    var k := (a + b) / 2;
    assert (a + b) % 2 == a + b - 2 * k;
    var sum := a + 2 * (b - k + rest);
    assert (a + b) % 2 + 2 * rest + b == sum;
    assert sum % 2 == a % 2;
  }

  lemma {:induction false} XorBitsTwice(a: nat, b: nat, n: nat)
    requires a < Pow(2, n)
    ensures XorBits(XorBits(a, b, n), b, n) == a
  {
    if n > 0 {
      var rest := XorBits(a / 2, b / 2, n - 1);
      BitTwice(a, b, rest);
      XorBitsTwice(a / 2, b / 2, n - 1);
    }
  }

  lemma XorTwice(a: Byte, b: Byte)
    ensures Xor(Xor(a, b), b) == a
  {
    assert Pow(2, 8) == 256;
    XorBitsTwice(a, b, 8);
  }

  lemma {:induction false} XorBitsSame(a: nat, n: nat)
    ensures XorBits(a, a, n) == 0
  {
    if n > 0 {
      XorBitsSame(a / 2, n - 1);
      assert (a + a) % 2 == 0;
    }
  }

  lemma {:induction false} XorBitsCommutes(a: nat, b: nat, n: nat)
    ensures XorBits(a, b, n) == XorBits(b, a, n)
  {
    if n > 0 {
      XorBitsCommutes(a / 2, b / 2, n - 1);
    }
  }

  lemma BitRest(a: nat, b: nat, rest: nat)
    ensures ((a + b) % 2 + 2 * rest) / 2 == rest
    ensures ((a + b) % 2 + 2 * rest) % 2 == (a + b) % 2
  {
  }

  lemma ParitySum(a: nat, b: nat, c: nat, u: nat, v: nat)
    requires u % 2 == (a + b) % 2 && v % 2 == (b + c) % 2
    ensures (u + c) % 2 == (a + v) % 2
  {
    var k, l, m, n := u / 2, (a + b) / 2, v / 2, (b + c) / 2;
    assert u == 2 * k + u % 2 && a + b == 2 * l + (a + b) % 2;
    assert v == 2 * m + v % 2 && b + c == 2 * n + (b + c) % 2;
  }

  lemma {:induction false} XorBitsAssociates(a: nat, b: nat, c: nat, n: nat)
    ensures XorBits(XorBits(a, b, n), c, n) == XorBits(a, XorBits(b, c, n), n)
  {
    if n > 0 {
      var ab, bc := XorBits(a / 2, b / 2, n - 1), XorBits(b / 2, c / 2, n - 1);
      BitRest(a, b, ab);
      BitRest(b, c, bc);
      ParitySum(a, b, c, (a + b) % 2 + 2 * ab, (b + c) % 2 + 2 * bc);
      XorBitsAssociates(a / 2, b / 2, c / 2, n - 1);
    }
  }

  lemma XorCommutes(a: Byte, b: Byte)
    ensures Xor(a, b) == Xor(b, a)
  {
    XorBitsCommutes(a, b, 8);
  }

  lemma XorAssociates(a: Byte, b: Byte, c: Byte)
    ensures Xor(Xor(a, b), c) == Xor(a, Xor(b, c))
  {
    XorBitsAssociates(a, b, c, 8);
  }

  // Two sums of two, taken crosswise.
  lemma XorCross(a: Byte, b: Byte, c: Byte, d: Byte)
    ensures Xor(Xor(a, b), Xor(c, d)) == Xor(Xor(a, c), Xor(b, d))
  {
    hide Xor;
    XorAssociates(a, b, Xor(c, d));
    XorAssociates(b, c, d);
    XorCommutes(b, c);
    XorAssociates(c, b, d);
    XorAssociates(a, c, Xor(b, d));
  }

  lemma XorNothing(a: Byte)
    ensures Xor(a, 0) == a && Xor(0, a) == a && Xor(a, a) == 0
  {
    XorZero(a, a);
    XorTwice(0, a);
    XorTwice(a, a);
    XorCommutes(0, a);
  }

  // A difference shows as a bit that is set.
  lemma XorZero(a: Byte, b: Byte)
    ensures Xor(a, b) == 0 <==> a == b
  {
    XorBitsSame(a, 8);
    XorBitsSame(b, 8);
    XorTwice(a, b);
    XorTwice(b, b);
  }

  // Inclusive or of the low n bits.
  function OrBits(a: nat, b: nat, n: nat): (r: nat) {
    if n == 0 then 0 else (if a % 2 == 1 || b % 2 == 1 then 1 else 0) + 2 * OrBits(a / 2, b / 2, n - 1)
  }

  lemma {:induction false} OrBitsBelow(a: nat, b: nat, n: nat)
    ensures OrBits(a, b, n) < Pow(2, n)
  {
    if n > 0 {
      OrBitsBelow(a / 2, b / 2, n - 1);
    }
  }

  function Or(a: Byte, b: Byte): (r: Byte) {
    OrBitsBelow(a, b, 8);
    assert Pow(2, 8) == 256;
    OrBits(a, b, 8)
  }

  lemma {:induction false} OrBitsNothing(a: nat, n: nat)
    requires a < Pow(2, n)
    ensures OrBits(a, 0, n) == a
  {
    if n > 0 {
      OrBitsNothing(a / 2, n - 1);
    }
  }

  // Bits that do not meet add up.
  lemma {:induction false} OrBitsApart(c: nat, low: nat, k: nat, n: nat)
    requires low < Pow(2, k) && k <= n && c < Pow(2, n - k)
    ensures OrBits(Pow(2, k) * c, low, n) == Pow(2, k) * c + low
  {
    if k == 0 {
      OrBitsNothing(c, n);
    } else {
      var w := Pow(2, k - 1) * c;
      assert Pow(2, k) * c == 2 * w by { MulAssoc(2, Pow(2, k - 1), c); }
      OrBitsApart(c, low / 2, k - 1, n - 1);
    }
  }

  lemma OrBitsDouble(a: nat, b: nat, n: nat)
    ensures OrBits(2 * a, 2 * b, n + 1) == 2 * OrBits(a, b, n)
  {
  }

  lemma {:induction false} OrBitsOnes(a: nat, n: nat)
    ensures OrBits(a, Pow(2, n) - 1, n) == Pow(2, n) - 1
  {
    if n > 0 {
      var w := Pow(2, n - 1) - 1;
      OrBitsOnes(a / 2, n - 1);
      assert OrBits(a, 2 * w + 1, n) == 1 + 2 * OrBits(a / 2, w, n - 1) by {
        DivModUnique(2 * w + 1, 2, w, 1);
      }
    }
  }

  // The first operand is as long as the result.
  function XorAll(a: seq<Byte>, b: seq<Byte>): (r: seq<Byte>)
    requires |a| <= |b|
    ensures |r| == |a|
  {
    seq(|a|, k requires 0 <= k < |a| => Xor(a[k], b[k]))
  }

  // ---------------------------------------------------------------- numbers

  // The last q bytes of n, most significant first.
  function BigEndian(n: nat, q: nat): (r: seq<Byte>)
    ensures |r| == q
  {
    if q == 0 then [] else BigEndian(n / 256, q - 1) + [n % 256]
  }

  // The last q bytes of n, least significant first.
  function LittleEndian(n: nat, q: nat): (r: seq<Byte>)
    ensures |r| == q
  {
    if q == 0 then [] else [n % 256] + LittleEndian(n / 256, q - 1)
  }

  lemma {:induction false} BigEndianInjective(m: nat, n: nat, q: nat)
    requires m < Pow(256, q) && n < Pow(256, q) && BigEndian(m, q) == BigEndian(n, q)
    ensures m == n
  {
    if q > 0 {
      var a, b := BigEndian(m, q), BigEndian(n, q);
      assert a[..q - 1] == BigEndian(m / 256, q - 1) && b[..q - 1] == BigEndian(n / 256, q - 1);
      assert a[q - 1] == m % 256 && b[q - 1] == n % 256;
      BigEndianInjective(m / 256, n / 256, q - 1);
    }
  }

  // The number a byte string stands for, most significant byte first.
  function FromBigEndian(s: seq<Byte>): nat {
    if s == [] then 0 else 256 * FromBigEndian(s[..|s| - 1]) + s[|s| - 1]
  }

  lemma {:induction false} FromBigEndianConcat(a: seq<Byte>, b: seq<Byte>)
    ensures FromBigEndian(a + b) == FromBigEndian(a) * Pow(256, |b|) + FromBigEndian(b)
  {
    if b == [] {
      assert a + b == a;
    } else {
      var c := b[..|b| - 1];
      assert (a + b)[..|a + b| - 1] == a + c;
      FromBigEndianConcat(a, c);
      Shift256(FromBigEndian(a), Pow(256, |c|), FromBigEndian(c), b[|b| - 1]);
    }
  }

  lemma Shift256(u: nat, w: nat, v: nat, x: nat)
    ensures 256 * (u * w + v) + x == u * (256 * w) + (256 * v + x)
  {
    assert 256 * (u * w) == u * (256 * w);
  }

  lemma {:induction false} FromBigEndianZeros(n: nat)
    ensures FromBigEndian(Zeros(n)) == 0
  {
    if n > 0 {
      assert Zeros(n)[..n - 1] == Zeros(n - 1);
      FromBigEndianZeros(n - 1);
    }
  }

  lemma {:induction false} FromBigEndianBound(s: seq<Byte>)
    ensures FromBigEndian(s) < Pow(256, |s|)
  {
    if s != [] {
      FromBigEndianBound(s[..|s| - 1]);
    }
  }

  lemma {:induction false} FromBigEndianOf(n: nat, q: nat)
    requires n < Pow(256, q)
    ensures FromBigEndian(BigEndian(n, q)) == n
  {
    if q > 0 {
      assert BigEndian(n, q)[..q - 1] == BigEndian(n / 256, q - 1);
      FromBigEndianOf(n / 256, q - 1);
    }
  }

  lemma {:induction false} BigEndianOf(s: seq<Byte>)
    ensures BigEndian(FromBigEndian(s), |s|) == s
  {
    if s != [] {
      var n := FromBigEndian(s);
      DivModUnique(n, 256, FromBigEndian(s[..|s| - 1]), s[|s| - 1]);
      BigEndianOf(s[..|s| - 1]);
    }
  }

  // The number a byte string stands for, least significant byte first.
  function FromLittleEndian(s: seq<Byte>): nat {
    if s == [] then 0 else s[0] + 256 * FromLittleEndian(s[1..])
  }

  lemma {:induction false} LittleEndianRead(n: nat, q: nat)
    requires n < Pow(256, q)
    ensures FromLittleEndian(LittleEndian(n, q)) == n
  {
    if q > 0 {
      var s := LittleEndian(n, q);
      assert s[1..] == LittleEndian(n / 256, q - 1);
      LittleEndianRead(n / 256, q - 1);
    }
  }

  lemma {:induction false} LittleEndianOf(s: seq<Byte>)
    ensures LittleEndian(FromLittleEndian(s), |s|) == s
  {
    if s != [] {
      DivModUnique(FromLittleEndian(s), 256, FromLittleEndian(s[1..]), s[0]);
      LittleEndianOf(s[1..]);
    }
  }

  // ---------------------------------------------------------------- whole blocks

  // Sixteen bytes of a string from one place on, with zeros where the string has ended.
  function BlockAt(s: seq<Byte>, at: nat): Block {
    seq<Byte>(16, k requires 0 <= k < 16 => if at + k < |s| then s[at + k] else 0)
  }
}
