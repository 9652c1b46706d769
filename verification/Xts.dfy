// XTS: each block of a data unit is masked with its own tweak, before and after the cipher, and a
// last partial block borrows bytes from the one before it.
module Xts {
  import opened Numbers
  import opened Bytes
  import opened BlockCipher
  import opened Memory

  datatype Result = Ok | InvalidLength | CipherFailed

  const MAX_LENGTH: nat := 0x10_0000 * 16

  // ---------------------------------------------------------------- the tweak

  // IEEE Std 1619, section 5.2: multiplication by the primitive element of GF(2^128).
  function MulX(x: Block): Block {
    seq<Byte>(16, k requires 0 <= k < 16 =>
      if k == 0 then Xor(2 * (x[0] % 128), 135 * (x[15] / 128)) else 2 * (x[k] % 128) + x[k - 1] / 128)
  }

  // The coefficient of the i-th power of x in the polynomial that a block stands for.
  function Coefficient(x: Block, i: nat): nat
    requires i < 128
  {
    BitOf(x[i / 8], i % 8)
  }

  function BitOf(n: nat, j: nat): nat {
    if j == 0 then n % 2 else BitOf(n / 2, j - 1)
  }

  lemma LowBits(a: nat, b: nat, rest: nat)
    ensures ((a + b) % 2 + 2 * rest) / 2 == rest
    ensures ((a + b) % 2 + 2 * rest) % 2 == (a % 2 + b % 2) % 2
  {
    var u, v := a / 2, b / 2;
    assert a + b == a % 2 + b % 2 + 2 * (u + v);
  }

  lemma {:induction false} BitOfXor(a: nat, b: nat, n: nat, j: nat)
    requires j < n
    ensures BitOf(XorBits(a, b, n), j) == (BitOf(a, j) + BitOf(b, j)) % 2
  {
    LowBits(a, b, XorBits(a / 2, b / 2, n - 1));
    if j > 0 {
      BitOfXor(a / 2, b / 2, n - 1, j - 1);
    }
  }

  function Shifted(h: nat, w: nat): nat {
    if w == 0 then h else 2 * Shifted(h, w - 1)
  }

  // Bits below the w-th do not depend on what is added above.
  lemma {:induction false} LowBit(l: nat, h: nat, w: nat, j: nat)
    requires j < w
    ensures BitOf(l + Shifted(h, w), j) == BitOf(l, j)
  {
    var t := Shifted(h, w - 1);
    assert (l + 2 * t) % 2 == l % 2 && (l + 2 * t) / 2 == l / 2 + t;
    if j > 0 {
      LowBit(l / 2, h, w - 1, j - 1);
    }
  }

  lemma DoubledBit(a: Byte, c: nat, j: nat)
    requires c < 2 && j < 8
    ensures BitOf(2 * (a % 128) + c, j) == if j == 0 then c else BitOf(a, j - 1)
  {
    var l, h := a % 128, a / 128;
    SevenUp(h);
    NextUp(l, c);
    hide Shifted;
    if j > 0 {
      LowBit(l, h, 7, j - 1);
      assert l + Shifted(h, 7) == a;
    }
  }

  lemma SevenUp(h: nat)
    ensures Shifted(h, 7) == 128 * h
  {
    assert Shifted(h, 3) == 2 * Shifted(h, 2) == 4 * Shifted(h, 1);
    assert Shifted(h, 6) == 2 * Shifted(h, 5) == 4 * Shifted(h, 4);
  }

  lemma NextUp(l: nat, c: nat)
    requires c < 2
    ensures (2 * l + c) / 2 == l && (2 * l + c) % 2 == c
  {
  }

  lemma {:induction false} HighBit(l: nat, h: nat, w: nat)
    requires l < Pow(2, w)
    ensures BitOf(l + Shifted(h, w), w) == h % 2
  {
    if w > 0 {
      var t := Shifted(h, w - 1);
      assert (l + 2 * t) / 2 == l / 2 + t;
      HighBit(l / 2, h, w - 1);
    }
  }

  lemma LastBit(b: Byte)
    ensures BitOf(b, 7) == b / 128
  {
    SevenUp(b / 128);
    assert Pow(2, 7) == 128;
    HighBit(b % 128, b / 128, 7);
  }

  lemma {:induction false} NoBit(j: nat)
    ensures BitOf(0, j) == 0
  {
    if j > 0 {
      NoBit(j - 1);
    }
  }

  lemma ReductionBit(top: nat, j: nat)
    requires top < 2 && j < 8
    ensures BitOf(135 * top, j) == if j in {0, 1, 2, 7} then top else 0
  {
    NoBit(j);
    assert BitOf(135, 0) == 1 && BitOf(135, 1) == 1 && BitOf(135, 2) == 1 && BitOf(135, 3) == 0;
    assert BitOf(135, 4) == 0 && BitOf(135, 5) == 0 && BitOf(135, 6) == 0 && BitOf(135, 7) == 1;
  }

  // The reduction polynomial is x^128 + x^7 + x^2 + x + 1.
  lemma MulXIsTimesX(x: Block, i: nat)
    requires i < 128
    ensures Coefficient(MulX(x), i)
         == ((if i > 0 then Coefficient(x, i - 1) else 0) + (if i in {0, 1, 2, 7} then Coefficient(x, 127) else 0)) % 2
  {
    hide BitOf, XorBits;
    var k, j := i / 8, i % 8;
    assert i == 8 * k + j;
    LastBit(x[15]);
    if k == 0 {
      FirstByteTimesX(x, j);
    } else {
      LaterByteTimesX(x, k, j);
      assert j == 0 ==> (i - 1) / 8 == k - 1 && (i - 1) % 8 == 7;
      assert j > 0 ==> (i - 1) / 8 == k && (i - 1) % 8 == j - 1;
      BitIsBit(MulX(x)[k], j);
    }
  }

  lemma {:induction false} BitIsBit(n: nat, j: nat)
    ensures BitOf(n, j) < 2
  {
    if j > 0 {
      BitIsBit(n / 2, j - 1);
    }
  }

  lemma FirstByteTimesX(x: Block, j: nat)
    requires j < 8
    ensures BitOf(MulX(x)[0], j)
         == ((if j > 0 then BitOf(x[0], j - 1) else 0) + (if j in {0, 1, 2, 7} then BitOf(x[15], 7) else 0)) % 2
  {
    hide BitOf, XorBits;
    var top := x[15] / 128;
    LastBit(x[15]);
    BitOfXor(2 * (x[0] % 128), 135 * top, 8, j);
    DoubledBit(x[0], 0, j);
    ReductionBit(top, j);
  }

  lemma LaterByteTimesX(x: Block, k: nat, j: nat)
    requires 0 < k < 16 && j < 8
    ensures BitOf(MulX(x)[k], j) == if j > 0 then BitOf(x[k], j - 1) else BitOf(x[k - 1], 7)
  {
    hide BitOf, XorBits;
    LastBit(x[k - 1]);
    DoubledBit(x[k], x[k - 1] / 128, j);
  }

  // The tweak of block number j.
  function Tweak(t0: Block, j: nat): Block {
    if j == 0 then t0 else MulX(Tweak(t0, j - 1))
  }

  // ---------------------------------------------------------------- words of 64 bits

  // Twice a little-endian number, with a carry in.
  function Twice(s: seq<Byte>, c: nat): (r: seq<Byte>)
    requires c < 2
    ensures |r| == |s|
  {
    if s == [] then [] else [2 * (s[0] % 128) + c] + Twice(s[1..], s[0] / 128)
  }

  lemma {:induction false} TwiceAt(s: seq<Byte>, c: nat, k: nat)
    requires c < 2 && k < |s|
    ensures Twice(s, c)[k] == 2 * (s[k] % 128) + (if k == 0 then c else s[k - 1] / 128)
  {
    if k > 0 {
      TwiceAt(s[1..], s[0] / 128, k - 1);
    }
  }

  lemma Doubling(b: Byte, m: nat, c: nat)
    requires c < 2
    ensures (2 * (b + 256 * m) + c) % 256 == 2 * (b % 128) + c
    ensures (2 * (b + 256 * m) + c) / 256 == 2 * m + b / 128
  {
    DivModSplit(b, 128);
    DivModUnique(2 * (b + 256 * m) + c, 256, 2 * m + b / 128, 2 * (b % 128) + c);
  }

  lemma {:induction false} TwiceIsTwice(s: seq<Byte>, c: nat)
    requires c < 2
    ensures LittleEndian(2 * FromLittleEndian(s) + c, |s|) == Twice(s, c)
  {
    if s != [] {
      Doubling(s[0], FromLittleEndian(s[1..]), c);
      TwiceIsTwice(s[1..], s[0] / 128);
    }
  }

  function Half(n: nat): nat {
    if n <= 1 then 128 else 256 * Half(n - 1)
  }

  // The top bit of a little-endian number is that of its last byte.
  lemma {:induction false} TopBit(s: seq<Byte>)
    requires s != []
    ensures FromLittleEndian(s) < 2 * Half(|s|)
    ensures FromLittleEndian(s) >= Half(|s|) <==> s[|s| - 1] >= 128
  {
    if |s| == 1 {
      assert s[1..] == [];
    } else {
      TopBit(s[1..]);
      assert s[1..][|s| - 2] == s[|s| - 1];
    }
  }

  lemma {:induction false} LittleEndianLow(n: nat, h: nat, q: nat)
    ensures LittleEndian(n + h * Pow(256, q), q) == LittleEndian(n, q)
  {
    if q > 0 {
      var t := h * Pow(256, q - 1);
      assert h * Pow(256, q) == 256 * t;
      assert (n + 256 * t) % 256 == n % 256 && (n + 256 * t) / 256 == n / 256 + t;
      LittleEndianLow(n / 256, h, q - 1);
    }
  }

  // Exclusive or of a word with a value of one byte.
  function XorLow(n: nat, c: Byte): nat {
    256 * (n / 256) + Xor(n % 256, c)
  }

  lemma Recombine(q: nat, x: Byte)
    ensures (256 * q + x) % 256 == x && (256 * q + x) / 256 == q
  {
  }

  lemma XorLowBytes(n: nat, c: Byte)
    ensures LittleEndian(XorLow(n, c), 8) == LittleEndian(n, 8)[0 := Xor(n % 256, c)]
  {
    hide LittleEndian, Xor;
    var x := Xor(n % 256, c);
    Recombine(n / 256, x);
    FirstLittle(XorLow(n, c), 8);
    FirstLittle(n, 8);
    var rest := LittleEndian(n / 256, 7);
    assert LittleEndian(XorLow(n, c), 8) == [x] + rest;
  }

  lemma FirstLittle(n: nat, q: nat)
    requires q > 0
    ensures LittleEndian(n, q) == [n % 256] + LittleEndian(n / 256, q - 1)
  {
  }

  // Twice a word of 64 bits, without the bit that leaves it, and that bit.
  lemma WordTwice(w: seq<Byte>, c: nat)
    requires |w| == 8 && c < 2
    ensures FromLittleEndian(w) / 0x8000_0000_0000_0000 == w[7] / 128
    ensures LittleEndian((2 * FromLittleEndian(w) + c) % 0x1_0000_0000_0000_0000, 8) == Twice(w, c)
  {
    var n := FromLittleEndian(w);
    assert Half(8) == 0x8000_0000_0000_0000;
    assert Pow(256, 8) == 0x1_0000_0000_0000_0000;
    hide *;
    TopBit(w);
    TwiceIsTwice(w, c);
    WithoutTop(n, 2 * n + c);
  }

  lemma WithoutTop(n: nat, m: nat)
    requires n < 0x1_0000_0000_0000_0000
    ensures LittleEndian(m % 0x1_0000_0000_0000_0000, 8) == LittleEndian(m, 8)
    ensures n / 0x8000_0000_0000_0000 == if n >= 0x8000_0000_0000_0000 then 1 else 0
  {
    assert Pow(256, 8) == 0x1_0000_0000_0000_0000;
    hide *;
    var h := m / 0x1_0000_0000_0000_0000;
    var l := m % 0x1_0000_0000_0000_0000;
    assert m == l + h * Pow(256, 8);
    LittleEndianLow(l, h, 8);
  }

  // The source's step on two words of 64 bits.
  method MultiplyByX(x: Block) returns (r: Block)
    ensures r == MulX(x)
  {
    hide MulX, XorLow, LittleEndian, FromLittleEndian, Twice, Xor;
    var a := FromLittleEndian(x[..8]);
    var b := FromLittleEndian(x[8..]);
    WordTwice(x[..8], 0);
    WordTwice(x[8..], x[7] / 128);
    var top := b / 0x8000_0000_0000_0000;
    var reduction: Byte := if top == 1 then 0x87 else 0;
    var low := XorLow(2 * a % 0x1_0000_0000_0000_0000, reduction);
    var high := (a / 0x8000_0000_0000_0000 + 2 * b) % 0x1_0000_0000_0000_0000;
    XorLowBytes(2 * a % 0x1_0000_0000_0000_0000, reduction);
    r := LittleEndian(low, 8) + LittleEndian(high, 8);
    WordsAreMulX(x, LittleEndian(low, 8), LittleEndian(high, 8), 2 * a % 0x1_0000_0000_0000_0000, reduction);
  }

  lemma WordsAreMulX(x: Block, low: seq<Byte>, high: seq<Byte>, n: nat, reduction: Byte)
    requires LittleEndian(n, 8) == Twice(x[..8], 0) && reduction == 135 * (x[15] / 128)
    requires low == Twice(x[..8], 0)[0 := Xor(n % 256, reduction)] && high == Twice(x[8..], x[7] / 128)
    ensures low + high == MulX(x)
  {
    var r := low + high;
    assert LittleEndian(n, 8)[0] == n % 256;
    TwiceAt(x[..8], 0, 0);
    forall k | 0 <= k < 16 ensures r[k] == MulX(x)[k] {
      if 0 < k < 8 {
        TwiceAt(x[..8], 0, k);
      } else if k >= 8 {
        TwiceAt(x[8..], x[7] / 128, k - 8);
      }
    }
  }

  // ---------------------------------------------------------------- definition

  // IEEE Std 1619, section 5.3.1 and 5.4.1: one block under its tweak, in either direction.
  function OneBlock(E: Cipher, t: Block, x: Block): Block {
    XorAll(Apply(E, XorAll(x, t)), t)
  }

  function BlockOf(s: seq<Byte>, j: nat): Block
    requires 16 * j + 16 <= |s|
  {
    s[16 * j..16 * j + 16]
  }

  // The first n blocks, each under its own tweak.
  function Blocks(E: Cipher, t0: Block, s: seq<Byte>, n: nat): (r: seq<Byte>)
    requires 16 * n <= |s|
    ensures |r| == 16 * n
  {
    if n == 0 then [] else Blocks(E, t0, s, n - 1) + OneBlock(E, Tweak(t0, n - 1), BlockOf(s, n - 1))
  }

  // Section 5.3.2: the last partial block takes the place of the head of the last full one, whose tail
  // it borrows.
  function Encrypted(E: Cipher, t0: Block, p: seq<Byte>): (r: seq<Byte>)
    requires |p| >= 16
    ensures |r| == |p|
  {
    var m, b := |p| / 16, |p| % 16;
    if b == 0 then Blocks(E, t0, p, m)
    else
      var last := OneBlock(E, Tweak(t0, m - 1), BlockOf(p, m - 1));
      var borrowed: Block := p[16 * m..] + last[b..];
      Blocks(E, t0, p, m - 1) + OneBlock(E, Tweak(t0, m), borrowed) + last[..b]
  }

  // Section 5.4.2: the two last tweaks change places.
  function Decrypted(D: Cipher, t0: Block, c: seq<Byte>): (r: seq<Byte>)
    requires |c| >= 16
    ensures |r| == |c|
  {
    var m, b := |c| / 16, |c| % 16;
    if b == 0 then Blocks(D, t0, c, m)
    else
      var last := OneBlock(D, Tweak(t0, m), BlockOf(c, m - 1));
      var restored: Block := c[16 * m..] + last[b..];
      Blocks(D, t0, c, m - 1) + OneBlock(D, Tweak(t0, m - 1), restored) + last[..b]
  }

  // ---------------------------------------------------------------- decryption undoes encryption

  ghost predicate Undoes(D: Cipher, E: Cipher) {
    forall x: Block :: Apply(D, Apply(E, x)) == x
  }

  lemma XorAllTwice(a: Block, t: Block)
    ensures XorAll(XorAll(a, t), t) == a
  {
    forall k | 0 <= k < 16 ensures XorAll(XorAll(a, t), t)[k] == a[k] {
      XorTwice(a[k], t[k]);
    }
  }

  lemma OneBlockUndone(E: Cipher, D: Cipher, t: Block, x: Block)
    requires Undoes(D, E)
    ensures OneBlock(D, t, OneBlock(E, t, x)) == x
  {
    XorAllTwice(Apply(E, XorAll(x, t)), t);
    XorAllTwice(x, t);
    hide XorAll, Apply;
  }

  lemma LastBlock(c: seq<Byte>, n: nat, before: seq<Byte>, last: Block)
    requires n > 0 && 16 * n <= |c| && |before| == 16 * (n - 1) && c[..16 * n] == before + last
    ensures c[..16 * (n - 1)] == before && BlockOf(c, n - 1) == last
  {
    assert c[..16 * (n - 1)] == c[..16 * n][..16 * (n - 1)];
    assert BlockOf(c, n - 1) == c[..16 * n][16 * (n - 1)..];
  }

  lemma NextBlock(p: seq<Byte>, n: nat)
    requires n > 0 && 16 * n <= |p|
    ensures p[..16 * n] == p[..16 * (n - 1)] + BlockOf(p, n - 1)
  {
  }

  lemma {:induction false} BlocksUndone(E: Cipher, D: Cipher, t0: Block, p: seq<Byte>, c: seq<Byte>, n: nat)
    requires Undoes(D, E)
    requires 16 * n <= |p| && 16 * n <= |c| && c[..16 * n] == Blocks(E, t0, p, n)
    ensures Blocks(D, t0, c, n) == p[..16 * n]
  {
    if n > 0 {
      hide OneBlock, Tweak, Undoes, BlockOf;
      LastBlock(c, n, Blocks(E, t0, p, n - 1), OneBlock(E, Tweak(t0, n - 1), BlockOf(p, n - 1)));
      BlocksUndone(E, D, t0, p, c, n - 1);
      OneBlockUndone(E, D, Tweak(t0, n - 1), BlockOf(p, n - 1));
      NextBlock(p, n);
    }
  }

  // For every data unit, whatever its tweak, and any cipher with an inverse.
  lemma DecryptedEncrypted(E: Cipher, D: Cipher, t0: Block, p: seq<Byte>)
    requires Undoes(D, E) && |p| >= 16
    ensures Decrypted(D, t0, Encrypted(E, t0, p)) == p
  {
    var m, b := |p| / 16, |p| % 16;
    var c := Encrypted(E, t0, p);
    if b == 0 {
      assert c[..16 * m] == c && p[..16 * m] == p;
      BlocksUndone(E, D, t0, p, c, m);
    } else {
      StealingUndone(E, D, t0, p, m, b);
    }
  }

  lemma StealingUndone(E: Cipher, D: Cipher, t0: Block, p: seq<Byte>, m: nat, b: nat)
    requires Undoes(D, E) && |p| == 16 * m + b && m > 0 && 0 < b < 16
    ensures Decrypted(D, t0, Encrypted(E, t0, p)) == p
  {
    hide OneBlock, Tweak, Undoes, Blocks;
    var c := Encrypted(E, t0, p);
    assert |p| / 16 == m && |p| % 16 == b;
    var head := Blocks(E, t0, p, m - 1);
    var last := OneBlock(E, Tweak(t0, m - 1), BlockOf(p, m - 1));
    var borrowed: Block := p[16 * m..] + last[b..];
    var stolen := OneBlock(E, Tweak(t0, m), borrowed);
    assert c == head + stolen + last[..b];
    assert c[..16 * (m - 1)] == head && BlockOf(c, m - 1) == stolen && c[16 * m..] == last[..b];
    BlocksUndone(E, D, t0, p, c, m - 1);
    OneBlockUndone(E, D, Tweak(t0, m), borrowed);
    assert borrowed[b..] == last[b..] && borrowed[..b] == p[16 * m..];
    assert last[..b] + last[b..] == last;
    OneBlockUndone(E, D, Tweak(t0, m - 1), BlockOf(p, m - 1));
    assert p == p[..16 * (m - 1)] + BlockOf(p, m - 1) + p[16 * m..];
  }

  // ---------------------------------------------------------------- what the result is, block by block

  function Outcome(mode: Mode, X: Cipher, t0: Block, input: seq<Byte>): (r: seq<Byte>)
    requires |input| >= 16
    ensures |r| == |input|
  {
    if mode == Encrypt then Encrypted(X, t0, input) else Decrypted(X, t0, input)
  }

  // The cipher text of the last whole block.
  function LastWhole(mode: Mode, X: Cipher, t0: Block, input: seq<Byte>): Block
    requires |input| >= 16
  {
    var m := |input| / 16;
    OneBlock(X, Tweak(t0, if mode == Decrypt && |input| % 16 > 0 then m else m - 1), BlockOf(input, m - 1))
  }

  // The input as in-place work finds it: when it comes to the last partial block, the head of the last
  // whole one's cipher text has taken its place.
  function InPlace(mode: Mode, X: Cipher, t0: Block, input: seq<Byte>): (r: seq<Byte>)
    requires |input| >= 16
    ensures |r| == |input|
  {
    input[..|input| / 16 * 16] + LastWhole(mode, X, t0, input)[..|input| % 16]
  }

  // IEEE Std 1619, section 5.3.1: masked with its tweak on both sides, a block is what the cipher makes
  // of it.
  ghost predicate Masks(X: Cipher, t: Block, x: Block, y: Block) {
    XorAll(y, t) == Apply(X, XorAll(x, t))
  }

  // Each tweak is the one before times x.
  ghost predicate TweakChain(ts: seq<Block>, t0: Block, n: nat) {
    |ts| == n + 1 && ts[0] == t0 && forall j :: 0 <= j < n ==> ts[j + 1] == MulX(ts[j])
  }

  // Every whole block but the last of a text that is not whole goes under its own tweak.  There, the
  // block last is made under one of two tweaks, the next to last in encryption; its head ends the
  // result, and the rest of the text with its tail is put under the other.
  ghost predicate PartsOf(mode: Mode, X: Cipher, ts: seq<Block>, input: seq<Byte>, out: seq<Byte>, last: Block)
    requires |out| == |input| >= 16 && |ts| == |input| / 16 + 1
  {
    var m, b := |input| / 16, |input| % 16;
    var first, second := if mode == Encrypt then ts[m - 1] else ts[m], if mode == Encrypt then ts[m] else ts[m - 1];
    && (forall j :: 0 <= j < (if b == 0 then m else m - 1) ==> Masks(X, ts[j], BlockOf(input, j), BlockOf(out, j)))
    && (b > 0 ==>
          && Masks(X, first, BlockOf(input, m - 1), last)
          && Masks(X, second, input[16 * m..] + last[b..], BlockOf(out, m - 1))
          && out[16 * m..] == last[..b])
  }

  ghost predicate IsXts(mode: Mode, X: Cipher, t0: Block, input: seq<Byte>, out: seq<Byte>) {
    |out| == |input| >= 16
    && exists ts: seq<Block>, last: Block :: TweakChain(ts, t0, |input| / 16) && PartsOf(mode, X, ts, input, out, last)
  }

  lemma OneBlockMasks(X: Cipher, t: Block, x: Block)
    ensures Masks(X, t, x, OneBlock(X, t, x))
  {
    hide XorAll, Apply;
    XorAllTwice(Apply(X, XorAll(x, t)), t);
  }

  lemma MasksOne(X: Cipher, t: Block, x: Block, y: Block, z: Block)
    requires Masks(X, t, x, y) && Masks(X, t, x, z)
    ensures y == z
  {
    hide Apply;
    XorAllTwice(y, t);
    XorAllTwice(z, t);
    hide XorAll;
  }

  function Tweaks(t0: Block, n: nat): (ts: seq<Block>)
    ensures |ts| == n + 1
  {
    seq(n + 1, j requires 0 <= j <= n => Tweak(t0, j))
  }

  lemma TweaksChain(t0: Block, n: nat)
    ensures TweakChain(Tweaks(t0, n), t0, n)
  {
    hide MulX;
  }

  lemma {:induction false} OneChain(ts: seq<Block>, us: seq<Block>, t0: Block, n: nat, j: nat)
    requires TweakChain(ts, t0, n) && TweakChain(us, t0, n) && j <= n
    ensures ts[j] == us[j]
  {
    hide MulX;
    if j > 0 {
      OneChain(ts, us, t0, n, j - 1);
    }
  }

  lemma {:induction false} BlocksAt(X: Cipher, t0: Block, s: seq<Byte>, n: nat, j: nat)
    requires j < n && 16 * n <= |s|
    ensures BlockOf(Blocks(X, t0, s, n), j) == OneBlock(X, Tweak(t0, j), BlockOf(s, j))
  {
    hide OneBlock, Tweak;
    var before, last := Blocks(X, t0, s, n - 1), OneBlock(X, Tweak(t0, n - 1), BlockOf(s, n - 1));
    assert Blocks(X, t0, s, n) == before + last;
    if j < n - 1 {
      BlocksAt(X, t0, s, n - 1, j);
      assert BlockOf(before + last, j) == BlockOf(before, j);
    } else {
      assert BlockOf(before + last, j) == last;
    }
  }

  lemma HeadBlock(head: seq<Byte>, rest: seq<Byte>, j: nat)
    requires 16 * j + 16 <= |head|
    ensures BlockOf(head + rest, j) == BlockOf(head, j)
  {
  }

  lemma StolenParts(head: seq<Byte>, made: Block, tail: seq<Byte>, m: nat)
    requires m > 0 && |head| == 16 * (m - 1)
    ensures BlockOf(head + made + tail, m - 1) == made && (head + made + tail)[16 * m..] == tail
  {
  }

  // The outcome of either direction has these parts.
  lemma OutcomeParts(mode: Mode, X: Cipher, t0: Block, input: seq<Byte>) returns (last: Block)
    requires |input| >= 16
    ensures PartsOf(mode, X, Tweaks(t0, |input| / 16), input, Outcome(mode, X, t0, input), last)
  {
    var m, b := |input| / 16, |input| % 16;
    last := t0;
    if b == 0 {
      WholeParts(mode, X, t0, input, m, last);
    } else {
      last := LastWhole(mode, X, t0, input);
      StealingParts(mode, X, t0, input, m, b, last);
    }
  }

  lemma WholeParts(mode: Mode, X: Cipher, t0: Block, input: seq<Byte>, m: nat, last: Block)
    requires |input| == 16 * m && m > 0
    ensures PartsOf(mode, X, Tweaks(t0, m), input, Outcome(mode, X, t0, input), last)
  {
    hide OneBlock, Tweak, Blocks, Masks, BlockOf;
    assert |input| / 16 == m && |input| % 16 == 0;
    forall j: nat | j < m ensures Masks(X, Tweak(t0, j), BlockOf(input, j), BlockOf(Blocks(X, t0, input, m), j)) {
      BlocksAt(X, t0, input, m, j);
      OneBlockMasks(X, Tweak(t0, j), BlockOf(input, j));
    }
  }

  lemma StealingParts(mode: Mode, X: Cipher, t0: Block, input: seq<Byte>, m: nat, b: nat, last: Block)
    requires |input| == 16 * m + b && m > 0 && 0 < b < 16 && last == LastWhole(mode, X, t0, input)
    ensures PartsOf(mode, X, Tweaks(t0, m), input, Outcome(mode, X, t0, input), last)
  {
    hide OneBlock, Tweak, Blocks, Masks, BlockOf;
    assert |input| / 16 == m && |input| % 16 == b;
    var head := Blocks(X, t0, input, m - 1);
    var borrowed: Block := input[16 * m..] + last[b..];
    var first, second := Tweak(t0, if mode == Encrypt then m - 1 else m), Tweak(t0, if mode == Encrypt then m else m - 1);
    var made := OneBlock(X, second, borrowed);
    var out := Outcome(mode, X, t0, input);
    assert last == OneBlock(X, first, BlockOf(input, m - 1));
    assert out == head + made + last[..b];
    StolenParts(head, made, last[..b], m);
    OneBlockMasks(X, first, BlockOf(input, m - 1));
    OneBlockMasks(X, second, borrowed);
    forall j: nat | j < m - 1 ensures Masks(X, Tweak(t0, j), BlockOf(input, j), BlockOf(out, j)) {
      BlocksAt(X, t0, input, m - 1, j);
      HeadBlock(head, made + last[..b], j);
      assert head + made + last[..b] == head + (made + last[..b]);
      OneBlockMasks(X, Tweak(t0, j), BlockOf(input, j));
    }
  }

  lemma OutcomeIsXts(mode: Mode, X: Cipher, t0: Block, input: seq<Byte>)
    requires |input| >= 16
    ensures IsXts(mode, X, t0, input, Outcome(mode, X, t0, input))
  {
    var last := OutcomeParts(mode, X, t0, input);
    TweaksChain(t0, |input| / 16);
    hide PartsOf, TweakChain, Tweaks, Outcome;
  }

  // What memory holds after the source's work is such a result, and no other: of the input, or in
  // place of the input as it is found there.
  lemma MemoryIsXts(mode: Mode, X: Cipher, t0: Block, was: seq<Byte>, now: seq<Byte>, dst: nat, input: seq<Byte>)
    requires |input| >= 16 && dst + |input| <= |was| && now == Replaced(was, dst, Outcome(mode, X, t0, input))
    ensures |now| == |was| && IsXts(mode, X, t0, input, now[dst..dst + |input|])
  {
    OutcomeIsXts(mode, X, t0, input);
    var out := Outcome(mode, X, t0, input);
    hide Outcome, IsXts;
    assert now[dst..dst + |input|] == out;
  }

  lemma OneXts(mode: Mode, X: Cipher, t0: Block, input: seq<Byte>, out: seq<Byte>)
    requires IsXts(mode, X, t0, input, out)
    ensures out == Outcome(mode, X, t0, input)
  {
    OutcomeIsXts(mode, X, t0, input);
    var other := Outcome(mode, X, t0, input);
    var n := |input| / 16;
    var ts: seq<Block>, last: Block :| TweakChain(ts, t0, n) && PartsOf(mode, X, ts, input, out, last);
    var us: seq<Block>, last': Block :| TweakChain(us, t0, n) && PartsOf(mode, X, us, input, other, last');
    hide PartsOf, TweakChain, Outcome;
    SameChain(ts, us, t0, n);
    SameParts(mode, X, ts, input, out, last, other, last');
  }

  lemma SameChain(ts: seq<Block>, us: seq<Block>, t0: Block, n: nat)
    requires TweakChain(ts, t0, n) && TweakChain(us, t0, n)
    ensures ts == us
  {
    hide MulX;
    forall j: nat | j <= n ensures ts[j] == us[j] {
      OneChain(ts, us, t0, n, j);
    }
  }

  lemma SameParts(mode: Mode, X: Cipher, ts: seq<Block>, input: seq<Byte>, out: seq<Byte>, last: Block, out': seq<Byte>, last': Block)
    requires |out| == |input| == |out'| >= 16 && |ts| == |input| / 16 + 1
    requires PartsOf(mode, X, ts, input, out, last) && PartsOf(mode, X, ts, input, out', last')
    ensures out == out'
  {
    hide Masks, BlockOf;
    var m, b := |input| / 16, |input| % 16;
    var first, second := if mode == Encrypt then ts[m - 1] else ts[m], if mode == Encrypt then ts[m] else ts[m - 1];
    forall j: nat | j < (if b == 0 then m else m - 1) ensures BlockOf(out, j) == BlockOf(out', j) {
      MasksOne(X, ts[j], BlockOf(input, j), BlockOf(out, j), BlockOf(out', j));
    }
    if b > 0 {
      MasksOne(X, first, BlockOf(input, m - 1), last, last');
      MasksOne(X, second, input[16 * m..] + last[b..], BlockOf(out, m - 1), BlockOf(out', m - 1));
    }
    SameBlocksSame(out, out', m);
    assert out == out[..16 * m] + out[16 * m..] && out' == out'[..16 * m] + out'[16 * m..];
  }

  lemma {:induction false} SameBlocksSame(s: seq<Byte>, u: seq<Byte>, n: nat)
    requires |s| == |u| && 16 * n <= |s| && forall j: nat :: j < n ==> BlockOf(s, j) == BlockOf(u, j)
    ensures s[..16 * n] == u[..16 * n]
  {
    if n > 0 {
      SameBlocksSame(s, u, n - 1);
      assert s[..16 * n] == s[..16 * (n - 1)] + BlockOf(s, n - 1);
      assert u[..16 * n] == u[..16 * (n - 1)] + BlockOf(u, n - 1);
    }
  }

  // ---------------------------------------------------------------- the work in memory

  method Masked(x: Block, t: Block) returns (r: Block)
    ensures r == XorAll(x, t)
  {
    r := x;
    for i := 0 to 16
      invariant forall k :: 0 <= k < 16 ==> r[k] == if k < i then Xor(x[k], t[k]) else x[k]
    {
      r := r[i := Xor(r[i], t[i])];
    }
  }

  method CryptBlock(X: Cipher, t: Block, x: Block) returns (failed: bool, y: Block)
    ensures !failed ==> y == OneBlock(X, t, x)
  {
    var tmp := Masked(x, t);
    failed, tmp := Encipher(X, tmp);
    y := Masked(tmp, t);
  }

  method CryptBlockAt(X: Cipher, mem: array<Byte>, at: nat, from: nat, t: Block) returns (failed: bool)
    requires at + 16 <= mem.Length && from + 16 <= mem.Length
    modifies mem
    ensures failed ==> mem[..] == old(mem[..])
    ensures !failed ==> mem[..] == Replaced(old(mem[..]), at, OneBlock(X, t, old(mem[..])[from..from + 16]))
  {
    hide OneBlock, Replaced;
    var y;
    failed, y := CryptBlock(X, t, mem[from..from + 16]);
    if !failed {
      PutBytes(mem, at, y);
    }
  }

  // A data unit at work: where it lies and what was there when the work began.  No byte is overwritten
  // before it is read.
  datatype Job = Job(X: Cipher, t0: Block, was: seq<Byte>, dst: nat, src: nat, blocks: nat, leftover: nat, swap: bool) {
    function Length(): nat {
      16 * blocks + leftover
    }

    // Where block number n is written and read.
    function At(n: nat): nat {
      dst + 16 * n
    }

    function From(n: nat): nat {
      src + 16 * n
    }

    ghost predicate Valid() {
      && dst + Length() <= |was| && src + Length() <= |was| && blocks > 0 && leftover < 16
      && (dst <= src || src + Length() <= dst)
    }

    ghost function Input(): (r: seq<Byte>)
      requires Valid()
      ensures |r| == Length()
    {
      was[src..src + Length()]
    }

    // A decryption that will steal works on its last whole block with the tweak after the due one.
    predicate Swapped(n: nat) {
      swap && n == blocks
    }

    ghost function Worked(n: nat): Block
      requires Valid() && n < blocks
    {
      OneBlock(X, Used(n), BlockOf(Input(), n))
    }

    function Used(n: nat): Block {
      Tweak(t0, if Swapped(n + 1) then n + 1 else n)
    }

    // The output of the main loop after n blocks.
    ghost function Done(n: nat): (r: seq<Byte>)
      requires Valid() && n <= blocks
      ensures |r| == 16 * n
    {
      if n == 0 then [] else Done(n - 1) + Worked(n - 1)
    }

    ghost predicate State(n: nat, mem: seq<Byte>, tweak: Block, saved: Block) {
      && Valid() && n <= blocks
      && |mem| == |was| && mem == Replaced(was, dst, Done(n))
      && (if Swapped(n) then saved == Tweak(t0, n - 1) else tweak == Tweak(t0, n))
    }
  }

  lemma StateAtStart(job: Job)
    requires job.Valid()
    ensures job.State(0, job.was, job.t0, job.t0)
  {
    assert Replaced(job.was, job.dst, []) == job.was;
  }

  // The next piece of input is still as it was.
  lemma InputPiece(job: Job, done: seq<Byte>, len: nat)
    requires job.Valid() && |done| + len <= job.Length()
    ensures |Replaced(job.was, job.dst, done)| == |job.was|
    ensures Replaced(job.was, job.dst, done)[job.src + |done|..job.src + |done| + len] == job.Input()[|done|..|done| + len]
  {
    hide Replaced;
    var at := job.src + |done|;
    Elsewhere(job.was, job.dst, done, at, len);
    SliceOfSlice(job.was, job.src, job.Length(), |done|, |done| + len);
    assert job.src + (|done| + len) == at + len;
    assert job.Input()[|done|..|done| + len] == job.was[at..at + len];
    assert Replaced(job.was, job.dst, done)[at..at + len] == job.was[at..at + len];
  }

  lemma TurnReads(job: Job, n: nat, mem: seq<Byte>, tweak: Block, saved: Block)
    requires job.State(n, mem, tweak, saved) && n < job.blocks
    ensures job.From(n) + 16 <= |mem| && job.At(n) + 16 <= |mem|
    ensures mem[job.From(n)..job.From(n) + 16] == BlockOf(job.Input(), n)
  {
    InputPiece(job, job.Done(n), 16);
    hide Job.Done, Job.Input;
    hide Replaced, Tweak;
  }

  lemma TurnTweaks(job: Job, n: nat, mem: seq<Byte>, tweak: Block, saved: Block)
    requires job.State(n, mem, tweak, saved) && n < job.blocks
    ensures tweak == Tweak(job.t0, n) && Tweak(job.t0, n + 1) == MulX(tweak)
    ensures job.Used(n) == if job.Swapped(n + 1) then MulX(tweak) else tweak
  {
    hide Job.Done, Job.Input;
    hide Replaced, MulX;
  }

  lemma TurnWrites(job: Job, n: nat, mem: seq<Byte>, tweak: Block, saved: Block, mem': seq<Byte>, tweak': Block, saved': Block)
    requires job.State(n, mem, tweak, saved) && n < job.blocks
    requires job.At(n) + 16 <= |mem| && mem' == Replaced(mem, job.At(n), job.Worked(n))
    requires if job.Swapped(n + 1) then saved' == Tweak(job.t0, n) else tweak' == Tweak(job.t0, n + 1)
    ensures job.State(n + 1, mem', tweak', saved')
  {
    hide OneBlock, Tweak, Replaced, BlockOf;
    hide Job.Input, Job.Worked;
    ReplacedNext(job.was, job.dst, job.Done(n), job.Worked(n));
  }

  lemma TurnWorks(job: Job, n: nat, mem: seq<Byte>, tweak: Block, saved: Block)
    requires job.State(n, mem, tweak, saved) && n < job.blocks
    ensures job.Valid() && 16 * n + 16 <= |job.Input()|
    ensures job.Worked(n) == OneBlock(job.X, job.Used(n), BlockOf(job.Input(), n))
  {
    hide Replaced, OneBlock;
    hide Job.Used, Job.Done;
  }

  method MainTurn(X: Cipher, mem: array<Byte>, at: nat, from: nat, tweak: Block, saved: Block, last: bool,
                  ghost job: Job, ghost n: nat)
    returns (failed: bool, tweak': Block, saved': Block)
    requires job.State(n, mem[..], tweak, saved) && n < job.blocks && job.X == X
    requires at == job.At(n) && from == job.From(n) && last == job.Swapped(n + 1)
    modifies mem
    ensures failed ==> mem[..] == old(mem[..])
    ensures !failed ==> job.State(n + 1, mem[..], tweak', saved')
  {
    hide *;
    hide Job.State, Job.Swapped, Job.Used, Job.Input, Job.At, Job.From, Job.Worked, Job.Valid;
    TurnWorks(job, n, mem[..], tweak, saved);
    ghost var mem0 := mem[..];
    TurnReads(job, n, mem[..], tweak, saved);
    TurnTweaks(job, n, mem[..], tweak, saved);
    tweak', saved' := tweak, saved;
    if last {
      saved' := tweak;
      tweak' := MultiplyByX(tweak);
    }
    failed := CryptBlockAt(X, mem, at, from, tweak');
    if failed {
      return;
    }
    tweak' := MultiplyByX(tweak');
    TurnWrites(job, n, mem0, tweak, saved, mem[..], tweak', saved');
  }

  // The bytes found at from once those before at have been copied to at.
  function LastBytes(mem: seq<Byte>, at: nat, from: nat, b: nat): (r: seq<Byte>)
    requires 16 <= at && b < 16 && at + b <= |mem| && from + b <= |mem|
    ensures |r| == b
  {
    if at == from then mem[at - 16..at - 16 + b] else mem[from..from + b]
  }

  // The head of the block before at is copied to at, and the input at from and the block's tail are
  // put together under a tweak.
  method Borrow(mem: array<Byte>, at: nat, from: nat, b: nat, t: Block) returns (tmp: Block)
    requires 16 <= at && 0 < b < 16 && at + b <= mem.Length && from + b <= mem.Length
    requires at <= from || from + b <= at - 16
    modifies mem
    ensures tmp == XorAll(LastBytes(old(mem[..]), at, from, b) + old(mem[..])[at - 16 + b..at], t)
    ensures mem[..] == Replaced(old(mem[..]), at, old(mem[..])[at - 16..at - 16 + b])
  {
    ghost var was := mem[..];
    ghost var head, tail := LastBytes(was, at, from, b), was[at - 16 + b..at];
    tmp := t;
    for i := 0 to b
      invariant forall p :: at <= p < at + i ==> mem[p] == was[p - 16]
      invariant forall p :: 0 <= p < mem.Length && !(at <= p < at + i) ==> mem[p] == was[p]
      invariant forall k :: 0 <= k < i ==> tmp[k] == Xor(head[k], t[k])
    {
      mem[at + i] := mem[at - 16 + i];
      tmp := tmp[i := Xor(mem[from + i], t[i])];
    }
    for i := b to 16
      invariant forall k :: 0 <= k < b ==> tmp[k] == Xor(head[k], t[k])
      invariant forall k :: b <= k < i ==> tmp[k] == Xor(was[at - 16 + k], t[k])
    {
      tmp := tmp[i := Xor(mem[at - 16 + i], t[i])];
    }
    Together(tmp, head, tail, t, b);
    CopiedHead(was, mem[..], at, b);
  }

  lemma Together(tmp: Block, head: seq<Byte>, tail: seq<Byte>, t: Block, b: nat)
    requires 0 < b < 16 && |head| == b && |tail| == 16 - b
    requires forall k :: 0 <= k < b ==> tmp[k] == Xor(head[k], t[k])
    requires forall k :: b <= k < 16 ==> tmp[k] == Xor(tail[k - b], t[k])
    ensures tmp == XorAll(head + tail, t)
  {
    var r := XorAll(head + tail, t);
    forall k | 0 <= k < 16 ensures tmp[k] == r[k] {
      assert k >= b ==> (head + tail)[k] == tail[k - b];
    }
  }

  lemma CopiedHead(was: seq<Byte>, now: seq<Byte>, at: nat, b: nat)
    requires 16 <= at && b < 16 && at + b <= |was| == |now|
    requires forall p :: at <= p < at + b ==> now[p] == was[p - 16]
    requires forall p :: 0 <= p < |was| && !(at <= p < at + b) ==> now[p] == was[p]
    ensures now == Replaced(was, at, was[at - 16..at - 16 + b])
  {
    var r := Replaced(was, at, was[at - 16..at - 16 + b]);
    forall p | 0 <= p < |was| ensures now[p] == r[p] {
    }
  }

  // The block before at was made anew from the bytes at from and its own tail; its head went to at.
  ghost predicate Stolen(X: Cipher, mem: seq<Byte>, mem': seq<Byte>, at: nat, from: nat, b: nat, t: Block) {
    && 16 <= at && 0 < b < 16 && at + b <= |mem| && from + b <= |mem|
    && mem' == Replaced(mem, at - 16, OneBlock(X, t, LastBytes(mem, at, from, b) + mem[at - 16 + b..at]) + mem[at - 16..at - 16 + b])
  }

  // The stolen bytes and the restored block are written one behind the other.
  method Steal(X: Cipher, mem: array<Byte>, at: nat, from: nat, b: nat, t: Block) returns (failed: bool)
    requires 16 <= at && 0 < b < 16 && at + b <= mem.Length && from + b <= mem.Length
    requires at <= from || from + b <= at - 16
    modifies mem
    ensures !failed ==> Stolen(X, old(mem[..]), mem[..], at, from, b, t)
    ensures OnlyInside(old(mem[..]), mem[..], at - 16, at + b)
  {
    hide Replaced, OnlyInside, LastBytes;
    ghost var was := mem[..];
    ghost var head := was[at - 16..at - 16 + b];
    var tmp := Borrow(mem, at, from, b, t);
    ReplacedInside(was, at, head, at - 16, at + b);
    failed, tmp := Encipher(X, tmp);
    if failed {
      return;
    }
    var y := Masked(tmp, t);
    PutBytes(mem, at - 16, y);
    ReplacedBefore(was, at - 16, y, head);
    ReplacedInside(was, at - 16, y + head, at - 16, at + b);
  }

  lemma LastInMemory(was: seq<Byte>, dst: nat, head: seq<Byte>, last: Block)
    requires dst + |head| + 16 <= |was|
    ensures var mem := Replaced(was, dst, head + last); var at := dst + |head|;
            |mem| == |was| && mem[at..at + 16] == last
  {
  }

  lemma LastReplaced(was: seq<Byte>, dst: nat, head: seq<Byte>, last: Block, bytes: seq<Byte>)
    requires dst + |head| + |bytes| <= |was| && |bytes| >= 16
    ensures dst + |head| + 16 <= |was| && |Replaced(was, dst, head + last)| == |was|
    ensures Replaced(Replaced(was, dst, head + last), dst + |head|, bytes) == Replaced(was, dst, head + bytes)
  {
  }

  lemma Halves(mem: seq<Byte>, at: nat, last: Block, b: nat)
    requires 16 <= at <= |mem| && b < 16 && mem[at - 16..at] == last
    ensures mem[at - 16 + b..at] == last[b..] && mem[at - 16..at - 16 + b] == last[..b]
  {
    assert mem[at - 16 + b..at] == mem[at - 16..at][b..];
    assert mem[at - 16..at - 16 + b] == mem[at - 16..at][..b];
  }

  // The input that does not fill a block, as it is found: output in place has overwritten it.
  ghost function Rest(job: Job): (r: seq<Byte>)
    requires job.Valid()
    ensures |r| == job.leftover
  {
    if job.dst == job.src then job.Worked(job.blocks - 1)[..job.leftover] else job.Input()[16 * job.blocks..]
  }

  // The whole input as it is found.
  ghost function Found(job: Job): (r: seq<Byte>)
    requires job.Valid()
    ensures |r| == job.Length()
  {
    job.Input()[..16 * job.blocks] + Rest(job)
  }

  // Stealing, seen from the whole data unit.
  lemma StealDone(job: Job, head: seq<Byte>, last: Block, mem: seq<Byte>, t: Block, mem': seq<Byte>)
    requires job.Valid() && job.leftover > 0
    requires job.dst + |head| + 16 == job.At(job.blocks) && mem == Replaced(job.was, job.dst, head + last)
    requires last == job.Worked(job.blocks - 1)
    requires Stolen(job.X, mem, mem', job.At(job.blocks), job.From(job.blocks), job.leftover, t)
    ensures |Rest(job) + last[job.leftover..]| == 16
    ensures mem' == Replaced(job.was, job.dst, head + OneBlock(job.X, t, Rest(job) + last[job.leftover..]) + last[..job.leftover])
  {
    hide OneBlock, Replaced;
    hide Job.Input, Job.Worked;
    var at, from, b := job.At(job.blocks), job.From(job.blocks), job.leftover;
    LastInMemory(job.was, job.dst, head, last);
    Halves(mem, at, last, b);
    FoundLast(job, head + last, mem);
    var made := OneBlock(job.X, t, Rest(job) + last[b..]);
    LastReplaced(job.was, job.dst, head, last, made + last[..b]);
    assert head + made + last[..b] == head + (made + last[..b]);
  }

  lemma FoundLast(job: Job, done: seq<Byte>, mem: seq<Byte>)
    requires job.Valid() && job.leftover > 0 && |done| == 16 * job.blocks && mem == Replaced(job.was, job.dst, done)
    requires var at := job.At(job.blocks);
             mem[at - 16..at - 16 + job.leftover] == job.Worked(job.blocks - 1)[..job.leftover]
    ensures LastBytes(mem, job.At(job.blocks), job.From(job.blocks), job.leftover) == Rest(job)
  {
    hide Replaced;
    hide Job.Input, Job.Worked;
    if job.dst != job.src {
      InputPiece(job, done, job.leftover);
      InputEnd(job);
    }
  }

  lemma InputEnd(job: Job)
    requires job.Valid()
    ensures job.Input()[16 * job.blocks..] == job.Input()[16 * job.blocks..16 * job.blocks + job.leftover]
  {
    hide Job.Input;
  }

  // Blocks done without a change of tweaks.
  lemma {:induction false} DoneIsBlocks(job: Job, n: nat)
    requires job.Valid() && n <= job.blocks && (job.swap ==> n < job.blocks)
    ensures job.Done(n) == Blocks(job.X, job.t0, job.Input(), n)
  {
    if n > 0 {
      DoneIsBlocks(job, n - 1);
    }
  }

  lemma Sizes(job: Job)
    requires job.Valid()
    ensures |job.Input()| / 16 == job.blocks && |job.Input()| % 16 == job.leftover && |job.Input()| >= 16
  {
    hide Job.Input;
  }

  lemma WholeBlocksDone(job: Job, mode: Mode, mem: seq<Byte>, tweak: Block, saved: Block)
    requires job.State(job.blocks, mem, tweak, saved) && job.leftover == 0 && !job.swap
    ensures |Found(job)| >= 16 && mem == Replaced(job.was, job.dst, Outcome(mode, job.X, job.t0, Found(job)))
  {
    DoneIsBlocks(job, job.blocks);
    Sizes(job);
    NothingLost(job);
    hide Replaced, OneBlock, Tweak;
    hide Job.Input, Job.Done;
  }

  lemma NothingLost(job: Job)
    requires job.Valid() && (job.leftover == 0 || job.dst != job.src)
    ensures Found(job) == job.Input()
  {
    hide Job.Input, Job.Worked;
    assert job.Input()[..16 * job.blocks] + job.Input()[16 * job.blocks..] == job.Input();
    if job.leftover == 0 {
      assert Rest(job) == [] && job.Input()[..16 * job.blocks] == job.Input();
    }
  }

  // Blocks depend on the text only as far as they go.
  lemma {:induction false} SameBlocks(E: Cipher, t0: Block, s: seq<Byte>, u: seq<Byte>, n: nat)
    requires 16 * n <= |s| && 16 * n <= |u| && s[..16 * n] == u[..16 * n]
    ensures Blocks(E, t0, s, n) == Blocks(E, t0, u, n)
  {
    if n > 0 {
      assert s[..16 * (n - 1)] == s[..16 * n][..16 * (n - 1)] && u[..16 * (n - 1)] == u[..16 * n][..16 * (n - 1)];
      assert BlockOf(s, n - 1) == s[..16 * n][16 * (n - 1)..] && BlockOf(u, n - 1) == u[..16 * n][16 * (n - 1)..];
      hide OneBlock, Tweak;
      SameBlocks(E, t0, s, u, n - 1);
    }
  }

  lemma FoundBlocks(job: Job)
    requires job.Valid()
    ensures |Found(job)| / 16 == job.blocks && |Found(job)| % 16 == job.leftover && |Found(job)| >= 16
    ensures Found(job)[16 * job.blocks..] == Rest(job)
    ensures BlockOf(Found(job), job.blocks - 1) == BlockOf(job.Input(), job.blocks - 1)
    ensures Blocks(job.X, job.t0, Found(job), job.blocks - 1) == Blocks(job.X, job.t0, job.Input(), job.blocks - 1)
  {
    hide Rest, Blocks;
    hide Job.Input;
    var f, m := Found(job), job.blocks;
    assert f[..16 * m] == job.Input()[..16 * m];
    assert f[..16 * (m - 1)] == f[..16 * m][..16 * (m - 1)];
    assert job.Input()[..16 * (m - 1)] == job.Input()[..16 * m][..16 * (m - 1)];
    assert BlockOf(f, m - 1) == f[..16 * m][16 * (m - 1)..];
    assert BlockOf(job.Input(), m - 1) == job.Input()[..16 * m][16 * (m - 1)..];
    SameBlocks(job.X, job.t0, f, job.Input(), m - 1);
  }

  lemma EncryptedParts(E: Cipher, t0: Block, p: seq<Byte>, m: nat, b: nat, head: seq<Byte>, last: Block, rest: seq<Byte>)
    requires |p| == 16 * m + b && |p| / 16 == m && |p| % 16 == b && m > 0 && b > 0
    requires head == Blocks(E, t0, p, m - 1) && last == OneBlock(E, Tweak(t0, m - 1), BlockOf(p, m - 1))
    requires rest == p[16 * m..]
    ensures |rest + last[b..]| == 16 && |p| >= 16
    ensures Encrypted(E, t0, p) == head + OneBlock(E, Tweak(t0, m), rest + last[b..]) + last[..b]
  {
    hide OneBlock, Tweak, BlockOf, Blocks;
  }

  lemma DecryptedParts(D: Cipher, t0: Block, c: seq<Byte>, m: nat, b: nat, head: seq<Byte>, last: Block, rest: seq<Byte>)
    requires |c| == 16 * m + b && |c| / 16 == m && |c| % 16 == b && m > 0 && b > 0
    requires head == Blocks(D, t0, c, m - 1) && last == OneBlock(D, Tweak(t0, m), BlockOf(c, m - 1))
    requires rest == c[16 * m..]
    ensures |rest + last[b..]| == 16 && |c| >= 16
    ensures Decrypted(D, t0, c) == head + OneBlock(D, Tweak(t0, m - 1), rest + last[b..]) + last[..b]
  {
    hide OneBlock, Tweak, BlockOf, Blocks;
  }

  lemma OutcomeOf(job: Job, mode: Mode)
    requires job.Valid() && job.leftover > 0 && job.swap == (mode == Decrypt)
    ensures |Found(job)| >= 16
    ensures var m, b := job.blocks, job.leftover; var last := job.Worked(m - 1);
            && |Rest(job) + last[b..]| == 16
            && Outcome(mode, job.X, job.t0, Found(job))
            == job.Done(m - 1) + OneBlock(job.X, Tweak(job.t0, if mode == Decrypt then m - 1 else m), Rest(job) + last[b..]) + last[..b]
  {
    FoundBlocks(job);
    DoneIsBlocks(job, job.blocks - 1);
    hide OneBlock, Tweak, BlockOf, Blocks, Encrypted, Decrypted, Rest, Found;
    hide Job.Input, Job.Done;
    var m, b := job.blocks, job.leftover;
    if mode == Encrypt {
      EncryptedParts(job.X, job.t0, Found(job), m, b, job.Done(m - 1), job.Worked(m - 1), Rest(job));
    } else {
      DecryptedParts(job.X, job.t0, Found(job), m, b, job.Done(m - 1), job.Worked(m - 1), Rest(job));
    }
  }

  lemma StolenDone(job: Job, mode: Mode, mem: seq<Byte>, tweak: Block, saved: Block, mem': seq<Byte>)
    requires job.State(job.blocks, mem, tweak, saved) && job.leftover > 0 && job.swap == (mode == Decrypt)
    requires Stolen(job.X, mem, mem', job.At(job.blocks), job.From(job.blocks), job.leftover, if mode == Decrypt then saved else tweak)
    ensures |Found(job)| >= 16 && mem' == Replaced(job.was, job.dst, Outcome(mode, job.X, job.t0, Found(job)))
  {
    OutcomeOf(job, mode);
    hide Replaced, OneBlock, Tweak, BlockOf, Blocks, Stolen, Outcome, Rest, Found;
    hide Job.Input, Job.Worked;
    StealDone(job, job.Done(job.blocks - 1), job.Worked(job.blocks - 1), mem, if mode == Decrypt then saved else tweak, mem');
  }

  lemma StateInside(job: Job, n: nat, mem: seq<Byte>, tweak: Block, saved: Block)
    requires job.State(n, mem, tweak, saved)
    ensures |mem| == |job.was| && job.Valid() && OnlyInside(job.was, mem, job.dst, job.dst + job.Length())
  {
    ReplacedInside(job.was, job.dst, job.Done(n), job.dst, job.dst + job.Length());
  }

  // The main loop over whole blocks, counted down as in the source.
  method MainLoop(X: Cipher, mem: array<Byte>, dst: nat, src: nat, blocks: nat, swap: bool, t0: Block, ghost job: Job)
    returns (failed: bool, tweak: Block, saved: Block)
    requires job.State(0, mem[..], t0, t0) && job.X == X && job.blocks == blocks && job.swap == swap
    requires dst == job.At(0) && src == job.From(0)
    modifies mem
    ensures OnlyInside(job.was, mem[..], job.dst, job.dst + job.Length())
    ensures !failed ==> job.State(blocks, mem[..], tweak, saved)
  {
    hide *;
    hide Job.State, Job.Valid, Job.Input, Job.At, Job.From, Job.Swapped, Job.Length;
    failed, tweak, saved := false, t0, t0;
    var at, from, left := dst, src, blocks;
    ghost var n: nat := 0;
    while left > 0
      invariant n + left == blocks
      invariant at == job.At(n) && from == job.From(n)
      invariant job.State(n, mem[..], tweak, saved)
    {
      left := left - 1;
      Places(job, n);
      StateInside(job, n, mem[..], tweak, saved);
      failed, tweak, saved := MainTurn(X, mem, at, from, tweak, saved, swap && left == 0, job, n);
      if failed {
        return;
      }
      at, from, n := at + 16, from + 16, n + 1;
    }
    StateInside(job, n, mem[..], tweak, saved);
  }

  lemma Places(job: Job, n: nat)
    ensures job.At(n + 1) == job.At(n) + 16 && job.From(n + 1) == job.From(n) + 16
    ensures job.Swapped(n + 1) <==> job.swap && n + 1 == job.blocks
  {
  }

  lemma StealingFits(job: Job)
    requires job.Valid()
    ensures var at, from, b := job.At(job.blocks), job.From(job.blocks), job.leftover;
            && 16 <= at && at + b == job.dst + job.Length() <= |job.was| && from + b <= |job.was| && job.dst <= at - 16
            && (b > 0 ==> at <= from || from + b <= at - 16)
  {
  }

  // The last partial block, once the main loop is over.
  method StealLast(X: Cipher, mode: Mode, mem: array<Byte>, at: nat, from: nat, b: nat, tweak: Block, saved: Block,
                   ghost job: Job) returns (failed: bool)
    requires job.State(job.blocks, mem[..], tweak, saved) && job.leftover == b && b > 0
    requires job.swap == (mode == Decrypt) && X == job.X && at == job.At(job.blocks) && from == job.From(job.blocks)
    modifies mem
    ensures OnlyInside(job.was, mem[..], job.dst, job.dst + job.Length())
    ensures !failed ==> job.Valid() && |Found(job)| >= 16
                        && mem[..] == Replaced(job.was, job.dst, Outcome(mode, X, job.t0, Found(job)))
  {
    StateInside(job, job.blocks, mem[..], tweak, saved);
    StealingFits(job);
    assert b < 16;
    hide *;
    hide Job.State, Job.Valid, Job.Input, Job.At, Job.From, Job.Length;
    var t := if mode == Decrypt then saved else tweak;
    ghost var mem0 := mem[..];
    failed := Steal(X, mem, at, from, b, t);
    StillInside(job.was, mem0, mem[..], at - 16, at + b, job.dst, job.dst + job.Length());
    if !failed {
      StolenDone(job, mode, mem0, tweak, saved, mem[..]);
    }
  }

  lemma FoundInput(job: Job, mode: Mode)
    requires job.Valid() && job.swap == (job.leftover > 0 && mode == Decrypt)
    ensures |job.Input()| >= 16
    ensures Found(job) == if job.dst == job.src then InPlace(mode, job.X, job.t0, job.Input()) else job.Input()
  {
    Sizes(job);
    if job.dst != job.src {
      NothingLost(job);
    }
    hide OneBlock, Tweak, BlockOf;
    hide Job.Input;
  }

  // The output is that of the input, or of what in-place work finds of it, and has the parts it should;
  // nothing else has changed.
  ghost predicate Transformed(mode: Mode, X: Cipher, t0: Block, was: seq<Byte>, now: seq<Byte>, dst: nat, src: nat, length: nat)
    requires length >= 16 && dst + length <= |was| && src + length <= |was|
  {
    var input := was[src..src + length];
    var found := if dst == src then InPlace(mode, X, t0, input) else input;
    && now == Replaced(was, dst, Outcome(mode, X, t0, found))
    && IsXts(mode, X, t0, found, now[dst..dst + length])
  }

  lemma JobTransforms(job: Job, mode: Mode, now: seq<Byte>)
    requires job.Valid() && job.swap == (job.leftover > 0 && mode == Decrypt) && |Found(job)| >= 16
    requires now == Replaced(job.was, job.dst, Outcome(mode, job.X, job.t0, Found(job)))
    ensures job.Length() >= 16 && Transformed(mode, job.X, job.t0, job.was, now, job.dst, job.src, job.Length())
  {
    hide Found, InPlace, Outcome, IsXts, Replaced;
    hide Job.Input, Job.Length, Job.Valid;
    JobInput(job);
    FoundInput(job, mode);
    MemoryIsXts(mode, job.X, job.t0, job.was, now, job.dst, Found(job));
  }

  lemma JobInput(job: Job)
    requires job.Valid()
    ensures 16 <= job.Length() && job.dst + job.Length() <= |job.was| && job.src + job.Length() <= |job.was|
    ensures job.Input() == job.was[job.src..job.src + job.Length()] && |Found(job)| == job.Length()
  {
    hide Found;
  }

  // X is the block cipher in the direction of the mode, K the cipher of the tweak key.
  method CryptXts(X: Cipher, K: Cipher, mode: Mode, mem: array<Byte>, dst: nat, src: nat, length: nat, unit: Block)
    returns (r: Result)
    requires dst + length <= mem.Length && src + length <= mem.Length
    requires dst <= src || src + length <= dst
    modifies mem
    ensures r == InvalidLength <==> length < 16 || length > MAX_LENGTH
    ensures r == InvalidLength ==> mem[..] == old(mem[..])
    ensures OnlyInside(old(mem[..]), mem[..], dst, dst + length)
    ensures r == Ok ==> Transformed(mode, X, Apply(K, unit), old(mem[..]), mem[..], dst, src, length)
  {
    NothingChanged(mem[..], dst, dst + length);
    if length < 16 || length > MAX_LENGTH {
      return InvalidLength;
    }
    hide *;
    hide Job.Valid, Job.Input, Job.Length;
    var blocks, leftover := length / 16, length % 16;
    var failed, t0 := Encipher(K, unit);
    if failed {
      NothingChanged(mem[..], dst, dst + length);
      return CipherFailed;
    }
    ghost var job := Job(X, t0, mem[..], dst, src, blocks, leftover, leftover > 0 && mode == Decrypt);
    JobStarts(job, length);
    r := CryptParts(X, mode, mem, dst, src, blocks, leftover, t0, job);
    if r == Ok {
      JobTransforms(job, mode, mem[..]);
    }
  }

  lemma JobStarts(job: Job, length: nat)
    requires length >= 16 && job.blocks == length / 16 && job.leftover == length % 16
    requires job.dst + length <= |job.was| && job.src + length <= |job.was|
    requires job.dst <= job.src || job.src + length <= job.dst
    ensures job.Length() == length && job.Valid()
  {
  }

  // In place, the result is the right one exactly when there is no partial block, or it happens to be
  // the head of the last whole block's cipher text.
  lemma InPlaceIsRight(X: Cipher, Y: Cipher, mode: Mode, t0: Block, input: seq<Byte>)
    requires Undoes(Y, X) && |input| >= 16
    ensures Outcome(mode, X, t0, InPlace(mode, X, t0, input)) == Outcome(mode, X, t0, input)
       <==> input[|input| / 16 * 16..] == LastWhole(mode, X, t0, input)[..|input| % 16]
  {
    var m, b := |input| / 16, |input| % 16;
    var other := InPlace(mode, X, t0, input);
    var last := LastWhole(mode, X, t0, input);
    assert input == input[..16 * m] + input[16 * m..] && other == input[..16 * m] + last[..b];
    assert other[16 * m..] == last[..b];
    if b > 0 {
      OutcomesDiffer(X, Y, mode, t0, input, other, m, b, last);
    } else {
      assert other == input;
    }
  }

  lemma OutcomesDiffer(X: Cipher, Y: Cipher, mode: Mode, t0: Block, p: seq<Byte>, q: seq<Byte>, m: nat, b: nat, last: Block)
    requires Undoes(Y, X) && |p| == |q| == 16 * m + b && m > 0 && 0 < b < 16 && p[..16 * m] == q[..16 * m]
    requires last == LastWhole(mode, X, t0, p)
    ensures Outcome(mode, X, t0, p) == Outcome(mode, X, t0, q) <==> p[16 * m..] == q[16 * m..]
  {
    hide OneBlock, Tweak, Undoes, Blocks;
    assert |p| / 16 == m && |p| % 16 == b;
    assert p[..16 * (m - 1)] == p[..16 * m][..16 * (m - 1)] && q[..16 * (m - 1)] == q[..16 * m][..16 * (m - 1)];
    SameBlocks(X, t0, p, q, m - 1);
    assert BlockOf(p, m - 1) == p[..16 * m][16 * (m - 1)..] && BlockOf(q, m - 1) == q[..16 * m][16 * (m - 1)..];
    var t := Tweak(t0, if mode == Decrypt then m - 1 else m);
    var head := Blocks(X, t0, p, m - 1);
    var x: Block, y: Block := p[16 * m..] + last[b..], q[16 * m..] + last[b..];
    assert Outcome(mode, X, t0, p) == head + OneBlock(X, t, x) + last[..b];
    assert Outcome(mode, X, t0, q) == head + OneBlock(X, t, y) + last[..b];
    MiddleDiffers(head, OneBlock(X, t, x), OneBlock(X, t, y), last[..b]);
    OneBlockUndone(X, Y, t, x);
    OneBlockUndone(X, Y, t, y);
    assert x[..b] == p[16 * m..] && y[..b] == q[16 * m..];
  }

  lemma MiddleDiffers(head: seq<Byte>, u: Block, v: Block, tail: seq<Byte>)
    ensures head + u + tail == head + v + tail <==> u == v
  {
    assert (head + u + tail)[|head|..|head| + 16] == u;
    assert (head + v + tail)[|head|..|head| + 16] == v;
  }

  method CryptParts(X: Cipher, mode: Mode, mem: array<Byte>, dst: nat, src: nat, blocks: nat, leftover: nat, t0: Block,
                    ghost job: Job) returns (r: Result)
    requires job == Job(X, t0, mem[..], dst, src, blocks, leftover, leftover > 0 && mode == Decrypt) && job.Valid()
    modifies mem
    ensures r != InvalidLength
    ensures OnlyInside(job.was, mem[..], dst, dst + job.Length())
    ensures r == Ok ==> |Found(job)| >= 16 && mem[..] == Replaced(job.was, dst, Outcome(mode, X, t0, Found(job)))
  {
    assert job.At(blocks) == dst + 16 * blocks && job.From(blocks) == src + 16 * blocks;
    assert job.At(0) == dst && job.From(0) == src;
    StateAtStart(job);
    hide *;
    hide Job.State, Job.Valid, Job.Input, Job.Length, Job.At, Job.From;
    var failed, tweak, saved := MainLoop(X, mem, dst, src, blocks, leftover > 0 && mode == Decrypt, t0, job);
    if failed {
      return CipherFailed;
    }
    if leftover == 0 {
      WholeBlocksDone(job, mode, mem[..], tweak, saved);
      return Ok;
    }
    failed := StealLast(X, mode, mem, dst + 16 * blocks, src + 16 * blocks, leftover, tweak, saved, job);
    r := if failed then CipherFailed else Ok;
  }
}
