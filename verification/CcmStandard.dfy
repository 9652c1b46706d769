// What the blocks of CCM say, read back from their bytes, and the texts and tags they lead to, as
// SP 800-38C and RFC 3610 put it.
module CcmStandard {
  import opened Numbers
  import opened Bytes
  import opened BlockCipher
  import opened Ccm

  // ---------------------------------------------------------------- the blocks, read back

  // SP 800-38C, section A.2.1: the bits of the flags, the nonce, and the length in the bytes left.
  ghost predicate IsFirst(b: Block, length: nat, iv: seq<Byte>, hasAdd: bool, tagLen: nat) {
    && 7 <= |iv| <= 13
    && b[0] / 128 == 0
    && (b[0] / 64 % 2 == 1 <==> hasAdd)
    && b[0] / 8 % 8 * 2 + 2 == tagLen
    && b[0] % 8 + 1 == 15 - |iv|
    && b[1..1 + |iv|] == iv
    && FromBigEndian(b[1 + |iv|..]) == length
  }

  // Section A.3: only the low three bits of the flags, the nonce, and the counter.
  ghost predicate IsCounter(b: Block, iv: seq<Byte>, i: nat) {
    && 7 <= |iv| <= 13
    && b[0] / 8 == 0 && b[0] % 8 + 1 == 15 - |iv|
    && b[1..1 + |iv|] == iv
    && FromBigEndian(b[1 + |iv|..]) == i
  }

  // Section A.2.2: fewer than 2^16 - 2^8 bytes have their number in two bytes in front, from there up
  // to 2^32 two bytes that tell so and their number in four.
  ghost predicate IsAddString(a: seq<Byte>, add: seq<Byte>) {
    if add == [] then a == []
    else if |add| < 0xFF00 then |a| == 2 + |add| && a[0] as nat * 256 + a[1] == |add| && a[2..] == add
    else |a| == 6 + |add| && a[0] == 0xFF && a[1] == 0xFE && FromBigEndian(a[2..6]) == |add| && a[6..] == add
  }

  lemma BlockBytes(flags: Byte, iv: seq<Byte>, n: nat)
    requires 7 <= |iv| <= 13
    ensures var b: seq<Byte> := [flags] + iv + BigEndian(n, 15 - |iv|);
            |b| == 16 && b[0] == flags && b[1..1 + |iv|] == iv && b[1 + |iv|..] == BigEndian(n, 15 - |iv|)
  {
    hide BigEndian;
  }

  lemma SplitBlock(b: Block, iv: seq<Byte>)
    requires 7 <= |iv| <= 13 && b[1..1 + |iv|] == iv
    ensures b == [b[0]] + iv + BigEndian(FromBigEndian(b[1 + |iv|..]), 15 - |iv|)
  {
    var rest := b[1 + |iv|..];
    BigEndianOf(rest);
    hide BigEndian, FromBigEndian;
    ThreeParts(b, 1 + |iv|);
  }

  lemma ThreeParts(b: seq<Byte>, n: nat)
    requires 1 <= n <= |b|
    ensures b == [b[0]] + b[1..n] + b[n..]
  {
  }

  lemma FlagsRead(hasAdd: bool, tagLen: nat, q: nat)
    requires 2 <= q <= 8 && ValidTag(tagLen) && tagLen > 0
    ensures var f := FirstFlags(hasAdd, tagLen, q);
            f / 128 == 0 && (f / 64 % 2 == 1 <==> hasAdd) && f / 8 % 8 * 2 + 2 == tagLen && f % 8 + 1 == q
  {
  }

  // The first block is the one that says what it should, and there is no other.
  lemma FirstBlockSays(b: Block, length: nat, iv: seq<Byte>, hasAdd: bool, tagLen: nat)
    requires ValidTag(tagLen) && tagLen > 0 && 7 <= |iv| <= 13 && length < Pow(256, LengthBytes(iv))
    ensures IsFirst(b, length, iv, hasAdd, tagLen) <==> b == FirstBlock(length, iv, hasAdd, tagLen)
  {
    var q := LengthBytes(iv);
    FlagsRead(hasAdd, tagLen, q);
    BlockBytes(FirstFlags(hasAdd, tagLen, q), iv, length);
    FromBigEndianOf(length, q);
    hide FirstFlags, BigEndian, FromBigEndian;
    if IsFirst(b, length, iv, hasAdd, tagLen) {
      SplitBlock(b, iv);
      SameFlags(b[0], FirstFlags(hasAdd, tagLen, q));
    }
  }

  lemma SameFlags(f: Byte, g: Byte)
    requires f / 128 == g / 128 && f / 64 % 2 == g / 64 % 2 && f / 8 % 8 == g / 8 % 8 && f % 8 == g % 8
    ensures f == g
  {
  }

  // So messages that differ in length, nonce, tag length or the presence of data begin differently.
  lemma FirstBlockTells(length: nat, iv: seq<Byte>, hasAdd: bool, tagLen: nat,
                        length': nat, iv': seq<Byte>, hasAdd': bool, tagLen': nat)
    requires ValidTag(tagLen) && tagLen > 0 && 7 <= |iv| <= 13 && length < Pow(256, LengthBytes(iv))
    requires ValidTag(tagLen') && tagLen' > 0 && 7 <= |iv'| <= 13 && length' < Pow(256, LengthBytes(iv'))
    requires FirstBlock(length, iv, hasAdd, tagLen) == FirstBlock(length', iv', hasAdd', tagLen')
    ensures length == length' && iv == iv' && hasAdd == hasAdd' && tagLen == tagLen'
  {
    var b := FirstBlock(length, iv, hasAdd, tagLen);
    FirstBlockSays(b, length, iv, hasAdd, tagLen);
    FirstBlockSays(b, length', iv', hasAdd', tagLen');
    hide FirstBlock;
  }

  lemma CounterBlockSays(b: Block, iv: seq<Byte>, i: nat)
    requires 7 <= |iv| <= 13 && i < Pow(256, LengthBytes(iv))
    ensures IsCounter(b, iv, i) <==> b == CounterBlock(iv, i)
  {
    var q := LengthBytes(iv);
    BlockBytes(q - 1, iv, i);
    FromBigEndianOf(i, q);
    hide BigEndian, FromBigEndian, Pow;
    if IsCounter(b, iv, i) {
      SplitBlock(b, iv);
      assert b[0] == q - 1;
    }
  }

  // No counter block is ever a first block, whatever the nonces.
  lemma FirstIsNoCounter(length: nat, iv: seq<Byte>, hasAdd: bool, tagLen: nat, iv': seq<Byte>, i: nat)
    requires ValidTag(tagLen) && 7 <= |iv| <= 13 && 7 <= |iv'| <= 13
    ensures FirstBlock(length, iv, hasAdd, tagLen) != CounterBlock(iv', i)
  {
    hide BigEndian;
    assert FirstBlock(length, iv, hasAdd, tagLen)[0] >= 8;
    assert CounterBlock(iv', i)[0] < 8;
  }

  // The source's short form is the standard's one, except for the one number of bytes it takes too many.
  lemma AddStringSays(a: seq<Byte>, add: seq<Byte>)
    requires |add| < 0xFF00
    ensures IsAddString(a, add) <==> a == AddString(add)
  {
    if add != [] {
      TwoBytes(|add|);
      if IsAddString(a, add) {
        assert a == [a[0], a[1]] + a[2..];
      }
    }
  }

  lemma AddStringIsStandard(add: seq<Byte>)
    requires |add| <= 0xFF00
    ensures IsAddString(AddString(add), add) <==> |add| < 0xFF00
  {
    if |add| < 0xFF00 {
      AddStringSays(AddString(add), add);
    }
  }

  lemma TwoBytes(n: nat)
    requires n < 0x1_0000
    ensures n / 256 % 256 * 256 + n % 256 == n
  {
  }

  // ---------------------------------------------------------------- chaining

  // Section 6.1: each block is added to the chaining value and the sum enciphered.
  lemma CbcMacNext(E: Cipher, y: Block, s: seq<Byte>, b: Block)
    requires |s| % 16 == 0
    ensures CbcMac(E, y, s + b, 0) == Apply(E, XorAll(CbcMac(E, y, s, 0), b))
  {
    assert Padded(s) == s;
    hide Apply, XorAll;
    CbcMacPadded(E, y, s, b, 0);
    assert BlockAt(b, 0) == b;
    assert CbcMac(E, CbcMac(E, y, s, 0), b, 0) == CbcMac(E, Apply(E, XorAll(CbcMac(E, y, s, 0), b)), b, 16);
  }

  // A string is filled up with fewer than sixteen zeros to whole blocks.
  lemma PaddedShape(s: seq<Byte>)
    ensures var p := Padded(s);
            |p| % 16 == 0 && |s| <= |p| < |s| + 16 && p[..|s|] == s && forall k :: |s| <= k < |p| ==> p[k] == 0
  {
  }

  // ---------------------------------------------------------------- texts and tags

  // Section 6.2: byte k of the text is masked with byte k modulo 16 of the enciphered counter block
  // number k / 16 + 1.
  lemma TextIsMasked(E: Cipher, iv: seq<Byte>, text: seq<Byte>, k: nat, ctr: Block)
    requires 7 <= |iv| <= 13 && |text| < Pow(256, LengthBytes(iv)) && k < |text| && IsCounter(ctr, iv, k / 16 + 1)
    ensures Xor(Crypt(E, iv, text)[k], text[k]) == Apply(E, ctr)[k % 16]
  {
    CounterFits(k);
    CounterBlockSays(ctr, iv, k / 16 + 1);
    CryptAt(E, iv, text, k);
    hide *;
    Unmasked(text[k], Apply(E, ctr)[k % 16]);
  }

  lemma CryptAt(E: Cipher, iv: seq<Byte>, text: seq<Byte>, k: nat)
    requires 7 <= |iv| <= 13 && k < |text|
    ensures Crypt(E, iv, text)[k] == Xor(text[k], Apply(E, CounterBlock(iv, k / 16 + 1))[k % 16])
  {
    hide Apply, Xor, CounterBlock;
  }

  lemma Unmasked(x: Byte, key: Byte)
    ensures Xor(Xor(x, key), x) == key
  {
    hide Xor;
    XorCommutes(x, key);
    XorTwice(key, x);
  }

  lemma CounterFits(k: nat)
    ensures k / 16 + 1 <= k + 1
  {
  }

  // Section 6.1: the tag is the beginning of the MAC of first block, data and text, masked with the
  // enciphered counter block number 0.
  lemma TagIsMasked(E: Cipher, iv: seq<Byte>, add: seq<Byte>, text: seq<Byte>, tagLen: nat,
                    first: Block, a: seq<Byte>, ctr: Block, k: nat)
    requires ValidInput(|text|, iv, add, tagLen) && tagLen > 0 && |add| < 0xFF00 && k < tagLen
    requires IsFirst(first, |text|, iv, add != [], tagLen) && IsAddString(a, add) && IsCounter(ctr, iv, 0)
    ensures Xor(Tag(E, iv, add, text, tagLen)[k], Apply(E, ctr)[k])
         == CbcMac(E, Zeros(16), first + (Padded(a) + Padded(text)), 0)[k]
  {
    FirstBlockSays(first, |text|, iv, add != [], tagLen);
    AddStringSays(a, add);
    CounterBlockSays(ctr, iv, 0);
    MacIsStandard(E, iv, add, text, tagLen);
    var mac, key := Mac(E, iv, add, text, tagLen), Apply(E, ctr);
    hide Apply, Xor, CbcMac, Padded, Mac, FirstBlock, AddString, IsFirst, IsAddString, IsCounter, CounterBlock;
    assert Tag(E, iv, add, text, tagLen)[k] == Xor(mac[k], key[k]);
    XorTwice(mac[k], key[k]);
  }
}
