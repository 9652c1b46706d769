// Counter mode with CBC-MAC over any function from blocks to blocks.
module Ccm {
  import opened Numbers
  import opened Bytes
  import opened BlockCipher
  import opened Memory

  datatype Result = Ok | BadInput | AuthFailed | CipherFailed

  // ---------------------------------------------------------------- definition (NIST SP 800-38C)

  // Bytes of the length field and of the counter.
  function LengthBytes(iv: seq<Byte>): nat
    requires 7 <= |iv| <= 13
  {
    15 - |iv|
  }

  // The flags of the first block.  Without a tag the source's unsigned arithmetic sets all five upper
  // bits; the MAC is not used then.
  function FirstFlags(hasAdd: bool, tagLen: nat, q: nat): Byte
    requires 2 <= q <= 8 && ValidTag(tagLen)
  {
    if tagLen == 0 then 248 + (q - 1) else (if hasAdd then 64 else 0) + 8 * ((tagLen - 2) / 2) + (q - 1)
  }

  predicate ValidTag(tagLen: nat) {
    tagLen != 2 && tagLen <= 16 && tagLen % 2 == 0
  }

  predicate ValidInput(length: nat, iv: seq<Byte>, add: seq<Byte>, tagLen: nat) {
    && ValidTag(tagLen)
    && 7 <= |iv| <= 13
    && |add| <= 0xFF00
    && length < Pow(256, LengthBytes(iv))
  }

  // Section A.2.1: flags, nonce, length.
  function FirstBlock(length: nat, iv: seq<Byte>, hasAdd: bool, tagLen: nat): Block
    requires 7 <= |iv| <= 13 && ValidTag(tagLen)
  {
    [FirstFlags(hasAdd, tagLen, LengthBytes(iv))] + iv + BigEndian(length, LengthBytes(iv))
  }

  // Section A.2.2: two bytes of length, then the associated data.
  function AddString(add: seq<Byte>): seq<Byte> {
    if add == [] then [] else [|add| / 256 % 256, |add| % 256] + add
  }

  // Section A.3.
  function CounterBlock(iv: seq<Byte>, i: nat): Block
    requires 7 <= |iv| <= 13
  {
    [LengthBytes(iv) - 1] + iv + BigEndian(i, LengthBytes(iv))
  }

  // Chaining over a string from one place on, its last block filled up with zeros.
  function CbcMac(E: Cipher, y: Block, s: seq<Byte>, at: nat): Block
    decreases |s| - at
  {
    if at >= |s| then y else CbcMac(E, Apply(E, XorAll(y, BlockAt(s, at))), s, at + 16)
  }

  // Section 6.1: the first block, the associated data and the text, each in whole blocks.
  function Mac(E: Cipher, iv: seq<Byte>, add: seq<Byte>, text: seq<Byte>, tagLen: nat): Block
    requires 7 <= |iv| <= 13 && ValidTag(tagLen)
  {
    CbcMac(E, CbcMac(E, CbcMac(E, Zeros(16), FirstBlock(|text|, iv, add != [], tagLen), 0), AddString(add), 0), text, 0)
  }

  function Stream(E: Cipher, iv: seq<Byte>, k: nat): Byte
    requires 7 <= |iv| <= 13
  {
    Apply(E, CounterBlock(iv, k / 16 + 1))[k % 16]
  }

  // Section 6.2: text and key stream, byte by byte.
  function Crypt(E: Cipher, iv: seq<Byte>, text: seq<Byte>): (r: seq<Byte>)
    requires 7 <= |iv| <= 13
    ensures |r| == |text|
  {
    seq<Byte>(|text|, k requires 0 <= k < |text| => Xor(text[k], Stream(E, iv, k)))
  }

  function Tag(E: Cipher, iv: seq<Byte>, add: seq<Byte>, text: seq<Byte>, tagLen: nat): (r: seq<Byte>)
    requires 7 <= |iv| <= 13 && ValidTag(tagLen)
    ensures |r| == tagLen
  {
    XorAll(Mac(E, iv, add, text, tagLen), Apply(E, CounterBlock(iv, 0)))[..tagLen]
  }

  // ---------------------------------------------------------------- facts about the definition

  lemma CryptTwice(E: Cipher, iv: seq<Byte>, text: seq<Byte>)
    requires 7 <= |iv| <= 13
    ensures Crypt(E, iv, Crypt(E, iv, text)) == text
  {
    var c := Crypt(E, iv, text);
    forall k | 0 <= k < |text| ensures Crypt(E, iv, c)[k] == text[k] {
      XorTwice(text[k], Stream(E, iv, k));
    }
  }

  // No counter block is used twice for a message whose length fits its length field, and none of
  // them is the one that masks the tag.
  lemma CountersDistinct(iv: seq<Byte>, length: nat, i: nat, j: nat)
    requires 7 <= |iv| <= 13 && length < Pow(256, LengthBytes(iv))
    requires i < j <= (length + 15) / 16
    ensures CounterBlock(iv, i) != CounterBlock(iv, j)
  {
    var q := LengthBytes(iv);
    if CounterBlock(iv, i) == CounterBlock(iv, j) {
      CounterPart(iv, i);
      CounterPart(iv, j);
      hide CounterBlock, BigEndian;
      assert Pow(256, q) == 256 * Pow(256, q - 1);
      BlocksFitCounter(length, Pow(256, q - 1));
      BigEndianInjective(i, j, q);
    }
  }

  lemma CounterPart(iv: seq<Byte>, i: nat)
    requires 7 <= |iv| <= 13
    ensures CounterBlock(iv, i)[1 + |iv|..] == BigEndian(i, LengthBytes(iv))
  {
    hide BigEndian;
  }

  lemma BlocksFitCounter(length: nat, w: nat)
    requires length < 256 * w
    ensures (length + 15) / 16 < 256 * w
  {
  }

  function Padded(s: seq<Byte>): (r: seq<Byte>)
    ensures |r| % 16 == 0
  {
    s + Zeros((16 - |s| % 16) % 16)
  }

  lemma PaddedBlock(s: seq<Byte>, t: seq<Byte>, at: nat)
    requires at % 16 == 0 && at < |Padded(s)|
    ensures at < |s| && at + 16 <= |Padded(s)| && BlockAt(Padded(s) + t, at) == BlockAt(s, at)
  {
  }

  // Chaining over strings one after the other is chaining over their blocks as one string, as the
  // standard puts it.
  lemma {:induction false} CbcMacPadded(E: Cipher, y: Block, s: seq<Byte>, t: seq<Byte>, at: nat)
    requires at % 16 == 0 && at <= |Padded(s)|
    ensures CbcMac(E, y, Padded(s) + t, at) == CbcMac(E, CbcMac(E, y, s, at), t, 0)
    decreases |Padded(s)| - at
  {
    hide BlockAt, XorAll, Apply;
    var p := Padded(s);
    if at == |p| {
      CbcMacTail(E, y, p, t, 0);
    } else {
      PaddedBlock(s, t, at);
      CbcMacPadded(E, Apply(E, XorAll(y, BlockAt(s, at))), s, t, at + 16);
    }
  }

  lemma {:induction false} CbcMacTail(E: Cipher, y: Block, p: seq<Byte>, t: seq<Byte>, at: nat)
    ensures CbcMac(E, y, p + t, |p| + at) == CbcMac(E, y, t, at)
    decreases |t| - at
  {
    if at < |t| {
      assert BlockAt(p + t, |p| + at) == BlockAt(t, at);
      CbcMacTail(E, Apply(E, XorAll(y, BlockAt(t, at))), p, t, at + 16);
    }
  }

  // The MAC is that of the standard's one string of blocks (appendix A.2 of SP 800-38C): the first
  // block, the associated data with their length, the text, each filled up with zeros.
  lemma MacIsStandard(E: Cipher, iv: seq<Byte>, add: seq<Byte>, text: seq<Byte>, tagLen: nat)
    requires 7 <= |iv| <= 13 && ValidTag(tagLen)
    ensures Mac(E, iv, add, text, tagLen)
         == CbcMac(E, Zeros(16), FirstBlock(|text|, iv, add != [], tagLen) + (Padded(AddString(add)) + Padded(text)), 0)
  {
    var first, a := FirstBlock(|text|, iv, add != [], tagLen), AddString(add);
    var y := CbcMac(E, Zeros(16), first, 0);
    assert Padded(first) == first;
    assert Padded(text) + [] == Padded(text);
    hide CbcMac, Padded, FirstBlock, AddString, Zeros;
    CbcMacPadded(E, Zeros(16), first, Padded(a) + Padded(text), 0);
    CbcMacPadded(E, y, a, Padded(text), 0);
    CbcMacPadded(E, CbcMac(E, y, a, 0), text, [], 0);
    CbcMacEmpty(E, CbcMac(E, CbcMac(E, y, a, 0), text, 0));
  }

  lemma CbcMacEmpty(E: Cipher, y: Block)
    ensures CbcMac(E, y, [], 0) == y
  {
  }

  // The tags and texts that are accepted are exactly those that encryption produces, and what is
  // restored is the text that was encrypted.
  lemma AcceptedIffEncrypted(E: Cipher, iv: seq<Byte>, add: seq<Byte>, c: seq<Byte>, tag: seq<Byte>, tagLen: nat)
    requires 7 <= |iv| <= 13 && ValidTag(tagLen)
    ensures tag == Tag(E, iv, add, Crypt(E, iv, c), tagLen)
       <==> exists text :: c == Crypt(E, iv, text) && tag == Tag(E, iv, add, text, tagLen)
    ensures forall text :: c == Crypt(E, iv, text) ==> text == Crypt(E, iv, c)
  {
    hide Crypt, Tag;
    CryptTwice(E, iv, c);
    forall text | c == Crypt(E, iv, text) ensures text == Crypt(E, iv, c) {
      CryptTwice(E, iv, text);
    }
  }

  // What encryption leaves in memory is accepted, and the text restored, wherever it is decrypted to.
  lemma EncryptedIsAccepted(E: Cipher, was: seq<Byte>, now: seq<Byte>, dst: nat, tagAt: nat,
                            iv: seq<Byte>, add: seq<Byte>, text: seq<Byte>, tagLen: nat)
    requires 7 <= |iv| <= 13 && ValidTag(tagLen)
    requires dst + |text| <= |was| && tagAt + tagLen <= |was| && (tagAt + tagLen <= dst || dst + |text| <= tagAt)
    requires now == Replaced(Replaced(was, dst, Crypt(E, iv, text)), tagAt, Tag(E, iv, add, text, tagLen))
    ensures |now| == |was|
    ensures Crypt(E, iv, now[dst..dst + |text|]) == text
    ensures now[tagAt..tagAt + tagLen] == Tag(E, iv, add, text, tagLen)
  {
    var c, tag := Crypt(E, iv, text), Tag(E, iv, add, text, tagLen);
    CryptTwice(E, iv, text);
    hide Crypt, Tag;
    Elsewhere(Replaced(was, dst, c), tagAt, tag, dst, |text|);
    assert Replaced(was, dst, c)[dst..dst + |text|] == c;
    assert now[tagAt..tagAt + tagLen] == tag;
  }

  // ---------------------------------------------------------------- one block at a time

  // The sixteen-byte buffers of the source are local variables here, updated byte by byte.
  method UpdateMac(E: Cipher, y: Block, b: Block) returns (failed: bool, y': Block)
    ensures !failed ==> y' == Apply(E, XorAll(y, b))
  {
    var sum: Block := y;
    for i := 0 to 16
      invariant forall k :: 0 <= k < i ==> sum[k] == Xor(y[k], b[k])
      invariant forall k :: i <= k < 16 ==> sum[k] == y[k]
    {
      sum := sum[i := Xor(sum[i], b[i])];
    }
    assert sum == XorAll(y, b);
    failed, y' := Encipher(E, sum);
  }

  ghost function CombinedByte(mem: seq<Byte>, dst: nat, src: nat, len: nat, b: Block, p: nat): Byte
    requires len <= 16 && dst + len <= |mem| && src + len <= |mem| && p < |mem|
  {
    if dst <= p < dst + len then Xor(mem[src + (p - dst)], b[p - dst]) else mem[p]
  }

  // Memory once len bytes at src were combined with a block of the stream and written to dst.
  ghost function Combined(mem: seq<Byte>, dst: nat, src: nat, len: nat, b: Block): seq<Byte>
    requires len <= 16 && dst + len <= |mem| && src + len <= |mem|
  {
    seq<Byte>(|mem|, p requires 0 <= p < |mem| => CombinedByte(mem, dst, src, len, b, p))
  }

  // len bytes from src are combined with one block of the key stream and written to dst.
  method CtrCrypt(E: Cipher, ctr: Block, mem: array<Byte>, dst: nat, src: nat, len: nat)
    returns (failed: bool)
    requires len <= 16 && dst + len <= mem.Length && src + len <= mem.Length
    requires dst <= src || src + len <= dst
    modifies mem
    ensures !failed ==> mem[..] == Combined(old(mem[..]), dst, src, len, Apply(E, ctr))
    ensures failed ==> mem[..] == old(mem[..])
  {
    ghost var was := mem[..];
    var b: Block;
    failed, b := Encipher(E, ctr);
    if failed {
      return;
    }
    for i := 0 to len
      invariant forall k :: 0 <= k < i ==> mem[dst + k] == Xor(was[src + k], b[k])
      invariant forall p :: 0 <= p < mem.Length && !(dst <= p < dst + i) ==> mem[p] == was[p]
    {
      mem[dst + i] := Xor(mem[src + i], b[i]);
    }
    assert forall p :: dst <= p < dst + len ==> mem[p] == mem[dst + (p - dst)];
  }

  // A block is cleared, then filled from a piece of a byte string.
  method Fill(s: seq<Byte>, at: nat, use: nat) returns (b: Block)
    requires use == if |s| - at > 16 then 16 else |s| - at
    ensures b == BlockAt(s, at)
  {
    b := Zeros(16);
    for i := 0 to use
      invariant forall k :: 0 <= k < 16 ==> b[k] == if k < i then s[at + k] else 0
    {
      b := b[i := s[at + i]];
    }
  }

  // ---------------------------------------------------------------- setting up

  lemma LastByte(n: nat, q: nat, tail: seq<Byte>)
    requires q > 0
    ensures BigEndian(n, q) + tail == BigEndian(n / 256, q - 1) + ([n % 256] + tail)
    ensures n < Pow(256, q) <==> n / 256 < Pow(256, q - 1)
  {
  }

  // The flags as the source puts them together: the encoded tag length is that of an unsigned word, of
  // which a byte keeps the low bits.
  method FormatFlags(hasAdd: bool, tagLen: nat, q: nat) returns (flags: Byte)
    requires 2 <= q <= 8 && ValidTag(tagLen)
    ensures flags == FirstFlags(hasAdd, tagLen, q)
  {
    hide Or;
    TagBits(tagLen);
    flags := 0;
    flags := Or(flags, if hasAdd then 0x40 else 0);
    flags := Or(flags, (tagLen - 2) % (SIZE_MAX + 1) / 2 * 8 % 256);
    flags := Or(flags, q - 1);
    FlagBits(hasAdd, tagLen, q);
  }

  lemma TagBits(tagLen: nat)
    requires ValidTag(tagLen)
    ensures (tagLen - 2) % (SIZE_MAX + 1) / 2 * 8 % 256 == if tagLen == 0 then 0xF8 else 8 * ((tagLen - 2) / 2)
  {
  }

  lemma FlagBits(hasAdd: bool, tagLen: nat, q: nat)
    requires 2 <= q <= 8 && ValidTag(tagLen)
    ensures var t: Byte := if tagLen == 0 then 0xF8 else 8 * ((tagLen - 2) / 2);
            Or(Or(Or(0, if hasAdd then 0x40 else 0), t), q - 1) == FirstFlags(hasAdd, tagLen, q)
  {
    hide Or;
    if tagLen == 0 {
      OrNoTag();
      OrLow(31, q - 1);
    } else {
      var m := (tagLen - 2) / 2;
      assert m < 8;
      OrMiddle(0, if hasAdd then 0x40 else 0);
      OrMiddle(if hasAdd then 1 else 0, 8 * m);
      OrLow((if hasAdd then 8 else 0) + m, q - 1);
    }
  }

  lemma OrNoTag()
    ensures Or(Or(0, 0x40), 0xF8) == 0xF8 && Or(Or(0, 0), 0xF8) == 0xF8
  {
    OrMiddle(0, 0x40);
    OrMiddle(0, 0);
    OrHigh(8);
    OrHigh(0);
    hide Or;
  }

  lemma OrHigh(a: nat)
    requires a < 32
    ensures Or(8 * a, 0xF8) == 0xF8
  {
    OrPowers();
    hide OrBits, Pow;
    OrBitsOnes(a, 5);
    OrBitsDouble(a, 31, 5);
    OrBitsDouble(2 * a, 62, 6);
    OrBitsDouble(4 * a, 124, 7);
  }

  lemma OrPowers()
    ensures Pow(2, 1) == 2 && Pow(2, 2) == 4 && Pow(2, 3) == 8 && Pow(2, 5) == 32 && Pow(2, 6) == 64 && Pow(2, 7) == 128
  {
  }

  lemma OrLow(c: nat, low: Byte)
    requires c < 32 && low < 8
    ensures Or(8 * c, low) == 8 * c + low
  {
    assert Pow(2, 3) == 8 && Pow(2, 5) == 32;
    OrBitsApart(c, low, 3, 8);
  }

  lemma OrMiddle(c: nat, low: Byte)
    requires c < 2 && (low < 64 || (c == 0 && low == 64))
    ensures Or(64 * c, low) == 64 * c + low
  {
    assert Pow(2, 6) == 64 && Pow(2, 2) == 4 && Pow(2, 7) == 128 && Pow(2, 1) == 2;
    if low < 64 {
      OrBitsApart(c, low, 6, 8);
    } else {
      OrBitsApart(0, low, 7, 8);
    }
  }

  method FormatFirst(length: nat, iv: seq<Byte>, addLen: nat, tagLen: nat) returns (fits: bool, b: Block)
    requires 7 <= |iv| <= 13 && ValidTag(tagLen)
    ensures fits <==> length < Pow(256, LengthBytes(iv))
    ensures fits ==> b == FirstBlock(length, iv, addLen > 0, tagLen)
  {
    var flags := FormatFlags(addLen > 0, tagLen, LengthBytes(iv));
    var head := [flags] + iv;
    b := Fill(head, 0, |head|);
    assert b[..|head|] == head;
    fits, b := PutLength(b, length, LengthBytes(iv));
  }

  method PutLength(start: Block, length: nat, q: nat) returns (fits: bool, b: Block)
    requires q <= 8
    ensures fits <==> length < Pow(256, q)
    ensures fits ==> b == start[..16 - q] + BigEndian(length, q)
  {
    assert Pow(256, 0) == 1 && BigEndian(0, 0) == [];
    hide BigEndian, Pow;
    b := start;
    var left: nat := length;
    for i := 0 to q
      invariant left < Pow(256, q - i) <==> length < Pow(256, q)
      invariant b[..16 - q] == start[..16 - q]
      invariant BigEndian(left, q - i) + b[16 - i..] == BigEndian(length, q)
    {
      ghost var tail := b[16 - i..];
      LastByte(left, q - i, tail);
      b := b[15 - i := left % 256];
      assert b[15 - i..] == [left % 256] + tail;
      left := left / 256;
    }
    fits := left == 0;
    if fits {
      assert b == b[..16 - q] + b[16 - q..];
    }
  }

  // Where a byte of the counter wraps, the bytes above it go up by one.
  lemma NextByte(m: nat, q: nat, tail: seq<Byte>)
    requires q > 0
    ensures BigEndian(m, q) == BigEndian(m / 256, q - 1) + [m % 256]
    ensures (m % 256 + 1) % 256 != 0 ==> BigEndian(m + 1, q) + tail == BigEndian(m / 256, q - 1) + ([(m % 256 + 1) % 256] + tail)
    ensures (m % 256 + 1) % 256 == 0 ==> BigEndian(m + 1, q) + tail == BigEndian(m / 256 + 1, q - 1) + ([0] + tail)
  {
    if (m % 256 + 1) % 256 != 0 {
      assert (m + 1) / 256 == m / 256 && (m + 1) % 256 == m % 256 + 1;
    } else {
      assert (m + 1) / 256 == m / 256 + 1 && (m + 1) % 256 == 0;
    }
  }

  // The low k bytes of the counter have wrapped to zero and a carry goes into the byte above them.
  ghost predicate Carrying(ctr: seq<Byte>, head: seq<Byte>, q: nat, k: nat, m: nat, i: nat)
    requires |ctr| == 16 && k <= q <= 15
  {
    && ctr[..16 - q] == head
    && ctr[16 - q..16 - k] == BigEndian(m, q - k)
    && BigEndian(m + 1, q - k) + ctr[16 - k..] == BigEndian(i + 1, q)
  }

  lemma CarryOn(ctr: seq<Byte>, head: seq<Byte>, q: nat, k: nat, m: nat, i: nat)
    requires |ctr| == 16 && k < q <= 15 && Carrying(ctr, head, q, k, m, i)
    ensures ctr[15 - k] == m % 256
    ensures (m % 256 + 1) % 256 != 0 ==> ctr[15 - k := (m % 256 + 1) % 256] == head + BigEndian(i + 1, q)
    ensures (m % 256 + 1) % 256 == 0 ==> Carrying(ctr[15 - k := 0], head, q, k + 1, m / 256, i)
  {
    hide BigEndian;
    var tail, high := ctr[16 - k..], BigEndian(m / 256, q - k - 1);
    NextByte(m, q - k, tail);
    assert ctr[16 - q..16 - k] == high + [m % 256];
    CarryInto(ctr, head, q, k, m, i, high, tail);
  }

  lemma CarryInto(ctr: seq<Byte>, head: seq<Byte>, q: nat, k: nat, m: nat, i: nat, high: seq<Byte>, tail: seq<Byte>)
    requires |ctr| == 16 && k < q <= 15 && ctr[..16 - q] == head && ctr[16 - k..] == tail
    requires high == BigEndian(m / 256, q - k - 1) && ctr[16 - q..16 - k] == high + [m % 256]
    requires BigEndian(m + 1, q - k) + tail == BigEndian(i + 1, q)
    requires (m % 256 + 1) % 256 != 0 ==> BigEndian(m + 1, q - k) + tail == high + ([(m % 256 + 1) % 256] + tail)
    requires (m % 256 + 1) % 256 == 0 ==> BigEndian(m + 1, q - k) + tail == BigEndian(m / 256 + 1, q - k - 1) + ([0] + tail)
    ensures ctr[15 - k] == m % 256
    ensures (m % 256 + 1) % 256 != 0 ==> ctr[15 - k := (m % 256 + 1) % 256] == head + BigEndian(i + 1, q)
    ensures (m % 256 + 1) % 256 == 0 ==> Carrying(ctr[15 - k := 0], head, q, k + 1, m / 256, i)
  {
    hide BigEndian;
    SplitAt(ctr, head, q, k, high, m % 256, tail, (m % 256 + 1) % 256);
  }

  lemma SplitAt(ctr: seq<Byte>, head: seq<Byte>, q: nat, k: nat, high: seq<Byte>, b: Byte, tail: seq<Byte>, next: Byte)
    requires |ctr| == 16 && k < q <= 15 && ctr[..16 - q] == head && ctr[16 - k..] == tail
    requires |high| == q - k - 1 && ctr[16 - q..16 - k] == high + [b]
    ensures ctr[15 - k] == b
    ensures var t := ctr[15 - k := next];
            && t[..16 - q] == head && t[16 - q..15 - k] == high && t[15 - k..] == [next] + tail
            && t == head + (high + ([next] + tail))
  {
    var t := ctr[15 - k := next];
    assert ctr[15 - k] == ctr[16 - q..16 - k][q - k - 1];
    assert t[16 - q..15 - k] == ctr[16 - q..16 - k][..q - k - 1];
    assert t[15 - k..] == [next] + tail;
    assert t == t[..16 - q] + (t[16 - q..15 - k] + t[15 - k..]);
  }

  // The counter goes up by one, byte by byte from the last.
  method Increment(ctr: Block, iv: seq<Byte>, ghost i: nat) returns (ctr': Block)
    requires 7 <= |iv| <= 13 && ctr == CounterBlock(iv, i)
    ensures ctr' == CounterBlock(iv, i + 1)
  {
    var q: nat := LengthBytes(iv);
    ghost var head := ctr[..16 - q];
    ghost var m := i;
    assert ctr[16 - q..] == BigEndian(i, q);
    assert BigEndian(m + 1, 0) == [];
    hide BigEndian, Carrying;
    StartCarry(ctr, head, q, i);
    ctr' := ctr;
    for k := 0 to q
      invariant Carrying(ctr', head, q, k, m, i)
    {
      CarryOn(ctr', head, q, k, m, i);
      var next: int := ctr'[15 - k];
      ctr' := ctr'[15 - k := (next + 1) % 256];
      if ctr'[15 - k] != 0 {
        return;
      }
      m := m / 256;
    }
    EndCarry(ctr', head, q, m, i);
  }

  lemma StartCarry(ctr: seq<Byte>, head: seq<Byte>, q: nat, i: nat)
    requires |ctr| == 16 && q <= 15 && ctr[..16 - q] == head && ctr[16 - q..] == BigEndian(i, q)
    ensures Carrying(ctr, head, q, 0, i, i)
  {
    hide BigEndian;
    assert ctr[16 - q..16] == ctr[16 - q..] && ctr[16..] == [];
  }

  lemma EndCarry(ctr: seq<Byte>, head: seq<Byte>, q: nat, m: nat, i: nat)
    requires |ctr| == 16 && q <= 15 && Carrying(ctr, head, q, q, m, i)
    ensures ctr == head + BigEndian(i + 1, q)
  {
    assert ctr == ctr[..16 - q] + ctr[16 - q..];
  }

  lemma AddBlocks(add: seq<Byte>, done: nat)
    requires add != []
    ensures |AddString(add)| == |add| + 2
    ensures BlockAt(AddString(add), done + 2) == BlockAt(add, done)
    ensures var use := if |add| < 14 then |add| else 14;
            BlockAt([|add| / 256 % 256, |add| % 256] + add[..use], 0) == BlockAt(AddString(add), 0)
  {
  }

  // The MAC over the associated data.
  method MacHeader(E: Cipher, start: Block, add: seq<Byte>) returns (failed: bool, y: Block)
    requires |add| <= 0xFF00
    ensures !failed ==> y == CbcMac(E, start, AddString(add), 0)
  {
    if |add| == 0 {
      MacPast(E, start, AddString(add), 0);
      return false, start;
    }
    ghost var all := AddString(add);
    AddBlocks(add, 0);
    var use: nat := if |add| < 14 then |add| else 14;
    MacTurn(E, start, all, 0, use + 2);
    hide *;
    var piece := [|add| / 256 % 256, |add| % 256] + add[..use];
    var b := Fill(piece, 0, |piece|);
    failed, y := UpdateMac(E, start, b);
    if failed {
      return;
    }
    failed, y := MacRest(E, y, add, use, CbcMac(E, start, all, 0));
  }

  // A turn that takes in the last, shorter block ends the chain too.
  lemma MacTurn(E: Cipher, y: Block, all: seq<Byte>, at: nat, use: nat)
    requires at < |all| && use == if |all| - at > 16 then 16 else |all| - at
    ensures CbcMac(E, Apply(E, XorAll(y, BlockAt(all, at))), all, at + use) == CbcMac(E, y, all, at)
  {
    hide Apply, XorAll, BlockAt;
    if use < 16 {
      MacPast(E, Apply(E, XorAll(y, BlockAt(all, at))), all, at + 16);
    }
  }

  lemma MacOfAddPiece(E: Cipher, y: Block, add: seq<Byte>, done: nat, use: nat, y': Block)
    requires done < |add| && use == if |add| - done > 16 then 16 else |add| - done
    requires y' == Apply(E, XorAll(y, BlockAt(add, done)))
    ensures CbcMac(E, y', AddString(add), done + use + 2) == CbcMac(E, y, AddString(add), done + 2)
  {
    AddBlocks(add, done);
    hide Apply, XorAll, BlockAt, AddString, CbcMac;
    MacTurn(E, y, AddString(add), done + 2, use);
  }

  lemma MacOfAddEnd(E: Cipher, y: Block, add: seq<Byte>)
    requires add != []
    ensures CbcMac(E, y, AddString(add), |add| + 2) == y
  {
    AddBlocks(add, 0);
    MacPast(E, y, AddString(add), |add| + 2);
  }

  method MacRest(E: Cipher, first: Block, add: seq<Byte>, from: nat, ghost mac: Block) returns (failed: bool, y: Block)
    requires add != [] && from <= |add|
    requires CbcMac(E, first, AddString(add), from + 2) == mac
    ensures !failed ==> y == mac
  {
    hide *;
    failed, y := false, first;
    var done: nat := from;
    while done < |add|
      invariant done <= |add|
      invariant CbcMac(E, y, AddString(add), done + 2) == mac
      decreases |add| - done
    {
      var use: nat := if |add| - done > 16 then 16 else |add| - done;
      var b := Fill(add, done, use);
      ghost var y0 := y;
      failed, y := UpdateMac(E, y, b);
      if failed {
        return;
      }
      MacOfAddPiece(E, y0, add, done, use, y);
      done := done + use;
    }
    MacOfAddEnd(E, y, add);
  }

  lemma MacPast(E: Cipher, y: Block, s: seq<Byte>, at: nat)
    requires at >= |s|
    ensures CbcMac(E, y, s, at) == y
  {
  }

  // ---------------------------------------------------------------- the whole message

  // A message at work: where it lies, what was there when the work began, and the MAC at that time.
  // Output may lie anywhere that no byte is overwritten before it is read.
  datatype Job = Job(E: Cipher, mode: Mode, iv: seq<Byte>, was: seq<Byte>, dst: nat, src: nat, length: nat, start: Block) {
    ghost predicate Valid() {
      && 7 <= |iv| <= 13
      && dst + length <= |was| && src + length <= |was|
      && (dst <= src || src + length <= dst)
    }

    ghost function Input(): seq<Byte>
      requires Valid()
    {
      was[src..src + length]
    }

    ghost function Output(): seq<Byte>
      requires Valid()
    {
      Crypt(E, iv, Input())
    }

    ghost function Text(): (r: seq<Byte>)
      requires Valid()
      ensures |r| == length
    {
      if mode == Encrypt then Input() else Output()
    }

    // Memory with the first done bytes of the output written.
    ghost function Memory(done: nat): (r: seq<Byte>)
      requires Valid() && done <= length
      ensures |r| == |was|
    {
      seq<Byte>(|was|, p requires 0 <= p < |was| => MemoryByte(done, p))
    }

    ghost function MemoryByte(done: nat, p: nat): Byte
      requires Valid() && done <= length && p < |was|
    {
      if dst <= p < dst + done then Output()[p - dst] else was[p]
    }

    // The state of the main loop after n blocks.
    ghost predicate State(n: nat, done: nat, mem: seq<Byte>, y: Block, ctr: Block)
      requires Valid()
    {
      && (done == 16 * n || done == length <= 16 * n) && done <= length
      && mem == Memory(done)
      && ctr == CounterBlock(iv, n + 1)
      && CbcMac(E, y, Text(), 16 * n) == CbcMac(E, start, Text(), 0)
    }
  }

  lemma StateAtStart(job: Job)
    requires job.Valid()
    ensures job.State(0, 0, job.was, job.start, CounterBlock(job.iv, 1))
  {
  }

  lemma OutputByte(job: Job, n: nat, k: nat)
    requires job.Valid() && k < 16 && 16 * n + k < job.length
    ensures job.Output()[16 * n + k]
         == Xor(job.was[job.src + 16 * n + k], Apply(job.E, CounterBlock(job.iv, n + 1))[k])
  {
    hide Xor, Apply, CounterBlock;
    assert (16 * n + k) / 16 == n && (16 * n + k) % 16 == k;
  }

  lemma MemoryNextByte(job: Job, n: nat, use: nat, p: nat)
    requires job.Valid() && use <= 16 && 16 * n + use <= job.length && p < |job.was|
    ensures job.MemoryByte(16 * n + use, p)
         == CombinedByte(job.Memory(16 * n), job.dst + 16 * n, job.src + 16 * n, use, Apply(job.E, CounterBlock(job.iv, n + 1)), p)
  {
    hide Xor, Apply, CounterBlock, Crypt;
    hide Job.Output;
    var k := p - (job.dst + 16 * n);
    if 0 <= k < use {
      OutputByte(job, n, k);
      assert job.MemoryByte(16 * n, job.src + 16 * n + k) == job.was[job.src + 16 * n + k];
    }
  }

  lemma MemoryNext(job: Job, n: nat, use: nat)
    requires job.Valid() && use <= 16 && 16 * n + use <= job.length
    ensures job.Memory(16 * n + use)
         == Combined(job.Memory(16 * n), job.dst + 16 * n, job.src + 16 * n, use, Apply(job.E, CounterBlock(job.iv, n + 1)))
  {
    hide Xor, Apply, CounterBlock, CombinedByte;
    hide Job.MemoryByte;
    var left := job.Memory(16 * n + use);
    var right := Combined(job.Memory(16 * n), job.dst + 16 * n, job.src + 16 * n, use, Apply(job.E, CounterBlock(job.iv, n + 1)));
    forall p: nat | p < |job.was| ensures left[p] == right[p] {
      MemoryNextByte(job, n, use, p);
    }
  }

  // The next block of the text is read before or after it is worked on.
  lemma TextBlock(job: Job, n: nat, use: nat, mem: seq<Byte>)
    requires job.Valid() && 0 < use && use == (if job.length - 16 * n > 16 then 16 else job.length - 16 * n)
    ensures job.mode == Encrypt && mem == job.Memory(16 * n) ==> BlockAt(mem[job.src + 16 * n..][..use], 0) == BlockAt(job.Text(), 16 * n)
    ensures job.mode == Decrypt && mem == job.Memory(16 * n + use) ==> BlockAt(mem[job.dst + 16 * n..][..use], 0) == BlockAt(job.Text(), 16 * n)
  {
    hide Crypt;
  }

  lemma StateNext(job: Job, n: nat, use: nat, mem: seq<Byte>, mem': seq<Byte>, y: Block, y': Block, ctr: Block)
    requires job.Valid() && 0 < use && use == (if job.length - 16 * n > 16 then 16 else job.length - 16 * n)
    requires job.State(n, 16 * n, mem, y, ctr)
    requires mem' == Combined(mem, job.dst + 16 * n, job.src + 16 * n, use, Apply(job.E, ctr))
    requires y' == Apply(job.E, XorAll(y, BlockAt(job.Text(), 16 * n)))
    ensures job.State(n + 1, 16 * n + use, mem', y', CounterBlock(job.iv, n + 2))
  {
    hide Combined, Apply, CounterBlock, XorAll, BlockAt, CbcMac;
    hide Job.Memory, Job.Text, Job.Valid;
    MemoryNext(job, n, use);
    MacNext(job.E, y, job.Text(), 16 * n);
    assert 16 * (n + 1) == 16 * n + 16;
  }

  lemma MacNext(E: Cipher, y: Block, s: seq<Byte>, at: nat)
    requires at < |s|
    ensures CbcMac(E, y, s, at) == CbcMac(E, Apply(E, XorAll(y, BlockAt(s, at))), s, at + 16)
  {
  }

  // The main loop with left bytes to go.
  ghost predicate Looping(job: Job, n: nat, left: nat, at: nat, from: nat, mem: seq<Byte>, y: Block, ctr: Block) {
    && job.Valid() && left <= job.length
    && (left > 0 ==> left == job.length - 16 * n && at == job.dst + 16 * n && from == job.src + 16 * n)
    && job.State(n, job.length - left, mem, y, ctr)
  }

  function PieceSize(left: nat): nat {
    if left > 16 then 16 else left
  }

  // One turn of the main loop.
  method CryptTurn(E: Cipher, mode: Mode, iv: seq<Byte>, mem: array<Byte>, at: nat, from: nat, left: nat,
                   y: Block, ctr: Block, ghost job: Job, ghost n: nat)
    returns (failed: bool, y': Block, ctr': Block)
    requires Looping(job, n, left, at, from, mem[..], y, ctr) && left > 0
    requires E == job.E && mode == job.mode && iv == job.iv
    modifies mem
    ensures OnlyInside(old(mem[..]), mem[..], at, at + PieceSize(left))
    ensures job.dst <= at && at + PieceSize(left) <= job.dst + job.length
    ensures !failed ==>
              Looping(job, n + 1, left - PieceSize(left), at + PieceSize(left), from + PieceSize(left), mem[..], y', ctr')
  {
    hide Apply, CounterBlock, XorAll, BlockAt, Crypt, Combined, CbcMac;
    hide Job.Memory, Job.Text, Job.Input, Job.Output;
    var use := PieceSize(left);
    ghost var mem0 := mem[..];
    y', ctr' := y, ctr;
    if mode == Encrypt {
      TextBlock(job, n, use, mem[..]);
      var b := Fill(mem[from..][..use], 0, use);
      failed, y' := UpdateMac(E, y, b);
      if failed {
        return;
      }
    }
    failed := CtrCrypt(E, ctr, mem, at, from, use);
    if failed {
      return;
    }
    CombinedInside(mem0, at, from, use, Apply(E, ctr));
    MemoryNext(job, n, use);
    if mode == Decrypt {
      TextBlock(job, n, use, mem[..]);
      var b := Fill(mem[at..][..use], 0, use);
      failed, y' := UpdateMac(E, y, b);
      if failed {
        return;
      }
    }
    StateNext(job, n, use, mem0, mem[..], y, y', ctr);
    ctr' := Increment(ctr, iv, n + 1);
  }

  lemma CombinedInside(mem: seq<Byte>, dst: nat, src: nat, len: nat, b: Block)
    requires len <= 16 && dst + len <= |mem| && src + len <= |mem|
    ensures OnlyInside(mem, Combined(mem, dst, src, len, b), dst, dst + len)
  {
  }

  // The text is encrypted or decrypted and added to the MAC, block by block.
  method CryptText(E: Cipher, mode: Mode, iv: seq<Byte>, start: Block, first: Block, mem: array<Byte>,
                   dst: nat, src: nat, length: nat, ghost job: Job)
    returns (failed: bool, y: Block, ctr: Block, ghost n: nat)
    requires job == Job(E, mode, iv, mem[..], dst, src, length, start) && job.Valid()
    requires first == CounterBlock(iv, 1)
    modifies mem
    ensures OnlyInside(old(mem[..]), mem[..], dst, dst + length)
    ensures !failed ==> job.State(n, length, mem[..], y, ctr)
  {
    ghost var was := mem[..];
    StateAtStart(job);
    NothingChanged(was, dst, dst + length);
    var at, from, left := dst, src, length;
    failed, y, ctr, n := false, start, first, 0;
    assert Looping(job, n, left, at, from, mem[..], y, ctr);
    hide *;
    while left > 0
      invariant OnlyInside(was, mem[..], dst, dst + length)
      invariant Looping(job, n, left, at, from, mem[..], y, ctr)
    {
      var use := if left > 16 then 16 else left;
      assert use == PieceSize(left) by {
        SmallPiece(left);
      }
      ghost var mem0 := mem[..];
      failed, y, ctr := CryptTurn(E, mode, iv, mem, at, from, left, y, ctr, job, n);
      StillInside(was, mem0, mem[..], at, at + use, dst, dst + length);
      if failed {
        return;
      }
      at, from, left, n := at + use, from + use, left - use, n + 1;
    }
    LoopedOut(job, n, at, from, mem[..], y, ctr);
  }

  lemma SmallPiece(left: nat)
    ensures PieceSize(left) == if left > 16 then 16 else left
  {
  }

  lemma LoopedOut(job: Job, n: nat, at: nat, from: nat, mem: seq<Byte>, y: Block, ctr: Block)
    requires Looping(job, n, 0, at, from, mem, y, ctr)
    ensures job.Valid() && job.State(n, job.length, mem, y, ctr)
  {
  }

  // ---------------------------------------------------------------- encryption and decryption

  lemma {:induction false} BigEndianSmall(q: nat)
    ensures BigEndian(0, q) == Zeros(q)
    ensures q > 0 ==> BigEndian(1, q) == Zeros(q - 1) + [1]
  {
    if q > 0 {
      BigEndianSmall(q - 1);
      assert Zeros(q - 1) + [0] == Zeros(q);
    }
  }

  method FirstCounter(iv: seq<Byte>) returns (ctr: Block)
    requires 7 <= |iv| <= 13
    ensures ctr == CounterBlock(iv, 1)
  {
    var q: nat := LengthBytes(iv);
    var start: seq<Byte> := [q - 1] + iv + Zeros(q);
    ctr := start;
    ctr := ctr[15 := 1];
    BigEndianSmall(q);
  }

  method ResetCounter(ctr: Block, iv: seq<Byte>, ghost i: nat) returns (ctr': Block)
    requires 7 <= |iv| <= 13 && ctr == CounterBlock(iv, i)
    ensures ctr' == CounterBlock(iv, 0)
  {
    var q: nat := LengthBytes(iv);
    ctr' := ctr;
    for i := 0 to q
      invariant forall k :: 0 <= k < 16 ==> ctr'[k] == if k >= 16 - i then 0 else ctr[k]
    {
      ctr' := ctr'[15 - i := 0];
    }
    BigEndianSmall(q);
    assert ctr' == ctr[..16 - q] + Zeros(q);
  }

  lemma MacOfBlock(E: Cipher, y: Block, b: Block)
    ensures CbcMac(E, y, b, 0) == Apply(E, XorAll(y, b))
  {
    assert BlockAt(b, 0) == b;
    MacNext(E, y, b, 0);
    MacPast(E, Apply(E, XorAll(y, b)), b, 16);
  }

  // The tag masked with the zeroth block of the stream.
  method MaskTag(E: Cipher, y: Block, ctr: Block, tagLen: nat) returns (failed: bool, tag: seq<Byte>)
    requires tagLen <= 16
    ensures !failed ==> tag == XorAll(y, Apply(E, ctr))[..tagLen]
  {
    var b: Block;
    failed, b := Encipher(E, ctr);
    var sum: Block := y;
    for i := 0 to 16
      invariant forall k :: 0 <= k < 16 ==> sum[k] == if k < i then Xor(y[k], b[k]) else y[k]
    {
      sum := sum[i := Xor(sum[i], b[i])];
    }
    assert sum == XorAll(y, b);
    tag := sum[..tagLen];
  }

  // What the work on a message leaves behind.
  ghost predicate Worked(E: Cipher, mode: Mode, iv: seq<Byte>, add: seq<Byte>, was: seq<Byte>, dst: nat, src: nat,
                         length: nat, now: seq<Byte>, tag: seq<Byte>, tagLen: nat)
    requires 7 <= |iv| <= 13 && ValidTag(tagLen)
    requires dst + length <= |was| && src + length <= |was|
  {
    var input := was[src..src + length];
    var output := Crypt(E, iv, input);
    now == Replaced(was, dst, output)
    && tag == Tag(E, iv, add, if mode == Encrypt then input else output, tagLen)
  }

  lemma WholeMemory(job: Job)
    requires job.Valid()
    ensures |job.Output()| == job.length && job.Memory(job.length) == Replaced(job.was, job.dst, job.Output())
  {
    var output := job.Output();
    assert |output| == job.length;
    hide CbcMac, Crypt;
    hide Job.Output;
    var left, right := job.Memory(job.length), Replaced(job.was, job.dst, output);
    forall p: nat | p < |job.was| ensures left[p] == right[p] {
      assert left[p] == job.MemoryByte(job.length, p);
    }
  }

  lemma StateMeansWorked(job: Job, n: nat, mem: seq<Byte>, y: Block, ctr: Block, add: seq<Byte>, tag: seq<Byte>, tagLen: nat)
    requires job.Valid() && ValidTag(tagLen) && job.State(n, job.length, mem, y, ctr)
    requires job.start == CbcMac(job.E, CbcMac(job.E, Zeros(16), FirstBlock(job.length, job.iv, add != [], tagLen), 0), AddString(add), 0)
    requires tag == XorAll(y, Apply(job.E, CounterBlock(job.iv, 0)))[..tagLen]
    ensures Worked(job.E, job.mode, job.iv, add, job.was, job.dst, job.src, job.length, mem, tag, tagLen)
  {
    hide CbcMac, Crypt, AddString, FirstBlock, CounterBlock, XorAll, Apply, Replaced, Zeros, Mac, Tag, Worked;
    hide Job.Memory, Job.State;
    StateText(job, n, mem, y, ctr);
    PartsMeanWorked(job.E, job.mode, job.iv, add, job.was, job.dst, job.src, job.length, mem, tag, tagLen,
                    job.Input(), job.Output(), job.Text(), job.start, y);
  }

  lemma PartsMeanWorked(E: Cipher, mode: Mode, iv: seq<Byte>, add: seq<Byte>, was: seq<Byte>, dst: nat, src: nat,
                        length: nat, now: seq<Byte>, tag: seq<Byte>, tagLen: nat,
                        input: seq<Byte>, output: seq<Byte>, text: seq<Byte>, start: Block, y: Block)
    requires 7 <= |iv| <= 13 && ValidTag(tagLen)
    requires dst + length <= |was| && src + length <= |was|
    requires input == was[src..src + length] && output == Crypt(E, iv, input) && |output| == length
    requires text == (if mode == Encrypt then input else output) && |text| == length
    requires now == Replaced(was, dst, output)
    requires start == CbcMac(E, CbcMac(E, Zeros(16), FirstBlock(length, iv, add != [], tagLen), 0), AddString(add), 0)
    requires y == CbcMac(E, start, text, 0)
    requires tag == XorAll(y, Apply(E, CounterBlock(iv, 0)))[..tagLen]
    ensures Worked(E, mode, iv, add, was, dst, src, length, now, tag, tagLen)
  {
    hide CbcMac, Crypt, AddString, FirstBlock, CounterBlock, XorAll, Apply, Replaced, Zeros;
  }

  lemma StateText(job: Job, n: nat, mem: seq<Byte>, y: Block, ctr: Block)
    requires job.Valid() && job.State(n, job.length, mem, y, ctr)
    ensures |job.Output()| == job.length && mem == Replaced(job.was, job.dst, job.Output())
    ensures y == CbcMac(job.E, job.start, job.Text(), 0)
  {
    WholeMemory(job);
    hide CbcMac, Crypt, Replaced;
    hide Job.Memory, Job.Text;
    MacPast(job.E, y, job.Text(), 16 * n);
  }

  method AuthCrypt(E: Cipher, mode: Mode, mem: array<Byte>, dst: nat, src: nat, length: nat,
                   iv: seq<Byte>, add: seq<Byte>, tagLen: nat) returns (r: Result, tag: seq<Byte>)
    requires dst + length <= mem.Length && src + length <= mem.Length
    requires dst <= src || src + length <= dst
    modifies mem
    ensures r == BadInput <==> !ValidInput(length, iv, add, tagLen)
    ensures r != AuthFailed
    ensures OnlyInside(old(mem[..]), mem[..], dst, dst + length)
    ensures r == BadInput ==> mem[..] == old(mem[..])
    ensures r == Ok ==> Worked(E, mode, iv, add, old(mem[..]), dst, src, length, mem[..], tag, tagLen)
  {
    ghost var was := mem[..];
    NothingChanged(was, dst, dst + length);
    tag := [];
    if tagLen == 2 || tagLen > 16 || tagLen % 2 != 0 {
      return BadInput, [];
    }
    if |iv| < 7 || |iv| > 13 {
      return BadInput, [];
    }
    if |add| > 0xFF00 {
      return BadInput, [];
    }
    assert ValidInput(length, iv, add, tagLen) <==> length < Pow(256, LengthBytes(iv));
    assert ValidTag(tagLen);
    hide *;
    hide Job.State;
    var y;
    r, y := StartMac(E, length, iv, add, tagLen);
    if r != Ok {
      return;
    }
    r, tag := CryptAndTag(E, mode, mem, dst, src, length, iv, add, tagLen, y);
  }

  method CryptAndTag(E: Cipher, mode: Mode, mem: array<Byte>, dst: nat, src: nat, length: nat,
                     iv: seq<Byte>, ghost add: seq<Byte>, tagLen: nat, start: Block) returns (r: Result, tag: seq<Byte>)
    requires dst + length <= mem.Length && src + length <= mem.Length
    requires dst <= src || src + length <= dst
    requires 7 <= |iv| <= 13 && ValidTag(tagLen)
    requires start == CbcMac(E, CbcMac(E, Zeros(16), FirstBlock(length, iv, add != [], tagLen), 0), AddString(add), 0)
    modifies mem
    ensures r == Ok || r == CipherFailed
    ensures OnlyInside(old(mem[..]), mem[..], dst, dst + length)
    ensures r == Ok ==> Worked(E, mode, iv, add, old(mem[..]), dst, src, length, mem[..], tag, tagLen)
  {
    hide *;
    hide Job.State;
    var ctr := FirstCounter(iv);
    ghost var job := Job(E, mode, iv, mem[..], dst, src, length, start);
    JobFits(job);
    tag := [];
    var failed, y;
    ghost var n: nat;
    failed, y, ctr, n := CryptText(E, mode, iv, start, ctr, mem, dst, src, length, job);
    if failed {
      return CipherFailed, [];
    }
    CounterOf(job, n, mem[..], y, ctr);
    ValidTagFits(tagLen);
    failed, tag := FinishTag(E, y, ctr, iv, n + 1, tagLen);
    if failed {
      return CipherFailed, [];
    }
    StateMeansWorked(job, n, mem[..], y, ctr, add, tag, tagLen);
    r := Ok;
  }

  lemma ValidTagFits(tagLen: nat)
    requires ValidTag(tagLen)
    ensures tagLen <= 16
  {
  }

  // The MAC up to the text.
  method StartMac(E: Cipher, length: nat, iv: seq<Byte>, add: seq<Byte>, tagLen: nat) returns (r: Result, y: Block)
    requires 7 <= |iv| <= 13 && ValidTag(tagLen) && |add| <= 0xFF00
    ensures r != AuthFailed && (r == BadInput <==> length >= Pow(256, LengthBytes(iv)))
    ensures r == Ok ==>
              y == CbcMac(E, CbcMac(E, Zeros(16), FirstBlock(length, iv, add != [], tagLen), 0), AddString(add), 0)
  {
    hide *;
    var fits, b := FormatFirst(length, iv, |add|, tagLen);
    y := Zeros(16);
    if !fits {
      return BadInput, y;
    }
    MacOfBlock(E, Zeros(16), b);
    var failed;
    failed, y := UpdateMac(E, y, b);
    if failed {
      return CipherFailed, y;
    }
    failed, y := MacHeader(E, y, add);
    r := if failed then CipherFailed else Ok;
  }

  method FinishTag(E: Cipher, y: Block, ctr: Block, iv: seq<Byte>, ghost i: nat, tagLen: nat) returns (failed: bool, tag: seq<Byte>)
    requires 7 <= |iv| <= 13 && tagLen <= 16 && ctr == CounterBlock(iv, i)
    ensures !failed ==> tag == XorAll(y, Apply(E, CounterBlock(iv, 0)))[..tagLen]
  {
    hide *;
    var zeroth := ResetCounter(ctr, iv, i);
    failed, tag := MaskTag(E, y, zeroth, tagLen);
  }

  lemma JobFits(job: Job)
    requires 7 <= |job.iv| <= 13 && job.dst + job.length <= |job.was| && job.src + job.length <= |job.was|
    requires job.dst <= job.src || job.src + job.length <= job.dst
    ensures job.Valid()
  {
  }

  lemma CounterOf(job: Job, n: nat, mem: seq<Byte>, y: Block, ctr: Block)
    requires job.Valid() && job.State(n, job.length, mem, y, ctr)
    ensures ctr == CounterBlock(job.iv, n + 1)
  {
  }

  // The tag is written behind or before the output, in the same memory.
  method EncryptAndTag(E: Cipher, mem: array<Byte>, dst: nat, src: nat, length: nat,
                       iv: seq<Byte>, add: seq<Byte>, tagAt: nat, tagLen: nat) returns (r: Result)
    requires dst + length <= mem.Length && src + length <= mem.Length && tagAt + tagLen <= mem.Length
    requires dst <= src || src + length <= dst
    modifies mem
    ensures r == BadInput <==> tagLen == 0 || !ValidInput(length, iv, add, tagLen)
    ensures r != AuthFailed
    ensures r == BadInput ==> mem[..] == old(mem[..])
    ensures r == Ok ==>
              var input := old(mem[..])[src..src + length];
              mem[..] == Replaced(Replaced(old(mem[..]), dst, Crypt(E, iv, input)), tagAt, Tag(E, iv, add, input, tagLen))
  {
    if tagLen == 0 {
      return BadInput;
    }
    hide *;
    ghost var was := mem[..];
    var tag;
    r, tag := AuthCrypt(E, Encrypt, mem, dst, src, length, iv, add, tagLen);
    if r == Ok {
      WorkedFacts(E, Encrypt, iv, add, was, dst, src, length, mem[..], tag, tagLen);
      PutBytes(mem, tagAt, tag);
    }
  }

  lemma WorkedFacts(E: Cipher, mode: Mode, iv: seq<Byte>, add: seq<Byte>, was: seq<Byte>, dst: nat, src: nat,
                    length: nat, now: seq<Byte>, tag: seq<Byte>, tagLen: nat)
    requires dst + length <= |was| && src + length <= |was| && ValidInput(length, iv, add, tagLen)
    requires Worked(E, mode, iv, add, was, dst, src, length, now, tag, tagLen)
    ensures 7 <= |iv| <= 13 && ValidTag(tagLen)
    ensures var input := was[src..src + length]; var output := Crypt(E, iv, input);
            && now == Replaced(was, dst, output)
            && tag == Tag(E, iv, add, if mode == Encrypt then input else output, tagLen)
  {
    hide Replaced, Crypt, Tag;
  }

  // Decryption restores the text and accepts exactly the tag of that text, as the memory holds it once
  // the text is there; a text that is not accepted is wiped.
  method AuthDecrypt(E: Cipher, mem: array<Byte>, dst: nat, src: nat, length: nat,
                     iv: seq<Byte>, add: seq<Byte>, tagAt: nat, tagLen: nat) returns (r: Result)
    requires dst + length <= mem.Length && src + length <= mem.Length && tagAt + tagLen <= mem.Length
    requires dst <= src || src + length <= dst
    modifies mem
    ensures r == BadInput <==> tagLen == 0 || !ValidInput(length, iv, add, tagLen)
    ensures r == BadInput ==> mem[..] == old(mem[..])
    ensures r == Ok || r == AuthFailed ==>
              var text := Crypt(E, iv, old(mem[..])[src..src + length]);
              && (r == Ok <==> Replaced(old(mem[..]), dst, text)[tagAt..tagAt + tagLen] == Tag(E, iv, add, text, tagLen))
              && mem[..] == Replaced(old(mem[..]), dst, if r == Ok then text else Zeros(length))
  {
    if tagLen == 0 {
      return BadInput;
    }
    hide *;
    ghost var was := mem[..];
    var check;
    r, check := AuthCrypt(E, Decrypt, mem, dst, src, length, iv, add, tagLen);
    if r != Ok {
      return;
    }
    WorkedFacts(E, Decrypt, iv, add, was, dst, src, length, mem[..], check, tagLen);
    r := AcceptOrWipe(mem, dst, length, tagAt, check, was, Crypt(E, iv, was[src..src + length]));
  }

  method AcceptOrWipe(mem: array<Byte>, dst: nat, length: nat, tagAt: nat, check: seq<Byte>,
                      ghost was: seq<Byte>, ghost text: seq<Byte>) returns (r: Result)
    requires |text| == length && dst + length <= |was| && mem[..] == Replaced(was, dst, text)
    requires mem.Length == |was| && tagAt + |check| <= |was|
    modifies mem
    ensures r == (if Replaced(was, dst, text)[tagAt..tagAt + |check|] == check then Ok else AuthFailed)
    ensures mem[..] == Replaced(was, dst, if r == Ok then text else Zeros(length))
  {
    hide *;
    var differ := TagDiffers(mem, tagAt, check);
    r := Ok;
    if differ {
      Wipe(mem, dst, length);
      ReplacedTwice(was, dst, text, Zeros(length));
      r := AuthFailed;
    }
  }

  // Every byte is compared, whether or not a difference was found.
  method TagDiffers(mem: array<Byte>, at: nat, check: seq<Byte>) returns (differ: bool)
    requires at + |check| <= mem.Length
    ensures differ <==> mem[..][at..at + |check|] != check
  {
    differ := false;
    for i := 0 to |check|
      invariant differ <==> exists k :: 0 <= k < i && mem[at + k] != check[k]
    {
      XorZero(mem[at + i], check[i]);
      differ := differ || Xor(mem[at + i], check[i]) != 0;
    }
    ghost var there := mem[..][at..at + |check|];
    assert forall k: nat :: k < |check| ==> there[k] == mem[at + k];
    if !differ {
      assert there == check;
    }
  }

  method Wipe(mem: array<Byte>, at: nat, length: nat)
    requires at + length <= mem.Length
    modifies mem
    ensures mem[..] == Replaced(old(mem[..]), at, Zeros(length))
  {
    ghost var was := mem[..];
    for i := 0 to length
      invariant forall p :: 0 <= p < mem.Length ==> mem[p] == if at <= p < at + i then 0 else was[p]
    {
      mem[at + i] := 0;
    }
  }
}
