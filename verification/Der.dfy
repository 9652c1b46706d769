// Distinguished encoding of lengths, integers, bit strings and algorithm identifiers, and its parser.
module Der {
  import opened Numbers
  import opened Bytes
  import opened Bits
  import opened Memory
  import opened Bignum
  import opened MpiBytes

  const INTEGER: Byte := 0x02
  const BIT_STRING: Byte := 0x03
  const NULL: Byte := 0x05
  const OID: Byte := 0x06
  const SEQUENCE: Byte := 0x10
  const CONSTRUCTED: Byte := 0x20

  const OUT_OF_DATA: int := -0x60
  const UNEXPECTED_TAG: int := -0x62
  const INVALID_LENGTH: int := -0x64
  const LENGTH_MISMATCH: int := -0x66
  const INVALID_DATA: int := -0x68
  const TOO_SMALL: int := -0x6C
  const MPI_ALLOC_FAILED: int := -0x10

  const WORD: nat := 0x1_0000_0000
  const INT_LIMIT: int := 0x8000_0000

  // A size converted to a signed 32-bit result.
  function ToInt(n: nat): (r: int)
    ensures -INT_LIMIT <= r < INT_LIMIT
  {
    if n % WORD < INT_LIMIT then n % WORD else n % WORD - WORD
  }

  lemma ToIntRange(n: nat)
    ensures n < INT_LIMIT ==> ToInt(n) == n
    ensures INT_LIMIT <= n < WORD ==> ToInt(n) < 0
  {
  }

  // ---------------------------------------------------------------- the encoding

  // Bytes needed to write a number.
  function Octets(n: nat): nat {
    if n == 0 then 0 else 1 + Octets(n / 256)
  }

  lemma {:induction false} OctetsBounds(n: nat)
    ensures n < Pow(256, Octets(n))
    ensures n > 0 ==> Octets(n) > 0 && Pow(256, Octets(n) - 1) <= n
  {
    if n > 0 {
      OctetsBounds(n / 256);
    }
  }

  lemma OctetsUnique(n: nat, k: nat)
    requires n < Pow(256, k) && (k > 0 ==> Pow(256, k - 1) <= n)
    ensures Octets(n) == k
  {
    OctetsBounds(n);
    if Octets(n) < k { PowMonotone(256, Octets(n), k - 1); }
    if k < Octets(n) { PowMonotone(256, k, Octets(n) - 1); }
  }

  lemma Powers256()
    ensures Pow(256, 0) == 1 && Pow(256, 1) == 0x100 && Pow(256, 2) == 0x1_0000
    ensures Pow(256, 3) == 0x100_0000 && Pow(256, 4) == WORD
  {
    assert Pow(256, 3) == 256 * Pow(256, 2);
    assert Pow(256, 4) == 256 * Pow(256, 3);
  }

  lemma OctetsOfLength(len: nat)
    requires len < WORD
    ensures Octets(len) <= 4
    ensures Octets(len) == if len == 0 then 0 else if len <= 0xFF then 1 else if len <= 0xFFFF then 2 else if len <= 0xFF_FFFF then 3 else 4
  {
    Powers256();
    OctetsUnique(len, if len == 0 then 0 else if len <= 0xFF then 1 else if len <= 0xFFFF then 2 else if len <= 0xFF_FFFF then 3 else 4);
  }

  // The shortest form of a length.
  function LengthBytes(len: nat): (r: seq<Byte>)
    requires len < WORD
    ensures |r| == if len < 0x80 then 1 else 1 + Octets(len)
    ensures 1 <= |r| <= 5
  {
    OctetsOfLength(len);
    if len < 0x80 then [len] else [0x80 + Octets(len)] + BigEndian(len, Octets(len))
  }

  function Header(tag: Byte, len: nat): (r: seq<Byte>)
    requires len < WORD
    ensures |r| == 1 + |LengthBytes(len)|
  {
    [tag] + LengthBytes(len)
  }

  function Element(tag: Byte, content: seq<Byte>): (r: seq<Byte>)
    requires |content| < WORD
    ensures |r| == |Header(tag, |content|)| + |content|
  {
    Header(tag, |content|) + content
  }

  // The magnitude, with a zero byte in front where a non-negative number would look negative.
  function IntegerContent(n: nat, negative: bool): (r: seq<Byte>) {
    var b := BigEndian(n, Octets(n));
    if !negative && b != [] && b[0] >= 0x80 then [0] + b else b
  }

  // A byte with its low bits cleared.
  function Cleared(b: Byte, unused: nat): (r: Byte)
    requires unused <= 7
  {
    DivModSplit(b, Pow(2, unused));
    assert b % Pow(2, unused) <= b by { RemainderAtMost(b, Pow(2, unused)); }
    b - b % Pow(2, unused)
  }

  lemma RemainderAtMost(b: nat, d: nat)
    requires d > 0
    ensures b % d <= b
  {
    if b < d {
      DivModUnique(b, d, 0, b);
    }
  }

  function BitStringContent(buf: seq<Byte>, bits: nat): (r: seq<Byte>)
    requires bits <= 8 * |buf|
    ensures |r| == 1 + (bits + 7) / 8
  {
    var n := (bits + 7) / 8;
    if n == 0 then [0] else [8 * n - bits] + buf[..n - 1] + [Cleared(buf[n - 1], 8 * n - bits)]
  }

  // An object identifier as it is written, with its size kept to 32 bits.
  function OidBytes(oid: seq<Byte>): (r: seq<Byte>) {
    Header(OID, |oid| % WORD) + oid
  }

  // The size the writer of an identifier goes on with.
  function OidLength(oid_len: nat): nat {
    |Header(OID, oid_len % WORD)| + oid_len % WORD
  }

  lemma OidIsElement(oid: seq<Byte>)
    requires |oid| < WORD
    ensures OidBytes(oid) == Element(OID, oid) && OidLength(|oid|) == |Element(OID, oid)|
  {
  }

  // What precedes parameters of the given length, or the whole identifier when there are none.
  function AlgorithmBytes(oid: seq<Byte>, par_len: nat): (r: seq<Byte>)
    requires AlgorithmLength(|oid|, par_len) < WORD
  {
    Header(0x30, AlgorithmLength(|oid|, par_len)) + OidBytes(oid) + NullIf(par_len)
  }

  function NullIf(par_len: nat): (r: seq<Byte>) {
    if par_len == 0 then [NULL, 0] else []
  }

  function AlgorithmLength(oid_len: nat, par_len: nat): nat {
    OidLength(oid_len) + if par_len == 0 then 2 else par_len
  }

  // ---------------------------------------------------------------- writing backwards

  ghost predicate Wrote(was: seq<Byte>, now: seq<Byte>, p: nat, q: nat, bytes: seq<Byte>) {
    p <= |was| && p == q + |bytes| && now == Replaced(was, q, bytes)
  }

  // Nothing outside the room for writing has changed.
  ghost predicate Inside(was: seq<Byte>, now: seq<Byte>, start: nat, p: nat, q: nat) {
    q <= p && (q < p ==> start <= q) && OnlyInside(was, now, start, p)
  }

  lemma WroteInside(was: seq<Byte>, now: seq<Byte>, start: nat, p: nat, q: nat, bytes: seq<Byte>)
    requires Wrote(was, now, p, q, bytes) && (start <= q || q == p)
    ensures Inside(was, now, start, p, q)
  {
  }

  lemma InsideTwice(was: seq<Byte>, mid: seq<Byte>, now: seq<Byte>, start: nat, p: nat, q: nat, r: nat)
    requires Inside(was, mid, start, p, q) && Inside(mid, now, start, q, r)
    ensures Inside(was, now, start, p, r)
  {
  }

  lemma WroteBefore(was: seq<Byte>, mid: seq<Byte>, now: seq<Byte>, p: nat, q: nat, r: nat, a: seq<Byte>, b: seq<Byte>)
    requires Wrote(was, mid, p, q, b) && Wrote(mid, now, q, r, a)
    ensures Wrote(was, now, p, r, a + b)
  {
    ReplacedBefore(was, r, a, b);
  }

  lemma {:induction false} BigEndianFront(n: nat, k: nat)
    ensures BigEndian(n, k + 1) == [ByteAt(n, k)] + BigEndian(n, k)
  {
    var b := BigEndian(n, k + 1);
    assert b[k - k] == ByteAt(n, k) by { BigEndianAt(n, k + 1, k); }
    assert b[1..] == BigEndian(n, k) by { BigEndianTail(n, k); }
  }

  lemma {:induction false} BigEndianTail(n: nat, k: nat)
    ensures BigEndian(n, k + 1)[1..] == BigEndian(n, k)
  {
    if k > 0 {
      BigEndianTail(n / 256, k - 1);
      assert BigEndian(n, k + 1)[1..] == BigEndian(n / 256, k)[1..] + [n % 256];
    }
  }

  // One byte in front of what has been written.
  method PushByte(mem: array<Byte>, p: nat, b: Byte) returns (q: nat)
    requires 0 < p <= mem.Length
    modifies mem
    ensures Wrote(old(mem[..]), mem[..], p, q, [b])
  {
    q := p - 1;
    mem[q] := b;
  }

  // The low bytes of a number, the last one first.
  method PushLow(mem: array<Byte>, p: nat, n: nat, k: nat) returns (q: nat)
    requires k <= p <= mem.Length
    modifies mem
    ensures Wrote(old(mem[..]), mem[..], p, q, BigEndian(n, k))
  {
    ghost var was := mem[..];
    q := p;
    for i := 0 to k
      invariant Wrote(was, mem[..], p, q, BigEndian(n, i))
    {
      hide Wrote, BigEndian, ByteAt;
      WroteRoom(was, mem[..], p, q, BigEndian(n, i));
      ghost var mid, q0 := mem[..], q;
      q := PushByte(mem, q, ByteAt(n, i));
      WroteBefore(was, mid, mem[..], p, q0, q, [ByteAt(n, i)], BigEndian(n, i));
      BigEndianFront(n, i);
    }
  }

  lemma WroteRoom(was: seq<Byte>, now: seq<Byte>, p: nat, q: nat, bytes: seq<Byte>)
    requires Wrote(was, now, p, q, bytes)
    ensures p <= |was| == |now| && p == q + |bytes|
  {
  }

  // A length in its shortest form.
  method WriteLen(mem: array<Byte>, start: nat, p: nat, len: nat) returns (ret: int, q: nat)
    requires p <= mem.Length
    modifies mem
    ensures len < WORD && |LengthBytes(len)| <= p - start ==>
              ret == |LengthBytes(len)| && Wrote(old(mem[..]), mem[..], p, q, LengthBytes(len))
    ensures len < WORD && |LengthBytes(len)| > p - start ==> ret == TOO_SMALL && q == p && mem[..] == old(mem[..])
    ensures len >= WORD ==> ret == INVALID_LENGTH && q == p && mem[..] == old(mem[..])
  {
    q := p;
    ShortLength(len);
    hide Wrote, BigEndian, LengthBytes, Octets;
    if len < 0x80 {
      if p - start < 1 { return TOO_SMALL, q; }
      q := PushByte(mem, q, len);
      return 1, q;
    }
    if len > 0xFFFF_FFFF { return INVALID_LENGTH, q; }
    ghost var was := mem[..];
    var bytes: nat := if len <= 0xFF then 1 else if len <= 0xFFFF then 2 else if len <= 0xFF_FFFF then 3 else 4;
    LongLength(len, bytes);
    if p - start < bytes + 1 { return TOO_SMALL, q; }
    q := PushLow(mem, q, len, bytes);
    ghost var mid, q0 := mem[..], q;
    WroteRoom(was, mid, p, q0, BigEndian(len, bytes));
    q := PushByte(mem, q, 0x80 + bytes);
    WroteBefore(was, mid, mem[..], p, q0, q, [0x80 + bytes], BigEndian(len, bytes));
    ret := bytes + 1;
  }

  lemma ShortLength(len: nat)
    ensures len < 0x80 ==> LengthBytes(len) == [len as Byte]
  {
  }

  lemma LongLength(len: nat, bytes: nat)
    requires 0x80 <= len < WORD
    requires bytes == if len <= 0xFF then 1 else if len <= 0xFFFF then 2 else if len <= 0xFF_FFFF then 3 else 4
    ensures LengthBytes(len) == [0x80 + bytes as Byte] + BigEndian(len, bytes)
  {
    OctetsOfLength(len);
    hide Octets, BigEndian;
  }

  method WriteTag(mem: array<Byte>, start: nat, p: nat, tag: Byte) returns (ret: int, q: nat)
    requires p <= mem.Length
    modifies mem
    ensures p - start >= 1 ==> ret == 1 && Wrote(old(mem[..]), mem[..], p, q, [tag])
    ensures p - start < 1 ==> ret == TOO_SMALL && q == p && mem[..] == old(mem[..])
  {
    if p - start < 1 { return TOO_SMALL, p; }
    q := PushByte(mem, p, tag);
    ret := 1;
  }

  // Length and tag in front of a content: how every element ends.
  method WriteHeader(mem: array<Byte>, start: nat, p: nat, tag: Byte, len: nat) returns (ret: int, q: nat)
    requires p <= mem.Length
    modifies mem
    ensures len < WORD && |Header(tag, len)| <= p - start ==>
              ret == |Header(tag, len)| && Wrote(old(mem[..]), mem[..], p, q, Header(tag, len))
    ensures !(len < WORD && |Header(tag, len)| <= p - start) ==> ret < 0
    ensures Inside(old(mem[..]), mem[..], start, p, q)
  {
    hide LengthBytes, Octets, BigEndian;
    ghost var was := mem[..];
    ret, q := WriteLen(mem, start, p, len);
    if ret < 0 { return; }
    ghost var mid, q0 := mem[..], q;
    var more;
    more, q := WriteTag(mem, start, q, tag);
    if more < 0 {
      ret := more;
      WroteInside(was, mid, start, p, q, LengthBytes(len));
      return;
    }
    WroteBefore(was, mid, mem[..], p, q0, q, [tag], LengthBytes(len));
    WroteInside(was, mem[..], start, p, q, Header(tag, len));
    ret := ret + more;
  }

  method WriteRawBuffer(mem: array<Byte>, start: nat, p: nat, buf: seq<Byte>) returns (ret: int, q: nat)
    requires p <= mem.Length
    modifies mem
    ensures |buf| <= p - start ==> ret == ToInt(|buf|) && Wrote(old(mem[..]), mem[..], p, q, buf)
    ensures |buf| > p - start ==> ret == TOO_SMALL && q == p && mem[..] == old(mem[..])
  {
    if p < start || p - start < |buf| { return TOO_SMALL, p; }
    q := p - |buf|;
    PutBytes(mem, q, buf);
    ret := ToInt(|buf|);
  }

  // Joins a content already written with the header in front of it.
  lemma WroteElement(was: seq<Byte>, mid: seq<Byte>, now: seq<Byte>, start: nat, p: nat, q0: nat, q: nat, tag: Byte, content: seq<Byte>)
    requires |content| < WORD
    requires Wrote(was, mid, p, q0, content) && Wrote(mid, now, q0, q, Header(tag, |content|))
    ensures Wrote(was, now, p, q, Element(tag, content))
  {
    WroteBefore(was, mid, now, p, q0, q, Header(tag, |content|), content);
  }

  // An object identifier, or an error for one that does not fit the room or the 31 bits of a result.
  method WriteOid(mem: array<Byte>, start: nat, p: nat, oid: seq<Byte>) returns (ret: int, q: nat)
    requires p <= mem.Length
    modifies mem
    ensures if |oid| % WORD < INT_LIMIT && |OidBytes(oid)| <= p - start then
              ret == ToInt(OidLength(|oid|)) && Wrote(old(mem[..]), mem[..], p, q, OidBytes(oid))
            else ret < 0
    ensures Inside(old(mem[..]), mem[..], start, p, q)
  {
    hide LengthBytes, Header, Wrote, Replaced, Inside;
    ghost var was := mem[..];
    var raw;
    raw, q := WriteRawBuffer(mem, start, p, oid);
    RawInside(was, mem[..], start, p, q, oid);
    if raw < 0 { return raw, q; }
    ghost var mid, q0 := mem[..], q;
    WroteRoom(was, mid, p, q0, oid);
    ret, q := WriteHeader(mem, start, q, OID, raw);
    InsideTwice(was, mid, mem[..], start, p, q0, q);
    if ret < 0 { return; }
    WroteBefore(was, mid, mem[..], p, q0, q, Header(OID, raw), oid);
    ret := ToInt(raw + ret);
  }

  lemma RawInside(was: seq<Byte>, now: seq<Byte>, start: nat, p: nat, q: nat, bytes: seq<Byte>)
    requires p <= |was|
    requires |bytes| <= p - start ==> Wrote(was, now, p, q, bytes)
    requires |bytes| > p - start ==> q == p && now == was
    ensures Inside(was, now, start, p, q)
  {
  }

  // The magnitude of a number in as many bytes as it needs.
  method WriteMagnitude(mem: array<Byte>, start: nat, p: nat, x: Mpi) returns (ret: int, q: nat)
    requires p <= mem.Length
    modifies mem
    ensures Octets(x.Abs()) <= p - start ==>
              ret == Octets(x.Abs()) && Wrote(old(mem[..]), mem[..], p, q, BigEndian(x.Abs(), Octets(x.Abs())))
    ensures Octets(x.Abs()) > p - start ==> ret < 0 && q == p && mem[..] == old(mem[..])
  {
    hide BigEndian, Octets;
    var len := ByteSize(x);
    OctetsUnique(x.Abs(), len);
    if p < start || p - start < len { return TOO_SMALL, p; }
    q := p - len;
    var status := WriteBinary(x, mem, q, len);
    ret := len;
  }

  // The content of an integer: the sign byte goes in front of the magnitude.
  method WriteIntegerContent(mem: array<Byte>, start: nat, p: nat, x: Mpi) returns (ret: int, q: nat)
    requires p <= mem.Length && x.Abs() != 0
    modifies mem
    ensures var content := IntegerContent(x.Abs(), x.s == -1);
            if |content| <= p - start then ret == |content| && Wrote(old(mem[..]), mem[..], p, q, content) else ret < 0
    ensures Inside(old(mem[..]), mem[..], start, p, q)
  {
    hide Wrote, Replaced, Inside, BigEndian, Octets, IntegerContent;
    ghost var was, b := mem[..], BigEndian(x.Abs(), Octets(x.Abs()));
    ghost var content := IntegerContent(x.Abs(), x.s == -1);
    ret, q := WriteMagnitude(mem, start, p, x);
    IntegerParts(x.Abs(), x.s == -1);
    RawInside(was, mem[..], start, p, q, b);
    if ret < 0 { return; }
    WroteFirst(was, mem[..], p, q, b);
    WroteRoom(was, mem[..], p, q, b);
    if x.s == 1 && mem[q] >= 0x80 {
      if q - start < 1 { return TOO_SMALL, q; }
      ghost var mid, q0 := mem[..], q;
      q := PushByte(mem, q, 0x00);
      WroteBefore(was, mid, mem[..], p, q0, q, [0], b);
      WroteInside(was, mem[..], start, p, q, content);
      ret := ret + 1;
    }
  }

  lemma IntegerParts(n: nat, negative: bool)
    requires n != 0
    ensures var b := BigEndian(n, Octets(n));
            |b| == Octets(n) > 0 && IntegerContent(n, negative) == if !negative && b[0] >= 0x80 then [0] + b else b
  {
    OctetsBounds(n);
  }

  // An integer. A negative one is written as its magnitude.
  method WriteMpi(mem: array<Byte>, start: nat, p: nat, x: Mpi) returns (ret: int, q: nat)
    requires p <= mem.Length && x.Abs() != 0
    modifies mem
    ensures var content := IntegerContent(x.Abs(), x.s == -1);
            if |content| < WORD && |Element(INTEGER, content)| <= p - start then
              ret == ToInt(|Element(INTEGER, content)|) && Wrote(old(mem[..]), mem[..], p, q, Element(INTEGER, content))
            else ret < 0
    ensures Inside(old(mem[..]), mem[..], start, p, q)
  {
    hide LengthBytes, Header, Element, Wrote, Replaced, Inside, IntegerContent;
    ghost var was, content := mem[..], IntegerContent(x.Abs(), x.s == -1);
    ret, q := WriteIntegerContent(mem, start, p, x);
    if ret < 0 { return; }
    WroteRoom(was, mem[..], p, q, content);
    ret, q := FinishElement(mem, start, p, q, INTEGER, ret, was, content);
  }

  lemma WroteFirst(was: seq<Byte>, now: seq<Byte>, p: nat, q: nat, bytes: seq<Byte>)
    requires Wrote(was, now, p, q, bytes) && bytes != []
    ensures q < |now| && now[q] == bytes[0]
  {
  }

  // The header in front of a content, and the size of the whole element.
  method FinishElement(mem: array<Byte>, start: nat, ghost p: nat, q0: nat, tag: Byte, len: nat, ghost was: seq<Byte>, ghost content: seq<Byte>)
    returns (ret: int, q: nat)
    requires p <= mem.Length && Wrote(was, mem[..], p, q0, content) && Inside(was, mem[..], start, p, q0) && len == |content|
    modifies mem
    ensures if |content| < WORD && |Element(tag, content)| <= p - start then
              ret == ToInt(|Element(tag, content)|) && Wrote(was, mem[..], p, q, Element(tag, content))
            else ret < 0
    ensures Inside(was, mem[..], start, p, q)
  {
    hide LengthBytes, Header, Element, Wrote, Replaced, Inside;
    ghost var mid := mem[..];
    WroteRoom(was, mid, p, q0, content);
    ret, q := WriteHeader(mem, start, q0, tag, len);
    InsideTwice(was, mid, mem[..], start, p, q0, q);
    if ret < 0 { return; }
    WroteElement(was, mid, mem[..], start, p, q0, q, tag, content);
    ret := ToInt(len + ret);
  }

  // A bit string whose unused bits are cleared.
  method WriteBitString(mem: array<Byte>, start: nat, p: nat, buf: seq<Byte>, bits: nat) returns (ret: int, q: nat)
    requires p <= mem.Length && bits <= 8 * |buf|
    modifies mem
    ensures var content := BitStringContent(buf, bits);
            if |content| < WORD && |Element(BIT_STRING, content)| <= p - start then
              ret == ToInt(|Element(BIT_STRING, content)|) && Wrote(old(mem[..]), mem[..], p, q, Element(BIT_STRING, content))
            else ret < 0
    ensures Inside(old(mem[..]), mem[..], start, p, q)
  {
    hide LengthBytes, Header, Element, Wrote, Replaced, Inside, Cleared;
    ghost var was := mem[..];
    var byte_len: nat := (bits + 7) / 8;
    var unused: Byte := byte_len * 8 - bits;
    NothingWritten(was, start, p);
    if p < start || p - start < byte_len + 1 { return TOO_SMALL, p; }
    q := p;
    ghost var body: seq<Byte> := [];
    if byte_len > 0 {
      q := PushByte(mem, q, Cleared(buf[byte_len - 1], unused));
      ghost var mid, q0 := mem[..], q;
      WroteRoom(was, mid, p, q0, [Cleared(buf[byte_len - 1], unused)]);
      q := q - (byte_len - 1);
      PutBytes(mem, q, buf[..byte_len - 1]);
      PutIsWrote(mid, mem[..], q0, q, buf[..byte_len - 1]);
      WroteBefore(was, mid, mem[..], p, q0, q, buf[..byte_len - 1], [Cleared(buf[byte_len - 1], unused)]);
      body := buf[..byte_len - 1] + [Cleared(buf[byte_len - 1], unused)];
    }
    ghost var content := BitStringContent(buf, bits);
    ghost var mid, q0 := mem[..], q;
    WroteRoom(was, mid, p, q0, body);
    q := PushByte(mem, q, unused);
    WroteBefore(was, mid, mem[..], p, q0, q, [unused], body);
    assert [unused] + body == content;
    WroteRoom(was, mem[..], p, q, content);
    WroteInside(was, mem[..], start, p, q, content);
    ret, q := FinishElement(mem, start, p, q, BIT_STRING, byte_len + 1, was, content);
  }

  lemma NothingWritten(was: seq<Byte>, start: nat, p: nat)
    requires p <= |was|
    ensures Wrote(was, was, p, p, []) && Inside(was, was, start, p, p)
  {
  }

  lemma PutIsWrote(was: seq<Byte>, now: seq<Byte>, p: nat, q: nat, bytes: seq<Byte>)
    requires p <= |was| && p == q + |bytes| && now == Replaced(was, q, bytes)
    ensures Wrote(was, now, p, q, bytes)
  {
  }

  // The empty parameters.
  method WriteNull(mem: array<Byte>, start: nat, p: nat) returns (ret: int, q: nat)
    requires p <= mem.Length
    modifies mem
    ensures 2 <= p - start ==> ret == 2 && Wrote(old(mem[..]), mem[..], p, q, [NULL, 0])
    ensures 2 > p - start ==> ret < 0
    ensures Inside(old(mem[..]), mem[..], start, p, q)
  {
    ret, q := WriteHeader(mem, start, p, NULL, 0);
  }

  // An algorithm identifier whose parameters, if any, already follow p.
  method WriteAlgorithmIdentifier(mem: array<Byte>, start: nat, p: nat, oid: seq<Byte>, par_len: nat) returns (ret: int, q: nat)
    requires p <= mem.Length
    modifies mem
    ensures if |oid| % WORD < INT_LIMIT && OidLength(|oid|) < INT_LIMIT && AlgorithmLength(|oid|, par_len) < WORD
               && |AlgorithmBytes(oid, par_len)| <= p - start then
              ret == ToInt(|Header(0x30, AlgorithmLength(|oid|, par_len))| + AlgorithmLength(|oid|, par_len))
              && Wrote(old(mem[..]), mem[..], p, q, AlgorithmBytes(oid, par_len))
            else ret < 0
    ensures Inside(old(mem[..]), mem[..], start, p, q)
  {
    hide LengthBytes, Header, Wrote, Replaced, Inside, AlgorithmBytes, OidBytes;
    ghost var was := mem[..];
    var len: nat := par_len;
    NothingWritten(was, start, p);
    q := p;
    AlgorithmSize(oid, par_len);
    if par_len == 0 {
      ret, q := WriteNull(mem, start, p);
      if ret < 0 { return; }
      len := ret;
    }
    ghost var mid, q0 := mem[..], q;
    WroteRoom(was, mid, p, q0, NullIf(par_len));
    ret, q := WriteOid(mem, start, q, oid);
    InsideTwice(was, mid, mem[..], start, p, q0, q);
    OidLengthRange(|oid|);
    if ret < 0 { return; }
    ghost var mid1, q1 := mem[..], q;
    WroteBefore(was, mid, mid1, p, q0, q1, OidBytes(oid), NullIf(par_len));
    WroteRoom(was, mid1, p, q1, OidBytes(oid) + NullIf(par_len));
    len := len + ret;
    ret, q := WriteHeader(mem, start, q, CONSTRUCTED + SEQUENCE, len);
    InsideTwice(was, mid1, mem[..], start, p, q1, q);
    if ret < 0 { return; }
    WroteBefore(was, mid1, mem[..], p, q1, q, Header(0x30, len), OidBytes(oid) + NullIf(par_len));
    AlgorithmParts(oid, par_len);
    ret := ToInt(len + ret);
  }

  lemma OidLengthRange(oid_len: nat)
    ensures OidLength(oid_len) < INT_LIMIT ==> ToInt(OidLength(oid_len)) == OidLength(oid_len)
    ensures oid_len % WORD < INT_LIMIT <= OidLength(oid_len) ==> ToInt(OidLength(oid_len)) < 0
  {
    ToIntRange(OidLength(oid_len));
  }

  lemma AlgorithmSize(oid: seq<Byte>, par_len: nat)
    ensures AlgorithmLength(|oid|, par_len) < WORD ==>
              |AlgorithmBytes(oid, par_len)| == |Header(0x30, AlgorithmLength(|oid|, par_len))| + |OidBytes(oid)| + |NullIf(par_len)|
  {
    hide LengthBytes;
  }

  lemma AlgorithmParts(oid: seq<Byte>, par_len: nat)
    requires AlgorithmLength(|oid|, par_len) < WORD
    ensures AlgorithmBytes(oid, par_len) == Header(0x30, AlgorithmLength(|oid|, par_len)) + (OidBytes(oid) + NullIf(par_len))
  {
    hide LengthBytes, Header, OidBytes;
  }

  // ---------------------------------------------------------------- parsing

  // What a parser found and where the rest begins, or the error it reports.
  datatype Parsed<T> = Found(value: T, next: nat) | Bad(error: int)

  // A stretch of the input with the tag in front of it.
  datatype Part = Part(tag: Byte, at: nat, len: nat)

  datatype BitString = BitString(unused: Byte, at: nat, len: nat)

  datatype Algorithm = Algorithm(alg: Part, params: Part)

  // Reads a length in one of its five forms, not only the shortest.
  function LengthAt(data: seq<Byte>, p: nat, end: nat): (r: Parsed<nat>)
    requires end <= |data|
    ensures r.Found? ==> p < r.next && r.next + r.value <= end && r.value < WORD
  {
    if end - p < 1 then Bad(OUT_OF_DATA)
    else
      var k := if data[p] < 0x80 then 0 else data[p] - 0x80;
      if k > 4 || data[p] == 0x80 then Bad(INVALID_LENGTH)
      else if end - p < k + 1 then Bad(OUT_OF_DATA)
      else
        var octets := data[p + 1..p + 1 + k];
        var len := if data[p] < 0x80 then data[p] else FromBigEndian(octets);
        Powers256();
        FromBigEndianBound(octets);
        PowMonotone(256, k, 4);
        if len > end - (p + 1 + k) then Bad(OUT_OF_DATA) else Found(len, p + 1 + k)
  }

  function ElementAt(data: seq<Byte>, p: nat, end: nat, tag: Byte): (r: Parsed<nat>)
    requires end <= |data|
    ensures r.Found? ==> p < r.next && r.next + r.value <= end && r.value < WORD
  {
    if end - p < 1 then Bad(OUT_OF_DATA)
    else if data[p] != tag then Bad(UNEXPECTED_TAG)
    else LengthAt(data, p + 1, end)
  }

  function IntegerAt(data: seq<Byte>, p: nat, end: nat): (r: Parsed<nat>)
    requires end <= |data|
  {
    match ElementAt(data, p, end, INTEGER)
    case Found(len, next) => Found(FromBigEndian(data[next..next + len]), next + len)
    case Bad(e) => Bad(e)
  }

  function BitStringAt(data: seq<Byte>, p: nat, end: nat): (r: Parsed<BitString>)
    requires end <= |data|
  {
    match ElementAt(data, p, end, BIT_STRING)
    case Bad(e) => Bad(e)
    case Found(len, next) =>
      if len < 1 then Bad(OUT_OF_DATA)
      else if data[next] > 7 then Bad(INVALID_LENGTH)
      else if next + len != end then Bad(LENGTH_MISMATCH)
      else Found(BitString(data[next], next + 1, len - 1), end)
  }

  const NO_PART := Part(0, 0, 0)

  function AlgorithmAt(data: seq<Byte>, p: nat, end: nat): (r: Parsed<Algorithm>)
    requires end <= |data|
  {
    match ElementAt(data, p, end, CONSTRUCTED + SEQUENCE)
    case Bad(e) => Bad(e)
    case Found(len, next) => if end - next < 1 then Bad(OUT_OF_DATA) else AlgorithmBodyAt(data, next, next + len)
  }

  function AlgorithmBodyAt(data: seq<Byte>, p: nat, end: nat): (r: Parsed<Algorithm>)
    requires end <= |data|
  {
    match ElementAt(data, p, end, OID)
    case Bad(e) => Bad(e)
    case Found(len, next) =>
      var alg := Part(OID, next, len);
      if next + len == end then Found(Algorithm(alg, NO_PART), end)
      else
        match LengthAt(data, next + len + 1, end)
        case Bad(e) => Bad(e)
        case Found(plen, at) =>
          if at + plen != end then Bad(LENGTH_MISMATCH)
          else Found(Algorithm(alg, Part(data[next + len], at, plen)), end)
  }

  // An identifier that must come without parameters.
  function AlgorithmNullAt(data: seq<Byte>, p: nat, end: nat): (r: Parsed<Part>)
    requires end <= |data|
  {
    match AlgorithmAt(data, p, end)
    case Bad(e) => Bad(e)
    case Found(a, next) =>
      if (a.params.tag != NULL && a.params.tag != 0) || a.params.len != 0 then Bad(INVALID_DATA) else Found(a.alg, next)
  }

  lemma FromDigits(s: seq<Byte>)
    ensures |s| == 1 ==> FromBigEndian(s) == s[0]
    ensures |s| == 2 ==> FromBigEndian(s) == 0x100 * (s[0] as nat) + s[1]
    ensures |s| == 3 ==> FromBigEndian(s) == 0x1_0000 * (s[0] as nat) + 0x100 * (s[1] as nat) + s[2]
    ensures |s| == 4 ==> FromBigEndian(s) == 0x100_0000 * (s[0] as nat) + 0x1_0000 * (s[1] as nat) + 0x100 * (s[2] as nat) + s[3]
  {
    if 1 < |s| <= 4 {
      var t := s[..|s| - 1];
      FromDigits(t);
    }
  }

  lemma LengthDigits(data: seq<Byte>, at: nat, k: nat)
    requires at + k <= |data|
    ensures k == 1 ==> FromBigEndian(data[at..at + k]) == data[at]
    ensures k == 2 ==> FromBigEndian(data[at..at + k]) == 0x100 * (data[at] as nat) + data[at + 1]
    ensures k == 3 ==> FromBigEndian(data[at..at + k]) == 0x1_0000 * (data[at] as nat) + 0x100 * (data[at + 1] as nat) + data[at + 2]
    ensures k == 4 ==>
              FromBigEndian(data[at..at + k])
              == 0x100_0000 * (data[at] as nat) + 0x1_0000 * (data[at + 1] as nat) + 0x100 * (data[at + 2] as nat) + data[at + 3]
  {
    FromDigits(data[at..at + k]);
    hide FromBigEndian;
  }

  method GetLen(data: seq<Byte>, p: nat, end: nat) returns (ret: int, q: nat, len: nat)
    requires end <= |data|
    ensures LengthAt(data, p, end) == if ret == 0 then Found(len, q) else Bad(ret)
  {
    hide FromBigEndian;
    q, len := p, 0;
    if end - p < 1 { return OUT_OF_DATA, q, len; }
    if data[p] < 0x80 {
      len := data[p];
      q := p + 1;
    } else {
      var k: nat := data[p] - 0x80;
      if k == 0 || k > 4 { return INVALID_LENGTH, q, len; }
      if end - p < k + 1 { return OUT_OF_DATA, q, len; }
      LengthDigits(data, p + 1, k);
      if k == 1 {
        len := data[p + 1];
      } else if k == 2 {
        len := 0x100 * (data[p + 1] as nat) + data[p + 2];
      } else if k == 3 {
        len := 0x1_0000 * (data[p + 1] as nat) + 0x100 * (data[p + 2] as nat) + data[p + 3];
      } else {
        len := 0x100_0000 * (data[p + 1] as nat) + 0x1_0000 * (data[p + 2] as nat) + 0x100 * (data[p + 3] as nat) + data[p + 4];
      }
      q := p + k + 1;
    }
    if len > end - q { return OUT_OF_DATA, q, len; }
    ret := 0;
  }

  method GetTag(data: seq<Byte>, p: nat, end: nat, tag: Byte) returns (ret: int, q: nat, len: nat)
    requires end <= |data|
    ensures ElementAt(data, p, end, tag) == if ret == 0 then Found(len, q) else Bad(ret)
  {
    if end - p < 1 { return OUT_OF_DATA, p, 0; }
    if data[p] != tag { return UNEXPECTED_TAG, p, 0; }
    ret, q, len := GetLen(data, p + 1, end);
  }

  // Reads an integer; only memory can run out once the element itself is accepted.
  method GetMpi(data: seq<Byte>, p: nat, end: nat, x: Mpi) returns (ret: int, q: nat)
    requires end <= |data|
    modifies x
    ensures ret == 0 ==> IntegerAt(data, p, end) == Found(x.Abs(), q) && x.Value() == x.Abs()
    ensures ret == MPI_ALLOC_FAILED || ret == 0 || IntegerAt(data, p, end) == Bad(ret)
    ensures IntegerAt(data, p, end).Bad? ==> x.p == old(x.p) && x.s == old(x.s)
  {
    var len;
    ret, q, len := GetTag(data, p, end, INTEGER);
    if ret != 0 { return; }
    var status := ReadBinary(x, data[q..q + len]);
    q := q + len;
    if status.Ok? {
      PositiveIsMagnitude(x);
    } else {
      ret := MPI_ALLOC_FAILED;
    }
  }

  lemma PositiveIsMagnitude(x: Mpi)
    requires x.Value() >= 0
    ensures x.Abs() == x.Value()
  {
  }

  method GetBitString(data: seq<Byte>, p: nat, end: nat) returns (ret: int, q: nat, bs: BitString)
    requires end <= |data|
    ensures BitStringAt(data, p, end) == if ret == 0 then Found(bs, q) else Bad(ret)
  {
    bs := BitString(0, 0, 0);
    var len;
    ret, q, len := GetTag(data, p, end, BIT_STRING);
    if ret != 0 { return; }
    if len < 1 { return OUT_OF_DATA, q, bs; }
    bs := bs.(len := len - 1, unused := data[q]);
    if bs.unused > 7 { return INVALID_LENGTH, q, bs; }
    q := q + 1;
    bs := bs.(at := q);
    q := q + bs.len;
    if q != end { return LENGTH_MISMATCH, q, bs; }
    ret := 0;
  }

  method GetAlg(data: seq<Byte>, p: nat, end0: nat) returns (ret: int, q: nat, a: Algorithm)
    requires end0 <= |data|
    ensures AlgorithmAt(data, p, end0) == if ret == 0 then Found(a, q) else Bad(ret)
  {
    a := Algorithm(NO_PART, NO_PART);
    var len;
    ret, q, len := GetTag(data, p, end0, CONSTRUCTED + SEQUENCE);
    if ret != 0 { return; }
    if end0 - q < 1 { return OUT_OF_DATA, q, a; }
    var tag := data[q];
    var end := q + len;
    ret, q, len := GetTag(data, q, end, OID);
    if ret != 0 { return; }
    a := a.(alg := Part(tag, q, len));
    q := q + len;
    if q == end { return; }
    tag := data[q];
    q := q + 1;
    ret, q, len := GetLen(data, q, end);
    if ret != 0 { return; }
    a := a.(params := Part(tag, q, len));
    q := q + len;
    if q != end { ret := LENGTH_MISMATCH; }
  }

  method GetAlgNull(data: seq<Byte>, p: nat, end: nat) returns (ret: int, q: nat, alg: Part)
    requires end <= |data|
    ensures AlgorithmNullAt(data, p, end) == if ret == 0 then Found(alg, q) else Bad(ret)
  {
    var a;
    ret, q, a := GetAlg(data, p, end);
    alg := a.alg;
    if ret == 0 && ((a.params.tag != NULL && a.params.tag != 0) || a.params.len != 0) { ret := INVALID_DATA; }
  }

  // ---------------------------------------------------------------- what is accepted

  // One of the five forms of a length.
  predicate IsLength(form: seq<Byte>, len: nat) {
    || (|form| == 1 && form[0] < 0x80 && len == form[0])
    || (2 <= |form| <= 5 && form[0] == 0x80 + (|form| - 1) && len == FromBigEndian(form[1..]))
  }

  // A tag at p, a form of length n up to at, and n bytes of content before the end.
  predicate IsElement(data: seq<Byte>, p: nat, end: nat, tag: Byte, len: nat, at: nat) {
    p + 1 < at && at + len <= end <= |data| && data[p] == tag && IsLength(data[p + 1..at], len)
  }

  // An element whose content lies from at to next.
  predicate Spans(data: seq<Byte>, p: nat, end: nat, tag: Byte, at: nat, next: nat) {
    at <= next && IsElement(data, p, end, tag, next - at, at)
  }

  lemma LengthFound(data: seq<Byte>, p: nat, end: nat, len: nat, next: nat)
    requires end <= |data|
    ensures LengthAt(data, p, end) == Found(len, next)
       <==> p < next && next + len <= end && IsLength(data[p..next], len)
  {
    hide FromBigEndian;
    if p < next && next + len <= end {
      var form := data[p..next];
      assert form[0] == data[p] && form[1..] == data[p + 1..next];
    }
  }

  lemma ElementFound(data: seq<Byte>, p: nat, end: nat, tag: Byte, len: nat, at: nat)
    requires end <= |data|
    ensures ElementAt(data, p, end, tag) == Found(len, at) <==> IsElement(data, p, end, tag, len, at)
  {
    hide LengthAt, IsLength;
    LengthFound(data, p + 1, end, len, at);
  }

  // An integer is accepted exactly for a tag, a form of length and a content, which it then stands for.
  lemma IntegerFound(data: seq<Byte>, p: nat, end: nat, n: nat, next: nat)
    requires end <= |data|
    ensures IntegerAt(data, p, end) == Found(n, next)
       <==> exists at: nat :: Spans(data, p, end, 0x02, at, next) && n == FromBigEndian(data[at..next])
  {
    hide ElementAt, IsElement, FromBigEndian;
    forall at: nat | Spans(data, p, end, INTEGER, at, next) ensures at <= next <= |data| {
      ElementRoom(data, p, end, INTEGER, next - at, at);
    }
    var r := ElementAt(data, p, end, INTEGER);
    if r.Found? {
      ElementFound(data, p, end, INTEGER, r.value, r.next);
      assert Spans(data, p, end, INTEGER, r.next, r.next + r.value);
    }
    forall at: nat | Spans(data, p, end, INTEGER, at, next)
      ensures r == Found(next - at as nat, at)
    {
      ElementFound(data, p, end, INTEGER, next - at, at);
    }
  }

  // A bit string is accepted exactly when its element fills the input and begins with at most seven.
  lemma BitStringFound(data: seq<Byte>, p: nat, end: nat, bs: BitString, next: nat)
    requires end <= |data|
    ensures BitStringAt(data, p, end) == Found(bs, next)
       <==> && bs.at > 0 && IsElement(data, p, end, 0x03, bs.len + 1, bs.at - 1)
            && data[bs.at - 1] == bs.unused <= 7 && bs.at + bs.len == end == next
  {
    hide ElementAt, IsElement;
    var r := ElementAt(data, p, end, BIT_STRING);
    if r.Found? {
      ElementFound(data, p, end, BIT_STRING, r.value, r.next);
    }
    if bs.at > 0 {
      ElementFound(data, p, end, BIT_STRING, bs.len + 1, bs.at - 1);
      ElementRoom(data, p, end, BIT_STRING, bs.len + 1, bs.at - 1);
    }
  }

  lemma ElementRoom(data: seq<Byte>, p: nat, end: nat, tag: Byte, len: nat, at: nat)
    ensures IsElement(data, p, end, tag, len, at) ==> p < at && at + len <= end <= |data|
  {
  }

  // A sequence of an object identifier and, unless that fills it, one element of parameters.
  predicate IsAlgorithm(data: seq<Byte>, p: nat, end: nat, a: Algorithm) {
    && a.alg.tag == 0x06 && IsElement(data, p, end, 0x06, a.alg.len, a.alg.at)
    && if a.alg.at + a.alg.len == end then a.params == NO_PART
       else
         && IsElement(data, a.alg.at + a.alg.len, end, a.params.tag, a.params.len, a.params.at)
         && a.params.at + a.params.len == end
  }

  lemma AlgorithmBodyFound(data: seq<Byte>, p: nat, end: nat, a: Algorithm, next: nat)
    requires end <= |data|
    ensures AlgorithmBodyAt(data, p, end) == Found(a, next) <==> next == end && IsAlgorithm(data, p, end, a)
  {
    hide ElementAt, LengthAt, IsLength;
    var r := ElementAt(data, p, end, OID);
    if r.Found? {
      ElementFound(data, p, end, OID, r.value, r.next);
      var rest := r.next + r.value;
      var params := LengthAt(data, rest + 1, end);
      if params.Found? {
        LengthFound(data, rest + 1, end, params.value, params.next);
      }
      LengthFound(data, rest + 1, end, a.params.len, a.params.at);
    }
    ElementFound(data, p, end, OID, a.alg.len, a.alg.at);
  }

  // An identifier is accepted exactly for a sequence of that form, and its parts are where they are found.
  lemma AlgorithmAccepted(data: seq<Byte>, p: nat, end: nat, a: Algorithm, next: nat)
    requires end <= |data|
    ensures AlgorithmAt(data, p, end) == Found(a, next)
       <==> exists at: nat :: Spans(data, p, end, 0x30, at, next) && IsAlgorithm(data, at, next, a)
  {
    hide ElementAt, IsElement, IsAlgorithm, AlgorithmBodyAt;
    var r := ElementAt(data, p, end, 0x30);
    if r.Found? {
      ElementFound(data, p, end, 0x30, r.value, r.next);
      assert Spans(data, p, end, 0x30, r.next, r.next + r.value);
      AlgorithmBodyFound(data, r.next, r.next + r.value, a, next);
    }
    forall at: nat | Spans(data, p, end, 0x30, at, next) && IsAlgorithm(data, at, next, a)
      ensures r == Found(next - at as nat, at) && at < next
    {
      ElementFound(data, p, end, 0x30, next - at, at);
      AlgorithmRoom(data, at, next, a);
    }
  }

  lemma AlgorithmRoom(data: seq<Byte>, p: nat, end: nat, a: Algorithm)
    requires IsAlgorithm(data, p, end, a)
    ensures p < end
  {
  }

  // ---------------------------------------------------------------- round trips

  // The bytes lie at a place, before the end.
  ghost predicate Holds(data: seq<Byte>, p: nat, end: nat, bytes: seq<Byte>) {
    p + |bytes| <= end <= |data| && data[p..p + |bytes|] == bytes
  }

  // What has been written is there to be read.
  lemma WrittenIsThere(was: seq<Byte>, now: seq<Byte>, p: nat, q: nat, bytes: seq<Byte>)
    requires Wrote(was, now, p, q, bytes)
    ensures Holds(now, q, p, bytes)
  {
    assert Replaced(was, q, bytes)[q..q + |bytes|] == bytes;
  }

  lemma HoldsParts(data: seq<Byte>, p: nat, end: nat, a: seq<Byte>, b: seq<Byte>)
    requires Holds(data, p, end, a + b)
    ensures Holds(data, p, end, a) && Holds(data, p + |a|, end, b)
  {
    var s := data[p..p + |a + b|];
    assert data[p..p + |a|] == s[..|a|] == a;
    assert data[p + |a|..p + |a| + |b|] == s[|a|..] == b;
  }

  lemma HoldsByte(data: seq<Byte>, p: nat, end: nat, b: Byte)
    requires Holds(data, p, end, [b])
    ensures p < end <= |data| && data[p] == b
  {
    assert data[p..p + 1][0] == data[p];
  }

  lemma LengthBytesForm(len: nat)
    requires len < WORD
    ensures IsLength(LengthBytes(len), len)
  {
    if len >= 0x80 {
      OctetsOfLength(len);
      OctetsBounds(len);
      FromBigEndianOf(len, Octets(len));
      hide Octets, BigEndian, FromBigEndian;
      assert LengthBytes(len)[1..] == BigEndian(len, Octets(len));
    }
  }

  lemma LengthRead(data: seq<Byte>, p: nat, end: nat, len: nat)
    requires len < WORD && Holds(data, p, end, LengthBytes(len))
    requires p + |LengthBytes(len)| + len <= end
    ensures LengthAt(data, p, end) == Found(len, p + |LengthBytes(len)|)
  {
    LengthBytesForm(len);
    hide LengthBytes, LengthAt, IsLength;
    LengthFound(data, p, end, len, p + |LengthBytes(len)|);
  }

  lemma ShortestDigits(octets: seq<Byte>, len: nat)
    requires len < WORD && len == FromBigEndian(octets)
    ensures Octets(len) <= |octets| && (Octets(len) == |octets| ==> BigEndian(len, Octets(len)) == octets)
  {
    FromBigEndianBound(octets);
    OctetsBounds(len);
    if |octets| < Octets(len) {
      PowMonotone(256, |octets|, Octets(len) - 1);
    }
    BigEndianOf(octets);
  }

  // Of the forms the parser takes for one length, the writer's is the shortest, and the only one that short.
  lemma WriterIsShortest(data: seq<Byte>, p: nat, end: nat)
    requires end <= |data| && LengthAt(data, p, end).Found?
    ensures var r := LengthAt(data, p, end);
            |LengthBytes(r.value)| <= r.next - p
            && (|LengthBytes(r.value)| == r.next - p <==> data[p..r.next] == LengthBytes(r.value))
  {
    var r := LengthAt(data, p, end);
    LengthFound(data, p, end, r.value, r.next);
    hide LengthAt;
    ShortestForm(data[p..r.next], r.value);
  }

  lemma ShortestForm(form: seq<Byte>, len: nat)
    requires len < WORD && IsLength(form, len)
    ensures |LengthBytes(len)| <= |form| && (|LengthBytes(len)| == |form| <==> form == LengthBytes(len))
  {
    hide Octets, BigEndian, FromBigEndian;
    if |form| > 1 {
      ShortestDigits(form[1..], len);
      assert form == [form[0]] + form[1..];
    }
  }

  lemma ElementRead(data: seq<Byte>, p: nat, end: nat, tag: Byte, len: nat)
    requires len < WORD && Holds(data, p, end, Header(tag, len)) && p + |Header(tag, len)| + len <= end
    ensures ElementAt(data, p, end, tag) == Found(len, p + |Header(tag, len)|)
  {
    HoldsParts(data, p, end, [tag], LengthBytes(len));
    HoldsByte(data, p, end, tag);
    LengthRead(data, p + 1, end, len);
  }

  lemma ContentRead(data: seq<Byte>, p: nat, end: nat, tag: Byte, content: seq<Byte>)
    requires |content| < WORD && Holds(data, p, end, Element(tag, content))
    ensures p + |Element(tag, content)| <= end <= |data|
    ensures var r := ElementAt(data, p, end, tag);
            r.Found? && r.value == |content| && r.next + |content| == p + |Element(tag, content)|
            && data[r.next..r.next + |content|] == content
  {
    hide LengthBytes, Header;
    HoldsParts(data, p, end, Header(tag, |content|), content);
    ElementRead(data, p, end, tag, |content|);
  }

  // The content of an integer stands for its magnitude, whatever the sign.
  lemma IntegerContentValue(n: nat, negative: bool)
    ensures FromBigEndian(IntegerContent(n, negative)) == n
    ensures !negative && n > 0 ==> IntegerContent(n, negative) != [] && IntegerContent(n, negative)[0] < 0x80
  {
    var b := BigEndian(n, Octets(n));
    OctetsBounds(n);
    FromBigEndianOf(n, Octets(n));
    FromBigEndianConcat([0], b);
  }

  // Section 8.3.2 of X.690: of a positive integer the first nine bits are not all alike, so no shorter
  // content would do.
  lemma IntegerContentShortest(n: nat)
    requires n > 0
    ensures var c := IntegerContent(n, false);
            c != [] && c[0] < 0x80 && (c[0] == 0 ==> |c| > 1 && c[1] >= 0x80)
  {
    OctetsBounds(n);
    FirstOctet(n);
    hide Octets, BigEndian;
  }

  lemma FirstOctet(n: nat)
    requires n > 0
    ensures Octets(n) > 0 && BigEndian(n, Octets(n))[0] > 0
  {
    var k: nat := Octets(n) - 1;
    OctetsBounds(n);
    BigEndianAt(n, k + 1, k);
    var w := Pow(256, k);
    assert Pow(256, k + 1) == 256 * w;
    hide Pow, BigEndian, Octets;
    QuotientBelow(n, w, n / w);
  }

  // An integer written is read back exactly, to the end of what was written, just when it is not negative.
  lemma IntegerRoundTrip(data: seq<Byte>, p: nat, end: nat, n: nat, negative: bool)
    requires |IntegerContent(n, negative)| < WORD
    requires Holds(data, p, end, Element(INTEGER, IntegerContent(n, negative)))
    ensures IntegerAt(data, p, end) == Found(n, p + |Element(INTEGER, IntegerContent(n, negative))|)
    ensures IntegerAt(data, p, end).value == (if negative then -(n as int) else n) <==> !negative || n == 0
  {
    hide Element, IntegerContent;
    ContentRead(data, p, end, INTEGER, IntegerContent(n, negative));
    IntegerContentValue(n, negative);
  }

  // What the writer leaves in memory is what the parser finds there.
  lemma WrittenIntegerIsRead(was: seq<Byte>, now: seq<Byte>, p: nat, q: nat, n: nat, negative: bool)
    requires |IntegerContent(n, negative)| < WORD
    requires Wrote(was, now, p, q, Element(INTEGER, IntegerContent(n, negative)))
    ensures IntegerAt(now, q, p) == Found(n, p)
  {
    hide Element, IntegerContent, IntegerAt;
    WrittenIsThere(was, now, p, q, Element(INTEGER, IntegerContent(n, negative)));
    IntegerRoundTrip(now, q, p, n, negative);
    WroteRoom(was, now, p, q, Element(INTEGER, IntegerContent(n, negative)));
  }

  // Bit i of a byte string, the high bit of each byte first.
  function BitOf(s: seq<Byte>, i: nat): nat
    requires i < 8 * |s|
  {
    BitIn(s[i / 8], i % 8)
  }

  function BitIn(b: Byte, j: nat): nat
    requires j < 8
  {
    BitAt(b, 7 - j)
  }

  // A number rounded down to a multiple of d.
  function RoundedDown(b: nat, d: nat): (r: nat)
    requires d > 0
  {
    b / d * d
  }

  // Bits above a cut survive rounding down to it.
  lemma AboveCut(b: nat, d: nat, f: nat, e: nat)
    requires d > 0 && f > 0 && e == d * f
    ensures e > 0 && RoundedDown(b, d) / e == b / e
  {
    var high := b / d;
    DivDiv(b, d, f);
    DivDiv(high * d, d, f);
    DivModUnique(high * d, d, high, 0);
  }

  // Bits below the cut become zero.
  lemma BelowCut(b: nat, d: nat, e: nat, f: nat)
    requires e > 0 && d == e * (2 * f) && d > 0
    ensures RoundedDown(b, d) / e % 2 == 0
  {
    var high := b / d;
    var h := high * f;
    assert high * d == (2 * h) * e by {
      Commute(e, 2 * f);
      assert high * ((2 * f) * e) == (high * (2 * f)) * e by { MulAssoc(high, 2 * f, e); }
      assert high * (2 * f) == 2 * h;
    }
    DivModUnique(high * d, e, 2 * h, 0);
    assert (2 * h) % 2 == 0;
  }

  lemma CutBits(b: nat, unused: nat, j: nat)
    requires unused <= 7 && j < 8
    ensures BitAt(RoundedDown(b, Pow(2, unused)), 7 - j) == if j + unused < 8 then BitAt(b, 7 - j) else 0
  {
    hide RoundedDown;
    if j + unused < 8 {
      PowAdd(2, unused, 7 - j - unused);
      AboveCut(b, Pow(2, unused), Pow(2, 7 - j - unused), Pow(2, 7 - j));
    } else {
      var f := Pow(2, unused - (8 - j));
      PowAdd(2, 7 - j, unused - (7 - j));
      assert Pow(2, unused - (7 - j)) == 2 * f;
      BelowCut(b, Pow(2, unused), Pow(2, 7 - j), f);
    }
  }

  lemma ClearedBits(b: Byte, unused: nat, j: nat)
    requires unused <= 7 && j < 8
    ensures BitIn(Cleared(b, unused), j) == if j + unused < 8 then BitIn(b, j) else 0
  {
    CutBits(b, unused, j);
    ClearedDown(b, unused);
    hide Pow, BitAt, Cleared, RoundedDown;
  }

  lemma ClearedDown(b: Byte, unused: nat)
    requires unused <= 7
    ensures Cleared(b, unused) == RoundedDown(b, Pow(2, unused))
  {
    var d := Pow(2, unused);
    hide Pow;
    DivModSplit(b, d);
    Commute(d, b / d);
  }

  // Every bit of a bit string is read back, the rest of the last byte is zero, and nothing may follow.
  lemma BitStringRoundTrip(data: seq<Byte>, p: nat, end: nat, buf: seq<Byte>, bits: nat)
    requires bits <= 8 * |buf| && |BitStringContent(buf, bits)| < WORD
    requires Holds(data, p, end, Element(BIT_STRING, BitStringContent(buf, bits)))
    ensures var stop := p + |Element(BIT_STRING, BitStringContent(buf, bits))|; var r := BitStringAt(data, p, end);
            if stop < end then r == Bad(LENGTH_MISMATCH)
            else
              r.Found? && r.next == end && r.value.at + r.value.len == end && 8 * r.value.len == bits + r.value.unused
              && forall i :: 0 <= i < 8 * r.value.len ==>
                   BitOf(data[r.value.at..r.value.at + r.value.len], i) == if i < bits then BitOf(buf, i) else 0
  {
    var content := BitStringContent(buf, bits);
    ContentRead(data, p, end, BIT_STRING, content);
    var next := ElementAt(data, p, end, BIT_STRING).next;
    assert data[next] == data[next..next + |content|][0] == content[0];
    if next + |content| == end {
      var got := data[next + 1..end];
      assert got == content[1..];
      forall i: nat | i < 8 * |got| ensures BitOf(got, i) == if i < bits then BitOf(buf, i) else 0 {
        ContentBit(buf, bits, i);
      }
    }
  }

  lemma ContentBit(buf: seq<Byte>, bits: nat, i: nat)
    requires bits <= 8 * |buf| && i < 8 * ((bits + 7) / 8)
    ensures BitOf(BitStringContent(buf, bits)[1..], i) == if i < bits then BitOf(buf, i) else 0
  {
    hide Cleared, BitIn;
    var n := (bits + 7) / 8;
    var got := BitStringContent(buf, bits)[1..];
    if i / 8 < n - 1 {
      assert got[i / 8] == buf[i / 8];
    } else {
      assert got[i / 8] == Cleared(buf[n - 1], 8 * n - bits);
      ClearedBits(buf[n - 1], 8 * n - bits, i % 8);
    }
  }

  // An identifier as the parser goes through it: header, object identifier, parameters.
  function AlgorithmParameters(oid: seq<Byte>, tag: Byte, content: seq<Byte>): seq<Byte>
    requires |oid| < WORD && |content| < WORD && |Element(OID, oid)| + |Element(tag, content)| < WORD
  {
    Header(0x30, |Element(OID, oid)| + |Element(tag, content)|) + (Element(OID, oid) + Element(tag, content))
  }

  ghost predicate AlgorithmFound(data: seq<Byte>, p: nat, end: nat, stop: nat, oid: seq<Byte>, tag: Byte, content: seq<Byte>)
    requires end <= |data| && stop <= |data|
  {
    var r := AlgorithmAt(data, p, end);
    && r.Found? && r.next == stop
    && r.value.alg.tag == OID && r.value.alg.len == |oid| && Holds(data, r.value.alg.at, stop, oid)
    && r.value.params.tag == tag && r.value.params.len == |content| && Holds(data, r.value.params.at, stop, content)
  }

  lemma HoldsUpTo(data: seq<Byte>, p: nat, end: nat, stop: nat, bytes: seq<Byte>)
    requires Holds(data, p, end, bytes) && p + |bytes| <= stop <= |data|
    ensures Holds(data, p, stop, bytes)
  {
  }

  lemma AlgorithmBodyRead(data: seq<Byte>, p: nat, end: nat, oid: seq<Byte>, tag: Byte, content: seq<Byte>)
    requires |oid| < WORD && |content| < WORD
    requires Holds(data, p, end, Element(OID, oid) + Element(tag, content))
    requires p + |Element(OID, oid)| + |Element(tag, content)| == end
    ensures var r := AlgorithmBodyAt(data, p, end);
            && r.Found? && r.next == end
            && r.value.alg.tag == OID && r.value.alg.len == |oid| && Holds(data, r.value.alg.at, end, oid)
            && r.value.params.tag == tag && r.value.params.len == |content| && Holds(data, r.value.params.at, end, content)
  {
    hide LengthBytes, LengthAt, Header, Element;
    var a, b := Element(OID, oid), Element(tag, content);
    HoldsParts(data, p, end, a, b);
    ContentRead(data, p, end, OID, oid);
    ContentRead(data, p + |a|, end, tag, content);
  }

  lemma AlgorithmRead(data: seq<Byte>, p: nat, end: nat, oid: seq<Byte>, tag: Byte, content: seq<Byte>)
    requires |oid| < WORD && |content| < WORD && |Element(OID, oid)| + |Element(tag, content)| < WORD
    requires Holds(data, p, end, AlgorithmParameters(oid, tag, content))
    ensures end <= |data| && p + |AlgorithmParameters(oid, tag, content)| <= end
    ensures AlgorithmFound(data, p, end, p + |AlgorithmParameters(oid, tag, content)|, oid, tag, content)
  {
    hide LengthBytes, LengthAt, Header, Element, ElementAt;
    var body := Element(OID, oid) + Element(tag, content);
    var stop := p + |AlgorithmParameters(oid, tag, content)|;
    HoldsParts(data, p, end, Header(0x30, |body|), body);
    ElementRead(data, p, end, 0x30, |body|);
    var at := p + |Header(0x30, |body|)|;
    HoldsUpTo(data, at, end, stop, body);
    hide Holds, AlgorithmBodyAt;
    AlgorithmBodyRead(data, at, stop, oid, tag, content);
  }

  // An identifier without parameters is read back whole, and is accepted where none are allowed.
  lemma AlgorithmNullRoundTrip(data: seq<Byte>, p: nat, end: nat, oid: seq<Byte>)
    requires |oid| < INT_LIMIT && AlgorithmLength(|oid|, 0) < WORD && Holds(data, p, end, AlgorithmBytes(oid, 0))
    ensures end <= |data| && p + |AlgorithmBytes(oid, 0)| <= |data|
    ensures AlgorithmFound(data, p, end, p + |AlgorithmBytes(oid, 0)|, oid, NULL, [])
    ensures AlgorithmNullAt(data, p, end).Found?
  {
    hide LengthBytes;
    assert NullIf(0) == Element(NULL, []) by { EmptyElement(); }
    OidIsElement(oid);
    AlgorithmParts(oid, 0);
    AlgorithmRead(data, p, end, oid, NULL, []);
  }

  lemma EmptyElement()
    ensures Element(NULL, []) == [NULL, 0]
  {
  }

  // So is one with parameters of any tag and content that follow it.
  lemma AlgorithmRoundTrip(data: seq<Byte>, p: nat, end: nat, oid: seq<Byte>, tag: Byte, content: seq<Byte>)
    requires |oid| < INT_LIMIT && |content| < WORD && AlgorithmLength(|oid|, |Element(tag, content)|) < WORD
    requires Holds(data, p, end, AlgorithmBytes(oid, |Element(tag, content)|) + Element(tag, content))
    ensures end <= |data| && p + |AlgorithmBytes(oid, |Element(tag, content)|)| + |Element(tag, content)| <= |data|
    ensures AlgorithmFound(data, p, end, p + |AlgorithmBytes(oid, |Element(tag, content)|)| + |Element(tag, content)|, oid, tag, content)
    ensures AlgorithmNullAt(data, p, end).Found? <==> content == [] && (tag == NULL || tag == 0)
  {
    OidIsElement(oid);
    WithParameters(oid, tag, content);
    hide Element, AlgorithmBytes, AlgorithmParameters, OidLength, Holds;
    AlgorithmRead(data, p, end, oid, tag, content);
    hide AlgorithmAt;
  }

  lemma WithParameters(oid: seq<Byte>, tag: Byte, content: seq<Byte>)
    requires |oid| < INT_LIMIT && |content| < WORD && AlgorithmLength(|oid|, |Element(tag, content)|) < WORD
    ensures |Element(OID, oid)| + |Element(tag, content)| < WORD
    ensures AlgorithmBytes(oid, |Element(tag, content)|) + Element(tag, content) == AlgorithmParameters(oid, tag, content)
  {
    hide LengthBytes;
    OidIsElement(oid);
    var par_len := |Element(tag, content)|;
    assert par_len > 0;
    hide Header, Element, OidBytes;
    AlgorithmParts(oid, par_len);
    assert AlgorithmLength(|oid|, par_len) == |Element(OID, oid)| + par_len;
  }
}
