// Multi-precision integers read from and written to big-endian bytes.
module MpiBytes {
  import opened Numbers
  import opened Bytes
  import opened Limbs
  import opened Bits
  import opened Bignum
  import opened Memory

  // Bytes of a limb.
  const CI_L: nat := BI_L / 8

  lemma LimbBytes()
    ensures CI_L > 0 && BASE == Pow(256, CI_L)
  {
    assert Pow(2, 8) == 256 by { PowLiterals(); }
    assert BI_L == 8 * CI_L;
    PowMul(2, 8, CI_L);
  }

  // ---------------------------------------------------------------- numbers in bytes

  // The k-th byte of a number.
  function ByteAt(n: nat, k: nat): Byte {
    n / Pow(256, k) % 256
  }

  lemma {:induction false} LittleEndianAt(n: nat, q: nat, k: nat)
    requires k < q
    ensures LittleEndian(n, q)[k] == ByteAt(n, k)
  {
    if k == 0 {
      DivModUnique(n, 1, n, 0);
    } else {
      LittleEndianAt(n / 256, q - 1, k - 1);
      DivDiv(n, 256, Pow(256, k - 1));
    }
  }

  lemma {:induction false} BigEndianAt(n: nat, q: nat, k: nat)
    requires k < q
    ensures BigEndian(n, q)[q - 1 - k] == ByteAt(n, k)
  {
    if k == 0 {
      DivModUnique(n, 1, n, 0);
    } else {
      BigEndianAt(n / 256, q - 1, k - 1);
      DivDiv(n, 256, Pow(256, k - 1));
    }
  }

  lemma {:induction false} LittleEndianConcat(a: nat, b: nat, q: nat, r: nat)
    requires a < Pow(256, q)
    ensures LittleEndian(a + Pow(256, q) * b, q + r) == LittleEndian(a, q) + LittleEndian(b, r)
  {
    if q > 0 {
      var w := Pow(256, q - 1) * b;
      assert Pow(256, q) * b == 256 * w by { MulAssoc(256, Pow(256, q - 1), b); }
      DivModUnique(a + 256 * w, 256, a / 256 + w, a % 256);
      LittleEndianConcat(a / 256, b, q - 1, r);
    }
  }

  lemma ByteOfMiddle(v: nat, low: nat, q: nat, x: nat, ci: nat, rest: nat, j: nat)
    requires v == low + Pow(256, q) * (x + Pow(256, ci) * rest)
    requires low < Pow(256, q) && x < Pow(256, ci) && j < ci
    ensures ByteAt(v, q + j) == ByteAt(x, j)
  {
    hide ByteAt, LittleEndian, Pow;
    LittleEndianConcat(low, x + Pow(256, ci) * rest, q, ci);
    LittleEndianConcat(x, rest, ci, 0);
    LittleEndianAt(v, q + ci, q + j);
    LittleEndianAt(x, ci, j);
    NoBytes(rest);
    assert LittleEndian(v, q + ci) == LittleEndian(low, q) + LittleEndian(x, ci);
  }

  lemma NoBytes(n: nat)
    ensures LittleEndian(n, 0) == []
  {
  }

  // Byte k of a limb vector is a byte of one of its limbs.
  lemma LimbByte(p: seq<Limb>, i: nat, j: nat)
    requires i < |p| && j < CI_L
    ensures ByteAt(Val(p), CI_L * i + j) == ByteAt(p[i], j)
  {
    LimbBytes();
    ValSplit(p, i);
    ValBound(p[..i]);
    var low, rest := Val(p[..i]), Val(p[i..][1..]);
    assert Val(p[i..]) == p[i] + BASE * rest;
    PowMul(256, CI_L, i);
    hide ByteAt, Pow, Val;
    ByteOfMiddle(Val(p), low, CI_L * i, p[i], CI_L, rest, j);
  }

  // ---------------------------------------------------------------- writing

  lemma HighByteZero(n: nat, k: nat, m: nat)
    requires n < Pow(256, m) && m <= k
    ensures ByteAt(n, k) == 0
  {
    PowMonotone(256, m, k);
    DivModUnique(n, Pow(256, k), 0, n);
  }

  // A number fits q bytes exactly when the bytes above are zero.
  lemma {:induction false} FitsWhenHighBytesZero(n: nat, q: nat, m: nat)
    requires n < Pow(256, m) && q <= m
    ensures n < Pow(256, q) <==> forall k :: q <= k < m ==> ByteAt(n, k) == 0
    decreases m - q
  {
    if q < m {
      FitsWhenHighBytesZero(n, q + 1, m);
      var w := Pow(256, q);
      if n < w {
        forall k | q <= k < m ensures ByteAt(n, k) == 0 {
          HighByteZero(n, k, q);
        }
      } else if n < 256 * w {
        var d := n / w;
        DivModSplit(n, w);
        assert 0 < d < 256 by { QuotientBelow(n, w, d); }
        assert ByteAt(n, q) == d;
      }
    }
  }

  lemma QuotientBelow(n: nat, w: nat, d: nat)
    requires w > 0 && d == n / w && w <= n < 256 * w
    ensures 0 < d < 256
  {
    DivModSplit(n, w);
    if d >= 256 { MulMonotone(w, 256, d); }
  }

  lemma LimbPlace(i: nat, n: nat)
    requires i < n * CI_L
    ensures CI_L > 0 && i / CI_L < n && i == CI_L * (i / CI_L) + i % CI_L
  {
    LimbBytes();
    DivModSplit(i, CI_L);
    if i / CI_L >= n { MulMonotone(CI_L, n, i / CI_L); }
  }

  // The byte of a number that the source takes out of a limb by shifting.
  method GetByte(x: Mpi, i: nat) returns (b: Byte)
    requires i < |x.p| * CI_L
    ensures b == ByteAt(x.Abs(), i)
  {
    LimbPlace(i, |x.p|);
    LimbByte(x.p, i / CI_L, i % CI_L);
    b := ByteAt(x.p[i / CI_L], i % CI_L);
  }

  lemma StoredBytes(x: seq<Limb>)
    ensures Val(x) < Pow(256, |x| * CI_L)
  {
    LimbBytes();
    ValBound(x);
    PowMul(256, CI_L, |x|);
    Commute(CI_L, |x|);
  }

  lemma BytesInPlace(was: seq<Byte>, now: seq<Byte>, at: nat, n: nat, q: nat)
    requires at + q <= |was| == |now|
    requires forall k :: at <= k < at + q ==> now[k] == ByteAt(n, at + q - 1 - k)
    requires forall k :: 0 <= k < |was| && !(at <= k < at + q) ==> now[k] == was[k]
    ensures now == Replaced(was, at, BigEndian(n, q))
  {
    var b := BigEndian(n, q);
    forall k: nat | k < q ensures b[k] == ByteAt(n, q - 1 - k) {
      BigEndianAt(n, q, q - 1 - k);
    }
    hide ByteAt, BigEndian;
  }

  // The whole magnitude, in exactly the given number of bytes, or nothing.
  method WriteBinary(x: Mpi, mem: array<Byte>, at: nat, buflen: nat) returns (ret: Status)
    requires at + buflen <= mem.Length
    modifies mem
    ensures ret.Ok? <==> x.Abs() < Pow(256, buflen)
    ensures ret.Ok? ==> mem[..] == Replaced(old(mem[..]), at, BigEndian(x.Abs(), buflen))
    ensures ret.Fail? ==> ret.code == BufferTooSmall && mem[..] == old(mem[..])
  {
    ghost var was := mem[..];
    var stored := |x.p| * CI_L;
    StoredBytes(x.p);
    var copy: nat;
    hide ByteAt, Pow, BigEndian, Replaced, Val;
    if stored < buflen {
      copy := stored;
      StoredFits(x.Abs(), stored, buflen);
      for k := 0 to buflen - stored
        invariant forall m :: 0 <= m < mem.Length ==> mem[m] == if at <= m < at + k then 0 else was[m]
      {
        mem[at + k] := 0;
      }
    } else {
      copy := buflen;
      FitsWhenHighBytesZero(x.Abs(), buflen, stored);
      for i := buflen to stored
        invariant mem[..] == was
        invariant forall k :: buflen <= k < i ==> ByteAt(x.Abs(), k) == 0
      {
        var b := GetByte(x, i);
        if b != 0 {
          return Fail(BufferTooSmall);
        }
      }
    }
    CopyBytes(x, mem, at, buflen, copy, was);
    ret := Ok;
  }

  lemma StoredFits(n: nat, stored: nat, buflen: nat)
    requires n < Pow(256, stored) && stored <= buflen
    ensures n < Pow(256, buflen)
  {
    PowMonotone(256, stored, buflen);
  }

  method CopyBytes(x: Mpi, mem: array<Byte>, at: nat, buflen: nat, copy: nat, ghost was: seq<Byte>)
    requires mem.Length == |was| && at + buflen <= mem.Length && copy <= buflen && copy <= |x.p| * CI_L
    requires forall m :: 0 <= m < |was| ==> mem[m] == if at <= m < at + (buflen - copy) then 0 else was[m]
    requires copy < buflen ==> x.Abs() < Pow(256, copy)
    modifies mem
    ensures mem[..] == Replaced(was, at, BigEndian(x.Abs(), buflen))
  {
    hide ByteAt, Pow, BigEndian, Replaced, Val;
    var end := at + buflen;
    for i := 0 to copy
      invariant forall m :: 0 <= m < |was| && !(end - i <= m < end) ==> mem[m] == if at <= m < end - copy then 0 else was[m]
      invariant forall m :: end - i <= m < end ==> mem[m] == ByteAt(x.Abs(), end - 1 - m)
    {
      var b := GetByte(x, i);
      mem[end - i - 1] := b;
    }
    forall m | at <= m < end ensures mem[m] == ByteAt(x.Abs(), end - 1 - m) {
      if m < end - copy {
        HighByteZero(x.Abs(), end - 1 - m, copy);
      }
    }
    BytesInPlace(was, mem[..], at, x.Abs(), buflen);
  }

  // Bytes needed for the magnitude.
  method ByteSize(x: Mpi) returns (n: nat)
    ensures x.Abs() < Pow(256, n)
    ensures n > 0 ==> Pow(256, n - 1) <= x.Abs()
  {
    var bits := x.BitLen();
    n := (bits + 7) / 8;
    SizeInBytes(x.Abs(), bits, n);
  }

  lemma SizeInBytes(v: nat, bits: nat, n: nat)
    requires bits == BitCount(v) && n == (bits + 7) / 8
    ensures v < Pow(256, n) && (n > 0 ==> Pow(256, n - 1) <= v)
  {
    BitCountBounds(v);
    PowLiterals();
    PowMul(2, 8, n);
    PowMonotone(2, bits, 8 * n);
    if n > 0 {
      PowMul(2, 8, n - 1);
      PowMonotone(2, 8 * (n - 1), bits - 1);
    }
  }

  // ---------------------------------------------------------------- reading

  // The bytes of a limb in reverse order.
  function Swapped(x: Limb): nat {
    FromBigEndian(LittleEndian(x, CI_L))
  }

  method BigEndianToHost(x: Limb) returns (r: Limb)
    ensures r == Swapped(x)
  {
    LimbBytes();
    var memory := LittleEndian(x, CI_L);
    var tmp: nat := 0;
    for i := 0 to CI_L
      invariant tmp == FromBigEndian(memory[..i])
    {
      assert memory[..i + 1][..i] == memory[..i];
      tmp := tmp * 256 + memory[i];
    }
    assert memory[..CI_L] == memory;
    FromBigEndianBound(memory);
    r := tmp;
  }

  function Chunk(raw: seq<Byte>, i: nat): (r: seq<Byte>)
    requires (i + 1) * CI_L <= |raw|
    ensures |r| == CI_L
  {
    assert (i + 1) * CI_L == i * CI_L + CI_L;
    raw[i * CI_L..(i + 1) * CI_L]
  }

  lemma ChunkLimb(c: seq<Byte>)
    requires |c| == CI_L
    ensures FromLittleEndian(c) < BASE && FromBigEndian(c) < BASE
    ensures FromBigEndian(LittleEndian(FromLittleEndian(c), CI_L)) == FromBigEndian(c)
  {
    LimbBytes();
    LittleEndianOf(c);
    FromBigEndianBound(c);
    LittleEndianBound(c);
  }

  lemma {:induction false} LittleEndianBound(s: seq<Byte>)
    ensures FromLittleEndian(s) < Pow(256, |s|)
  {
    if s != [] {
      LittleEndianBound(s[1..]);
    }
  }

  lemma LastChunk(raw: seq<Byte>, n: nat)
    requires n > 0 && |raw| == n * CI_L
    ensures (n - 1) * CI_L == |raw| - CI_L >= 0
    ensures FromBigEndian(raw) == FromBigEndian(raw[..|raw| - CI_L]) * BASE + FromBigEndian(Chunk(raw, n - 1))
  {
    LimbBytes();
    assert n * CI_L == (n - 1) * CI_L + CI_L;
    var cut := |raw| - CI_L;
    assert raw == raw[..cut] + raw[cut..];
    assert Chunk(raw, n - 1) == raw[cut..];
    FromBigEndianConcat(raw[..cut], raw[cut..]);
  }

  // Limbs from the last chunk to the first.
  ghost predicate FromChunks(p: seq<Limb>, raw: seq<Byte>) {
    && |raw| == |p| * CI_L
    && forall k :: 0 <= k < |p| ==> (k + 1) * CI_L <= |raw| && p[|p| - 1 - k] == FromBigEndian(Chunk(raw, k))
  }

  lemma FromChunksHead(p: seq<Limb>, raw: seq<Byte>)
    requires p != [] && FromChunks(p, raw) && (|p| - 1) * CI_L == |raw| - CI_L >= 0
    ensures FromChunks(p[1..], raw[..|raw| - CI_L])
  {
    hide FromBigEndian, Chunk;
    var head, q := raw[..|raw| - CI_L], p[1..];
    forall k: nat | k < |q| ensures (k + 1) * CI_L <= |head| && q[|q| - 1 - k] == FromBigEndian(Chunk(head, k)) {
      MulMonotone(CI_L, k + 1, |q|);
      Commute(CI_L, k + 1);
      Commute(CI_L, |q|);
      ChunkOfHead(raw, |head|, k);
      assert q[|q| - 1 - k] == p[|p| - 1 - k];
    }
  }

  // Limbs taken from the last chunk to the first stand for the whole string.
  lemma {:induction false} ChunksAreNumber(p: seq<Limb>, raw: seq<Byte>)
    requires FromChunks(p, raw)
    ensures Val(p) == FromBigEndian(raw)
  {
    if p != [] {
      LastChunk(raw, |p|);
      FromChunksHead(p, raw);
      ChunksAreNumber(p[1..], raw[..|raw| - CI_L]);
      assert p[|p| - 1 - (|p| - 1)] == FromBigEndian(Chunk(raw, |p| - 1));
      hide FromBigEndian, Chunk, FromChunks;
      Commute(BASE, Val(p[1..]));
    }
  }

  lemma ChunkOfHead(raw: seq<Byte>, cut: nat, i: nat)
    requires cut <= |raw| && (i + 1) * CI_L <= cut
    ensures Chunk(raw[..cut], i) == Chunk(raw, i)
  {
    assert i * CI_L <= (i + 1) * CI_L;
  }

  // The limbs of a big-endian string as they lie in memory before their order is changed.
  ghost predicate Raw(p: seq<Limb>, raw: seq<Byte>) {
    |raw| == |p| * CI_L && forall k :: 0 <= k < |p| ==> (k + 1) * CI_L <= |raw| && p[k] == FromLittleEndian(Chunk(raw, k))
  }

  method LoadRaw(raw: seq<Byte>, limbs: nat) returns (p: seq<Limb>)
    requires |raw| == limbs * CI_L
    ensures |p| == limbs && Raw(p, raw)
  {
    p := [];
    for i := 0 to limbs
      invariant |p| == i
      invariant forall k :: 0 <= k < i ==> (k + 1) * CI_L <= |raw| && p[k] == FromLittleEndian(Chunk(raw, k))
    {
      MulMonotone(CI_L, i + 1, limbs);
      Commute(CI_L, i + 1);
      Commute(CI_L, limbs);
      ChunkLimb(Chunk(raw, i));
      p := p + [FromLittleEndian(Chunk(raw, i))];
    }
  }

  // The limb that belongs in place k while left to right is still to do.
  function Settled(was: seq<Limb>, left: int, right: int, k: nat): nat
    requires k < |was|
  {
    if k < left || right < k then Swapped(was[|was| - 1 - k]) else was[k]
  }

  // The limbs outside left to right have changed places.
  ghost predicate Reordered(was: seq<Limb>, p: seq<Limb>, left: int, right: int) {
    && |p| == |was| && left + right == |was| - 1 && 0 <= left
    && forall k :: 0 <= k < |was| ==> p[k] == Settled(was, left, right, k)
  }

  lemma ReorderedNext(was: seq<Limb>, p: seq<Limb>, left: int, right: int, l: Limb, r: Limb)
    requires Reordered(was, p, left, right) && left <= right
    requires l == Swapped(was[left]) && r == Swapped(was[right])
    ensures Reordered(was, p[left := r][right := l], left + 1, right - 1)
  {
    hide Swapped;
    var q := p[left := r][right := l];
    forall k: nat | k < |was| ensures q[k] == Settled(was, left + 1, right - 1, k) {
      if k != left && k != right {
        assert q[k] == p[k] == Settled(was, left, right, k);
      }
    }
  }

  // Limbs change places from both ends, each with its bytes reversed.
  method ReorderLimbs(x: Mpi)
    modifies x
    ensures Reordered(old(x.p), x.p, |old(x.p)|, -1) && x.s == old(x.s)
  {
    ghost var was := x.p;
    var left, right := 0, |x.p| - 1;
    while left <= right
      invariant Reordered(was, x.p, left, right) && x.s == old(x.s)
    {
      assert x.p[left] == Settled(was, left, right, left) && x.p[right] == Settled(was, left, right, right);
      var tmp := BigEndianToHost(x.p[left]);
      var other := BigEndianToHost(x.p[right]);
      ReorderedNext(was, x.p, left, right, tmp, other);
      x.p := x.p[left := other][right := tmp];
      left, right := left + 1, right - 1;
    }
  }

  function LimbsForBytes(n: nat): nat {
    n / CI_L + if n % CI_L != 0 then 1 else 0
  }

  lemma LimbsHoldBytes(n: nat)
    ensures CI_L > 0 && n <= LimbsForBytes(n) * CI_L
  {
    LimbBytes();
    DivModSplit(n, CI_L);
    Commute(CI_L, n / CI_L);
    assert (n / CI_L + 1) * CI_L == n / CI_L * CI_L + CI_L;
  }

  // The number a big-endian string stands for, as a non-negative integer.
  method ReadBinary(x: Mpi, buf: seq<Byte>) returns (ret: Status)
    modifies x
    ensures ret.Fail? ==> ret.code == AllocFailed
    ensures ret.Ok? ==> x.Value() == FromBigEndian(buf)
  {
    LimbsHoldBytes(|buf|);
    var limbs := LimbsForBytes(|buf|);
    var overhead: nat := limbs * CI_L - |buf|;
    if |x.p| != limbs {
      x.Free();
      :- x.Grow(limbs);
    }
    :- x.Lset(0);
    if limbs == 0 {
      assert buf == [];
      return Ok;
    }
    var raw := Bytes.Zeros(overhead) + buf;
    var p := LoadRaw(raw, limbs);
    x.p := p;
    ReorderLimbs(x);
    RawReordered(p, x.p, raw);
    FromBigEndianZeros(overhead);
    FromBigEndianConcat(Bytes.Zeros(overhead), buf);
    ret := Ok;
  }

  lemma RawReordered(p: seq<Limb>, q: seq<Limb>, raw: seq<Byte>)
    requires Raw(p, raw) && Reordered(p, q, |p|, -1)
    ensures Val(q) == FromBigEndian(raw)
  {
    hide FromBigEndian, FromLittleEndian, LittleEndian, Chunk, Val;
    forall k: nat | k < |q| ensures (k + 1) * CI_L <= |raw| && q[|q| - 1 - k] == FromBigEndian(Chunk(raw, k)) {
      ReorderedLimb(p, q, raw, k);
    }
    ChunksAreNumber(q, raw);
  }

  lemma ReorderedLimb(p: seq<Limb>, q: seq<Limb>, raw: seq<Byte>, k: nat)
    requires Raw(p, raw) && Reordered(p, q, |p|, -1) && k < |q|
    ensures (k + 1) * CI_L <= |raw| && q[|q| - 1 - k] == FromBigEndian(Chunk(raw, k))
  {
    assert (k + 1) * CI_L <= |raw| && p[k] == FromLittleEndian(Chunk(raw, k));
    ChunkLimb(Chunk(raw, k));
    assert q[|q| - 1 - k] == Settled(p, |p|, -1, |q| - 1 - k);
  }
}
