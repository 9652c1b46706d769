// Byte strings written into memory.
module Memory {
  import opened Bytes

  function Replaced(mem: seq<Byte>, at: nat, bytes: seq<Byte>): (r: seq<Byte>)
    requires at + |bytes| <= |mem|
    ensures |r| == |mem|
  {
    mem[..at] + bytes + mem[at + |bytes|..]
  }

  ghost predicate OnlyInside(was: seq<Byte>, now: seq<Byte>, from: nat, to: nat) {
    |now| == |was| && forall p :: 0 <= p < |was| && !(from <= p < to) ==> now[p] == was[p]
  }

  lemma NothingChanged(mem: seq<Byte>, from: nat, to: nat)
    ensures OnlyInside(mem, mem, from, to)
  {
  }

  lemma StillInside(was: seq<Byte>, mem: seq<Byte>, mem': seq<Byte>, at: nat, to: nat, from: nat, end: nat)
    requires OnlyInside(was, mem, from, end) && OnlyInside(mem, mem', at, to) && from <= at && to <= end
    ensures OnlyInside(was, mem', from, end)
  {
  }

  lemma Elsewhere(was: seq<Byte>, dst: nat, bytes: seq<Byte>, at: nat, len: nat)
    requires dst + |bytes| <= |was| && at + len <= |was| && (at + len <= dst || dst + |bytes| <= at)
    ensures |Replaced(was, dst, bytes)| == |was| && Replaced(was, dst, bytes)[at..at + len] == was[at..at + len]
  {
    var now := Replaced(was, dst, bytes);
    var left, right := now[at..at + len], was[at..at + len];
    forall k: nat | k < len ensures left[k] == right[k] {
      assert left[k] == now[at + k];
    }
  }

  lemma ReplacedTwice(was: seq<Byte>, dst: nat, a: seq<Byte>, b: seq<Byte>)
    requires dst + |a| <= |was| && |a| == |b|
    ensures Replaced(Replaced(was, dst, a), dst, b) == Replaced(was, dst, b)
  {
  }

  lemma ReplacedNext(was: seq<Byte>, at: nat, a: seq<Byte>, b: seq<Byte>)
    requires at + |a| + |b| <= |was|
    ensures |Replaced(was, at, a)| == |was| == |Replaced(was, at, a + b)|
    ensures Replaced(Replaced(was, at, a), at + |a|, b) == Replaced(was, at, a + b)
  {
  }

  lemma ReplacedBefore(was: seq<Byte>, at: nat, a: seq<Byte>, b: seq<Byte>)
    requires at + |a| + |b| <= |was|
    ensures |Replaced(was, at + |a|, b)| == |was|
    ensures Replaced(Replaced(was, at + |a|, b), at, a) == Replaced(was, at, a + b)
  {
  }

  lemma ReplacedInside(was: seq<Byte>, at: nat, bytes: seq<Byte>, from: nat, to: nat)
    requires from <= at && at + |bytes| <= to && at + |bytes| <= |was|
    ensures OnlyInside(was, Replaced(was, at, bytes), from, to)
  {
  }

  lemma SliceOfSlice(s: seq<Byte>, at: nat, len: nat, from: nat, to: nat)
    requires at + len <= |s| && from <= to <= len
    ensures s[at..at + len][from..to] == s[at + from..at + to]
  {
    var left, right := s[at..at + len][from..to], s[at + from..at + to];
    forall k: nat | k < to - from ensures left[k] == right[k] {
      assert left[k] == s[at..at + len][from + k] == s[at + from + k];
    }
  }

  method PutBytes(mem: array<Byte>, at: nat, bytes: seq<Byte>)
    requires at + |bytes| <= mem.Length
    modifies mem
    ensures mem[..] == Replaced(old(mem[..]), at, bytes)
  {
    ghost var was := mem[..];
    for i := 0 to |bytes|
      invariant forall p :: 0 <= p < mem.Length ==> mem[p] == if at <= p < at + i then bytes[p - at] else was[p]
    {
      mem[at + i] := bytes[i];
    }
  }
}
