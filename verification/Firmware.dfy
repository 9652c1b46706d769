// Firmware download: the host writes the image block by block into a ring that the chip empties at
// its own pace.
module Firmware {
  import opened Bytes

  const BLOCK: nat := 0x400
  const RING: nat := 0x8000

  datatype Outcome = Done | BadLength | TimedOut | IoError

  // Host arithmetic on offsets is on 32 bits.
  function U32(x: int): nat {
    x % 0x1_0000_0000
  }

  // The image's byte number k lies at place k modulo the ring in the ring.
  ghost predicate Holds(ring: seq<Byte>, image: seq<Byte>, from: nat, to: nat) {
    |ring| == RING && to <= |image| && forall k :: from <= k < to ==> ring[k % RING] == image[k]
  }

  lemma RingDistinct(k: nat, p: nat)
    requires k < p < k + RING
    ensures k % RING != p % RING
  {
  }

  // One byte is added in front of those the chip has not read.
  lemma HoldsMore(ring: seq<Byte>, image: seq<Byte>, from: nat, to: nat)
    requires Holds(ring, image, from, to) && to < |image| && from <= to < from + RING
    ensures Holds(ring[to % RING := image[to]], image, from, to + 1)
  {
    forall k | from <= k < to ensures k % RING != to % RING {
      RingDistinct(k, to);
    }
  }

  // The chip: its ring, how far the host says it has written, how far the chip has read, and the
  // bytes it has taken in so far.
  class Chip {
    const ring: array<Byte>
    var put: nat
    var get: nat
    var consumed: seq<Byte>

    // from tells how far the host has really written, which runs ahead of put within a block.
    ghost predicate Follows(image: seq<Byte>, written: nat)
      reads this, ring
    {
      && ring.Length == RING
      && get <= put <= written <= |image| && written - get <= RING
      && consumed == image[..get]
      && Holds(ring[..], image, get, written)
    }

    constructor ()
      ensures fresh(ring) && ring.Length == RING
      ensures put == 0 && get == 0 && consumed == []
    {
      ring := new Byte[RING];
      put, get, consumed := 0, 0, [];
    }

    // The chip may read any number of the bytes announced to it, at any time.
    method Advance(ghost image: seq<Byte>, ghost written: nat)
      requires Follows(image, written)
      modifies this
      ensures Follows(image, written)
      ensures put == old(put) && old(get) <= get
    {
      var n: nat := *;
      while n > 0 && get < put
        invariant Follows(image, written)
        invariant put == old(put) && old(get) <= get
        decreases n
      {
        ghost var here := get;
        assert ring[..][here % RING] == image[here];
        consumed := consumed + [ring[get % RING]];
        get := get + 1;
        n := n - 1;
      }
    }

    // The host writes one block; the chip goes on reading in between.
    method WriteBlock(at: nat, image: seq<Byte>, offset: nat)
      requires Follows(image, offset)
      requires offset + BLOCK <= |image| && offset + BLOCK <= get + RING
      requires at == offset % RING && at + BLOCK <= RING
      modifies this, ring
      ensures Follows(image, offset + BLOCK)
      ensures put == old(put) && old(get) <= get
    {
      for k := 0 to BLOCK
        invariant Follows(image, offset + k)
        invariant put == old(put) && old(get) <= get
      {
        Advance(image, offset + k);
        assert (offset + k) % RING == at + k;
        WriteByte(at + k, image, offset + k);
      }
    }

    method WriteByte(at: nat, image: seq<Byte>, offset: nat)
      requires Follows(image, offset) && offset < |image| && offset < get + RING && at == offset % RING
      modifies ring
      ensures Follows(image, offset + 1)
    {
      HoldsMore(ring[..], image, get, offset);
      ghost var before := ring[..];
      ring[at] := image[offset];
      assert ring[..] == before[at := image[offset]];
    }

    method WritePut(ghost image: seq<Byte>, offset: nat)
      requires Follows(image, offset)
      modifies this
      ensures Follows(image, offset)
      ensures put == offset && old(get) <= get
    {
      put := offset;
      Advance(image, offset);
    }

    method ReadGet(ghost image: seq<Byte>, ghost written: nat) returns (done: nat)
      requires Follows(image, written)
      modifies this
      ensures Follows(image, written)
      ensures put == old(put) && old(get) <= done <= get
    {
      Advance(image, written);
      done := get;
      Advance(image, written);
    }
  }

  // Wait until there is room for the block at offset.  What the host knows of the chip's progress may
  // be out of date, never ahead.
  method AwaitRoom(chip: Chip, ghost image: seq<Byte>, offset: nat, known: nat)
    returns (outcome: Outcome, done: nat)
    requires chip.Follows(image, offset) && known <= chip.get
    requires offset + BLOCK < 0x1_0000_0000
    modifies chip
    ensures chip.Follows(image, offset) && done <= chip.get
    ensures chip.put == old(chip.put)
    ensures outcome == Done ==> offset + BLOCK - done < RING
    ensures outcome != BadLength
  {
    done := known;
    var patience: nat := *;
    while true
      invariant chip.Follows(image, offset) && done <= chip.get && chip.put == old(chip.put)
      decreases patience
    {
      if U32(offset + BLOCK - done) < RING {
        return Done, done;
      }
      if patience == 0 {
        return TimedOut, done;
      }
      patience := patience - 1;
      var failed: bool := *;
      if failed {
        return IoError, done;
      }
      done := chip.ReadGet(image, offset);
    }
  }

  // A chip that takes in bytes while this runs takes in a prefix of the image and nothing else, and
  // the whole image once it has read all that was written.  A shorter stream is an error.
  method Upload(chip: Chip, image: seq<Byte>) returns (outcome: Outcome)
    requires chip.Follows(image, 0) && chip.put == 0
    requires |image| < 0x1_0000_0000
    modifies chip, chip.ring
    ensures chip.consumed <= image
    ensures outcome == BadLength <==> |image| % BLOCK != 0
    ensures outcome == BadLength ==> chip.put == 0
    ensures outcome == Done ==> chip.put == |image| && chip.Follows(image, |image|)
    ensures outcome == Done && chip.get == chip.put ==> chip.consumed == image
  {
    hide Chip.Follows;
    FollowsMeans(chip, image, 0);
    if |image| % BLOCK != 0 {
      return BadLength;
    }
    var offset, done := 0, 0;
    while offset < |image|
      invariant 0 <= offset <= |image| && offset % BLOCK == 0
      invariant chip.Follows(image, offset) && chip.put == offset
      invariant 0 <= done <= chip.get
      decreases |image| - offset
    {
      var ready: Outcome;
      ready, done := AwaitRoom(chip, image, offset, done);
      FollowsMeans(chip, image, offset);
      BlockInRing(offset, |image|);
      if ready != Done {
        return ready;
      }
      chip.WriteBlock(offset % RING, image, offset);
      FollowsMeans(chip, image, offset + BLOCK);
      var failed: bool := *;
      if failed {
        return IoError;
      }
      offset := U32(offset + BLOCK);
      chip.WritePut(image, offset);
      FollowsMeans(chip, image, offset);
      failed := *;
      if failed {
        return IoError;
      }
    }
    FollowsMeans(chip, image, offset);
    outcome := Done;
  }

  lemma FollowsMeans(chip: Chip, image: seq<Byte>, written: nat)
    requires chip.Follows(image, written)
    ensures chip.get <= chip.put <= written <= |image| && chip.consumed == image[..chip.get] && chip.consumed <= image
    ensures chip.get == |image| ==> chip.consumed == image
  {
  }

  // A block that starts inside an image of whole blocks ends inside it, and does not wrap in the ring.
  lemma BlockInRing(offset: nat, length: nat)
    requires offset % BLOCK == 0 && length % BLOCK == 0 && offset < length
    ensures offset + BLOCK <= length && offset % RING + BLOCK <= RING && (offset + BLOCK) % BLOCK == 0
  {
  }
}
