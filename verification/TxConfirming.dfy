// Packet numbers: a confirmation finds the frame it is for while the numbers in use differ.
module TxConfirming {
  import opened RetryPolicy
  import opened FrameQueues
  import opened Tallies
  import opened TxEngine
  import opened TxAccounting
  import opened TxConservation
  import opened TxPolicies
  import opened TxSafety
  import opened TxGuarantees
  import opened TxCaches
  import opened TxOrder

  // ---------------------------------------------------------------- the number of a packet

  const NUMBERS: nat := 0x1_0000

  // The parts of a packet number can be read back.
  lemma PacketParts(counter: nat, sequence: SequenceNumber, ac: nat)
    ensures var id := PacketId(counter, sequence, ac);
            id % NUMBERS == counter % NUMBERS && id / NUMBERS % 0x1000 == sequence && id / 0x1000_0000 == ac
  {
    var low := counter % NUMBERS;
    var id := PacketId(counter, sequence, ac);
    assert id == low + NUMBERS * (sequence + 0x1000 * ac);
    assert id == low + NUMBERS * sequence + 0x1000_0000 * ac;
  }

  // Everything handed over during a run, in order.
  function HandedOver(run: seq<Action>): seq<nat>
    decreases |run|
  {
    if run == [] then [] else (if run[0].Submit? then [run[0].id] else []) + HandedOver(run[1..])
  }

  // The number of each frame counts the frames handed over up to it.
  ghost predicate NumberedAt(f: Frame, all: seq<nat>, base: nat, i: nat) {
    i < |all| && all[i] == f.id && f.packet % NUMBERS == (base + i + 1) % NUMBERS
  }

  ghost predicate Numbered(frames: multiset<Frame>, all: seq<nat>, base: nat) {
    forall f <- frames :: exists i :: NumberedAt(f, all, base, i)
  }

  lemma SubmitCounts(s: Device, a: Action)
    requires a.Submit? && Enabled(s, a)
    ensures Submitted(s, a).air.packets == s.air.packets + 1
  {
    hide Obtain, Enqueued;
  }

  lemma OtherCounts(s: Device, a: Action)
    requires Enabled(s, a) && !a.Submit?
    ensures Step(s, a).air.packets == s.air.packets
  {
    hide FirstDirty, Controlled, ConfirmAll, Report, Choose, Reversed, CountedOut;
    if a.BhConfirm? {
      ConfirmAllCounts(Heard(s), a.confirmations);
    } else if a.ReportDropped? {
      ReportEffect(s.(air := s.air.(dropped := s.air.dropped[1..])), s.air.dropped[0]);
    }
  }

  lemma {:induction false} ConfirmAllCounts(s: Device, cs: seq<Confirmation>)
    ensures ConfirmAll(s, cs).air.packets == s.air.packets
    decreases |cs|
  {
    hide Confirm;
    if cs != [] {
      ConfirmCounts(s, cs[0]);
      ConfirmAllCounts(Confirm(s, cs[0]), cs[1..]);
    }
  }

  lemma ConfirmCounts(s: Device, c: Confirmation)
    ensures Confirm(s, c).air.packets == s.air.packets
  {
    hide Report;
    var found := FirstWithPacket(s.air.pending, c.packet);
    if found.Some? {
      var t := Device(s.vifs, Unpended(s.air, found.value, c), s.ctl.(used := s.ctl.used - 1));
      ReportEffect(t, s.air.pending[found.value]);
    }
  }

  // ---------------------------------------------------------------- live frames only leave

  lemma ConfirmLive(s: Device, c: Confirmation)
    requires Conserved(s) && c.packet in s.air.inChip
    ensures Live(Confirm(s, c).air) <= Live(s.air)
  {
    hide Live, Booked, Report;
    var found := FirstWithPacket(s.air.pending, c.packet);
    if found.None? {
      UnknownBooks(s.air, c);
    } else {
      UnpendedBooks(s.air, found.value, c);
      var t := Device(s.vifs, Unpended(s.air, found.value, c), s.ctl.(used := s.ctl.used - 1));
      ReportEffect(t, s.air.pending[found.value]);
      LiveSame(t.air, Report(t, s.air.pending[found.value]).air);
    }
  }

  lemma {:induction false} ConfirmAllLive(s: Device, cs: seq<Confirmation>)
    requires Conserved(s) && Packets(cs) <= s.air.inChip
    ensures Live(ConfirmAll(s, cs).air) <= Live(s.air)
    decreases |cs|
  {
    hide Conserved, Confirm, Live;
    if cs != [] {
      assert cs[0].packet in Packets(cs);
      ConfirmLive(s, cs[0]);
      ConfirmConserves(s, cs[0]);
      ConfirmEffect(s, cs[0]);
      ConfirmAllLive(Confirm(s, cs[0]), cs[1..]);
    }
  }

  lemma LeavingOnly(s: Device, a: Action)
    requires Conserved(s) && Enabled(s, a) && !a.Submit?
    ensures Live(Step(s, a).air) <= Live(s.air)
  {
    hide Conserved, Live, ConfirmAll, Report;
    if a.BhConfirm? {
      HeardConserved(s);
      ConfirmAllLive(Heard(s), a.confirmations);
    } else if a.ReportDropped? {
      var t := s.(air := s.air.(dropped := s.air.dropped[1..]));
      DroppedOut(s.air);
      ReportEffect(t, s.air.dropped[0]);
      LiveSame(t.air, Report(t, s.air.dropped[0]).air);
    } else {
      OtherStepLive(s, a);
    }
  }

  lemma StillNumbered(frames: multiset<Frame>, rest: multiset<Frame>, all: seq<nat>, more: seq<nat>, base: nat)
    requires Numbered(frames, all, base) && rest <= frames
    ensures Numbered(rest, all + more, base)
  {
    forall f | f in rest ensures exists i :: NumberedAt(f, all + more, base, i) {
      var i :| NumberedAt(f, all, base, i);
      assert NumberedAt(f, all + more, base, i);
    }
  }

  lemma OneMoreNumbered(frames: multiset<Frame>, f: Frame, all: seq<nat>, base: nat)
    requires Numbered(frames, all, base) && f.packet % NUMBERS == (base + |all| + 1) % NUMBERS
    ensures Numbered(frames + multiset{f}, all + [f.id], base)
  {
    StillNumbered(frames, frames, all, [f.id], base);
    assert NumberedAt(f, all + [f.id], base, |all|);
    hide NumberedAt;
  }

  lemma SubmitLive(s: Device, a: Action)
    requires Conserved(s) && a.Submit? && Enabled(s, a)
    ensures Live(Submitted(s, a).air) == Live(s.air) + multiset{NewFrame(s, a)}
  {
    hide Live, Obtain, Booked, Accepted;
    var got := Obtain(s.vifs[a.vif].table, a.rates);
    SubmitBooks(s.air, NewFrame(s, a), got.idx != INVALID && got.table.free == []);
  }

  lemma SubmitNumbers(s: Device, a: Action, all: seq<nat>, base: nat)
    requires Conserved(s) && a.Submit? && Enabled(s, a)
    requires Numbered(Live(s.air), all, base) && s.air.packets == base + |all|
    ensures Numbered(Live(Submitted(s, a).air), all + [a.id], base)
  {
    hide *;
    SubmitLive(s, a);
    NewFrameNumber(s, a);
    var f := NewFrame(s, a);
    OneMoreNumbered(Live(s.air), f, all, base);
  }

  lemma NewFrameNumber(s: Device, a: Action)
    requires a.Submit? && Enabled(s, a)
    ensures a.vif < |s.vifs| && NewFrame(s, a).id == a.id && NewFrame(s, a).packet % NUMBERS == (s.air.packets + 1) % NUMBERS
  {
    hide Obtain, PacketId;
    PacketParts(s.air.packets + 1, a.sequence, a.ac);
  }

  lemma StepNumbers(s: Device, a: Action, all: seq<nat>, base: nat)
    requires Invariant(s) && Enabled(s, a)
    requires Numbered(Live(s.air), all, base) && s.air.packets == base + |all|
    ensures var t, more := Step(s, a), if a.Submit? then [a.id] else [];
            Numbered(Live(t.air), all + more, base) && t.air.packets == base + |all + more|
  {
    hide LocksKnown, CreditsKnown, Attended, Conserved, Policed, Told, Step, Enabled, Live, Numbered;
    if a.Submit? {
      SubmitNumbers(s, a, all, base);
      SubmitCounts(s, a);
      SubmitIsStep(s, a);
    } else {
      LeavingOnly(s, a);
      OtherCounts(s, a);
      StillNumbered(Live(s.air), Live(Step(s, a).air), all, [], base);
    }
  }

  lemma {:induction false} RunNumbers(s: Device, run: seq<Action>, all: seq<nat>, base: nat)
    requires Invariant(s) && CanRun(s, run)
    requires Numbered(Live(s.air), all, base) && s.air.packets == base + |all|
    ensures Numbered(Live(TxEngine.Run(s, run).air), all + HandedOver(run), base)
    decreases |run|
  {
    hide Invariant, Step, Enabled, Live, Numbered;
    if run == [] {
      assert all + HandedOver(run) == all;
    } else {
      var joining := if run[0].Submit? then [run[0].id] else [];
      StepKeepsInvariant(s, run[0]);
      StepNumbers(s, run[0], all, base);
      RunNumbers(Step(s, run[0]), run[1..], all + joining, base);
      Regrouped(all, joining, HandedOver(run[1..]));
    }
  }

  lemma Regrouped(a: seq<nat>, b: seq<nat>, c: seq<nat>)
    ensures a + (b + c) == a + b + c
  {
  }

  lemma SubmitIsStep(s: Device, a: Action)
    requires a.Submit? && Enabled(s, a)
    ensures Step(s, a) == Submitted(s, a)
  {
    hide Submitted;
  }

  // ---------------------------------------------------------------- the right frame is reported

  // Among the last 65536 frames handed over.
  ghost predicate Recent(all: seq<nat>, id: nat) {
    id in (if |all| <= NUMBERS then all else all[|all| - NUMBERS..])
  }

  lemma {:induction false} HandedOverOnce(s: Device, run: seq<Action>)
    requires CanRun(s, run)
    ensures forall x <- HandedOver(run) :: x !in s.air.submitted
    ensures forall k, m :: 0 <= k < m < |HandedOver(run)| ==> HandedOver(run)[k] != HandedOver(run)[m]
    decreases |run|
  {
    hide Step, Enabled;
    if run != [] {
      SubmittedGrows(s, run[0]);
      HandedOverOnce(Step(s, run[0]), run[1..]);
    }
  }

  lemma SameNumber(all: seq<nat>, base: nat, f: Frame, g: Frame, i: nat, j: nat)
    requires NumberedAt(f, all, base, i) && NumberedAt(g, all, base, j) && f.packet == g.packet
    requires forall k, m :: 0 <= k < m < |all| ==> all[k] != all[m]
    requires Recent(all, f.id) && Recent(all, g.id)
    ensures f.id == g.id
  {
    RecentIndex(all, f.id, i);
    RecentIndex(all, g.id, j);
    CloseNumbers(base + i + 1, base + j + 1);
  }

  lemma RecentIndex(all: seq<nat>, id: nat, i: nat)
    requires i < |all| && all[i] == id && Recent(all, id)
    requires forall k, m :: 0 <= k < m < |all| ==> all[k] != all[m]
    ensures |all| - i <= NUMBERS
  {
    if |all| > NUMBERS {
      var k :| 0 <= k < NUMBERS && all[|all| - NUMBERS..][k] == id;
      assert all[|all| - NUMBERS + k] == id;
    }
  }

  lemma CloseNumbers(m: nat, n: nat)
    requires m % NUMBERS == n % NUMBERS && m < n + NUMBERS && n < m + NUMBERS
    ensures m == n
  {
  }

  // Two frames in the chip have the same number only if at least 65536 frames were handed over from
  // the first of them on.
  lemma NumbersDiffer(start: Device, run: seq<Action>, f: Frame, g: Frame)
    requires AtStart(start) && CanRun(start, run)
    requires var s := TxEngine.Run(start, run); f in s.air.pending && g in s.air.pending
    requires f.packet == g.packet && Recent(HandedOver(run), f.id) && Recent(HandedOver(run), g.id)
    ensures f == g
  {
    RunFacts(start, run);
    hide *;
    LiveNumbersDiffer(TxEngine.Run(start, run), HandedOver(run), start.air.packets, f, g);
  }

  lemma RunFacts(start: Device, run: seq<Action>)
    requires AtStart(start) && CanRun(start, run)
    ensures Reached(TxEngine.Run(start, run))
    ensures Numbered(Live(TxEngine.Run(start, run).air), HandedOver(run), start.air.packets)
    ensures forall k, m :: 0 <= k < m < |HandedOver(run)| ==> HandedOver(run)[k] != HandedOver(run)[m]
  {
    StartHolds(start);
    StartConserves(start);
    hide Invariant, Conserved, Live;
    HandedOverOnce(start, run);
    RunNumbers(start, run, [], start.air.packets);
    assert [] + HandedOver(run) == HandedOver(run);
  }

  lemma LiveNumbersDiffer(s: Device, all: seq<nat>, base: nat, f: Frame, g: Frame)
    requires Reached(s) && Numbered(Live(s.air), all, base)
    requires forall k, m :: 0 <= k < m < |all| ==> all[k] != all[m]
    requires f in s.air.pending && g in s.air.pending
    requires f.packet == g.packet && Recent(all, f.id) && Recent(all, g.id)
    ensures f == g
  {
    hide Reached, Recent, NumberedAt;
    LiveHolds(s.air, f);
    LiveHolds(s.air, g);
    hide Live;
    var i: nat :| NumberedAt(f, all, base, i);
    var j: nat :| NumberedAt(g, all, base, j);
    SameNumber(all, base, f, g, i, j);
    OneOfEach(s, f, g);
  }

  lemma OneOfEach(s: Device, f: Frame, g: Frame)
    requires Reached(s) && f in s.air.pending && g in s.air.pending && f.id == g.id
    ensures f == g
  {
    EachFrameInOnePlace(s, f.id);
    hide Reached, Tally, Queued;
    var p := multiset(s.air.pending);
    if f != g {
      TallyRemove(p, f, IdOf);
      TallyRemove(p - multiset{f}, g, IdOf);
    }
  }

  // A confirmation reports the frame it is for, and takes that frame out of the chip, if no other
  // pending frame has its number.
  lemma ConfirmReports(s: Device, c: Confirmation, f: Frame)
    requires Conserved(s) && f in s.air.pending && f.packet == c.packet
    requires forall g <- s.air.pending :: g.packet == c.packet ==> g == f
    ensures Confirm(s, c).air.reported == s.air.reported + [f.id]
    ensures multiset(Confirm(s, c).air.pending) == multiset(s.air.pending) - multiset{f}
    ensures Confirm(s, c).air.inChip == s.air.inChip - multiset{f.packet}
  {
    LiveHolds(s.air, f);
    HasVif(s, f);
    var found := FirstWithPacket(s.air.pending, c.packet);
    hide Conserved, Live, FirstWithPacket, VifOf;
    assert found.Some? && s.air.pending[found.value] == f;
    ConfirmShape(s, c, found.value);
    TakeOut(s.air.pending, found.value);
  }

  lemma ConfirmShape(s: Device, c: Confirmation, k: nat)
    requires FirstWithPacket(s.air.pending, c.packet) == Some(k) && k < |s.air.pending| && VifOf(s.air.pending[k]) < |s.vifs|
    ensures var t := Confirm(s, c).air;
            && t.pending == s.air.pending[..k] + s.air.pending[k + 1..]
            && t.reported == s.air.reported + [s.air.pending[k].id]
            && t.inChip == s.air.inChip - multiset{c.packet}
  {
    hide Report, CountedOut;
    ReportAppends(Device(s.vifs, Unpended(s.air, k, c), s.ctl.(used := s.ctl.used - 1)), s.air.pending[k]);
  }

  lemma ReportAppends(s: Device, f: Frame)
    requires VifOf(f) < |s.vifs|
    ensures var t := Report(s, f).air; t == s.air.(stopped := t.stopped, reported := s.air.reported + [f.id])
  {
    hide GiveBack;
  }

  // So it does in every reachable state in which all frames in the chip are among the last 65536
  // handed over.
  lemma RightFrameReported(start: Device, run: seq<Action>, c: Confirmation, f: Frame)
    requires AtStart(start) && CanRun(start, run)
    requires var s := TxEngine.Run(start, run);
             f in s.air.pending && f.packet == c.packet && forall g <- s.air.pending :: Recent(HandedOver(run), g.id)
    ensures var s, t := TxEngine.Run(start, run), Confirm(TxEngine.Run(start, run), c);
            && t.air.reported == s.air.reported + [f.id]
            && multiset(t.air.pending) == multiset(s.air.pending) - multiset{f}
  {
    var s := TxEngine.Run(start, run);
    assert Reached(s);
    ReachedHolds(s);
    hide AtStart, CanRun, Live, Booked, HandedOver, Recent, Confirm;
    forall g | g in s.air.pending && g.packet == c.packet ensures g == f {
      NumbersDiffer(start, run, f, g);
    }
    ConfirmReports(s, c, f);
  }
}
