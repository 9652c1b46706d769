// Frames are conserved: what every step of the transmit machine keeps about where frames are.
module TxConservation {
  import opened RetryPolicy
  import opened FrameQueues
  import opened Tallies
  import opened TxEngine
  import opened TxAccounting

  ghost function Waiting(q: Queue): multiset<Frame> {
    multiset(q.normal) + multiset(q.cab)
  }

  ghost function Queued(queues: seq<Queue>): multiset<Frame> {
    if queues == [] then multiset{} else Queued(queues[..|queues| - 1]) + Waiting(queues[|queues| - 1])
  }

  // Frames that are somewhere in the driver: queued, in the chip, or taken out to be dropped.
  ghost function Live(air: Traffic): multiset<Frame> {
    Queued(air.queues) + multiset(air.pending) + multiset(air.dropped)
  }

  function IdOf(f: Frame): multiset<nat> { multiset{f.id} }
  function QueueOf(f: Frame): multiset<nat> { multiset{f.queue} }
  function PacketOf(f: Frame): multiset<nat> { multiset{f.packet} }

  // Each frame waits in its own queue and lane.
  ghost predicate Belongs(lane: seq<Frame>, q: nat, cab: bool) {
    forall f <- lane :: f.queue == q && f.afterDtim == cab
  }

  ghost predicate AtHome(queues: seq<Queue>) {
    forall q, cab :: 0 <= q < |queues| ==> Belongs(Lane(queues[q], cab), q, cab)
  }

  ghost predicate CountsPending(queues: seq<Queue>, pending: multiset<Frame>) {
    forall q: nat :: q < |queues| ==> queues[q].pending == Tally(pending, QueueOf)[q]
  }

  ghost predicate InRange(frames: multiset<Frame>, n: nat) {
    forall f <- frames :: f.queue < n
  }

  // Every frame ever submitted was reported once or is in hand once.
  ghost predicate Identified(air: Traffic, frames: multiset<Frame>) {
    multiset(air.submitted) == multiset(air.reported) + Tally(frames, IdOf)
  }

  ghost predicate ChipHolds(air: Traffic, pending: multiset<Frame>) {
    air.inChip == Tally(pending, PacketOf) + air.abandoned
  }

  // frames are all the live ones, with those a step has taken out and not yet reported.
  ghost predicate Booked(air: Traffic, frames: multiset<Frame>) {
    && AtHome(air.queues)
    && InRange(frames, |air.queues|)
    && Identified(air, frames)
    && CountsPending(air.queues, multiset(air.pending))
    && ChipHolds(air, multiset(air.pending))
  }

  ghost predicate Conserved(s: Device) {
    && |s.air.queues| == ACS * |s.vifs|
    && Booked(s.air, Live(s.air))
    && (!s.ctl.frozen ==> s.air.abandoned == multiset{})
  }

  // ---------------------------------------------------------------- moving frames about

  lemma Exchange<T>(a: multiset<T>, b: multiset<T>, x: multiset<T>, y: multiset<T>, rest: multiset<T>)
    requires a + x == b + y
    ensures a + rest + x == b + rest + y
  {
    forall e ensures (a + rest + x)[e] == (b + rest + y)[e] {
      assert (a + x)[e] == (b + y)[e];
    }
  }

  lemma Cancel<T>(a: multiset<T>, b: multiset<T>, x: multiset<T>, y: multiset<T>, d: multiset<T>)
    requires a + x == b + y && y == x + d
    ensures a == b + d
  {
    forall e ensures a[e] == (b + d)[e] {
      assert (a + x)[e] == (b + y)[e];
    }
  }

  lemma Rearranged<T>(q: multiset<T>, q': multiset<T>, p: multiset<T>, p': multiset<T>, d: multiset<T>, d': multiset<T>,
                      f: multiset<T>)
    ensures q' + f == q && p' == p + f ==> q' + p' + d == q + p + d
    ensures p' + f == p && d' == d + f ==> q + p' + d' == q + p + d
    ensures q' + f == q && d' == d + f ==> q' + p + d' == q + p + d
    ensures q' == q + f ==> q' + p + d == q + p + d + f
    ensures p' + f == p ==> q + p' + d + f == q + p + d
    ensures d' + f == d ==> q + p + d' + f == q + p + d
  {
  }

  lemma {:induction false} QueuedAt(queues: seq<Queue>, q: nat, queue: Queue)
    requires q < |queues|
    ensures Queued(queues[q := queue]) + Waiting(queues[q]) == Queued(queues) + Waiting(queue)
  {
    hide Waiting;
    var n := |queues| - 1;
    var changed := queues[q := queue];
    if q < n {
      QueuedAt(queues[..n], q, queue);
      assert changed[..n] == queues[..n][q := queue];
      Exchange(Queued(changed[..n]), Queued(queues[..n]), Waiting(queues[q]), Waiting(queue), Waiting(queues[n]));
    } else {
      assert changed[..n] == queues[..n];
    }
  }

  lemma InCounts(queues: seq<Queue>, pending: multiset<Frame>, f: Frame, queue: Queue)
    requires f.queue < |queues| && CountsPending(queues, pending) && queue.pending == queues[f.queue].pending + 1
    ensures CountsPending(queues[f.queue := queue], pending + multiset{f})
  {
    hide Tally;
    TallyAdd(pending, f, QueueOf);
  }

  lemma OutCounts(queues: seq<Queue>, pending: multiset<Frame>, f: Frame)
    requires f in pending && f.queue < |queues| && CountsPending(queues, pending)
    ensures CountsPending(CountedOut(queues, f.queue), pending - multiset{f})
  {
    hide Tally;
    TallyRemove(pending, f, QueueOf);
  }

  // A queue is replaced by one that has the same count of frames in the chip.
  lemma LaneChanged(queues: seq<Queue>, q: nat, queue: Queue, pending: multiset<Frame>)
    requires q < |queues| && AtHome(queues)
    requires Belongs(queue.normal, q, false) && Belongs(queue.cab, q, true)
    ensures AtHome(queues[q := queue])
    ensures CountsPending(queues, pending) && queue.pending == queues[q].pending ==> CountsPending(queues[q := queue], pending)
  {
    hide Tally, Belongs;
  }

  lemma EnqueuedEffect(queues: seq<Queue>, f: Frame, pending: multiset<Frame>)
    requires f.queue < |queues| && AtHome(queues)
    ensures var t := Enqueued(queues, f);
            && AtHome(t)
            && Queued(t) == Queued(queues) + multiset{f}
            && |t| == |queues|
            && (CountsPending(queues, pending) ==> CountsPending(t, pending))
  {
    hide Queued, CountsPending;
    var t := Enqueued(queues, f);
    var queue := queues[f.queue];
    assert Belongs(Lane(queue, true), f.queue, true) && Belongs(Lane(queue, false), f.queue, false);
    LaneChanged(queues, f.queue, t[f.queue], pending);
    hide AtHome;
    QueuedAt(queues, f.queue, t[f.queue]);
    assert Waiting(t[f.queue]) == Waiting(queue) + multiset{f};
    Cancel(Queued(t), Queued(queues), Waiting(queue), Waiting(t[f.queue]), multiset{f});
  }

  lemma SubmitBooks(air: Traffic, f: Frame, stop: bool)
    requires Booked(air, Live(air)) && f.queue < |air.queues| && f.id !in air.submitted
    ensures var t := Accepted(air, f, stop); Live(t) == Live(air) + multiset{f} && Booked(t, Live(t))
    ensures |Accepted(air, f, stop).queues| == |air.queues|
  {
    hide AtHome, CountsPending, Queued, Enqueued, Tally;
    EnqueuedEffect(air.queues, f, multiset(air.pending));
    var t := Accepted(air, f, stop);
    var p, d := multiset(air.pending), multiset(air.dropped);
    Rearranged(Queued(air.queues), Queued(t.queues), p, p, d, d, multiset{f});
    TallyAdd(Live(air), f, IdOf);
    assert multiset(t.submitted) == multiset(air.submitted) + multiset{f.id};
  }

  lemma ServedEffect(queues: seq<Queue>, q: nat, cab: bool, pending: multiset<Frame>)
    requires q < |queues| && Lane(queues[q], cab) != [] && AtHome(queues)
    ensures var t, f := Served(queues, q, cab), Lane(queues[q], cab)[0];
            && f.queue == q
            && AtHome(t)
            && Queued(t) + multiset{f} == Queued(queues)
            && |t| == |queues|
            && (CountsPending(queues, pending) ==> CountsPending(t, pending + multiset{f}))
  {
    hide Queued, CountsPending;
    var t, lane := Served(queues, q, cab), Lane(queues[q], cab);
    assert Belongs(Lane(queues[q], true), q, true) && Belongs(Lane(queues[q], false), q, false);
    assert lane[0] in lane;
    assert lane == [lane[0]] + lane[1..];
    LaneChanged(queues, q, t[q], pending);
    hide AtHome;
    assert Waiting(queues[q]) == Waiting(t[q]) + multiset{lane[0]};
    QueuedAt(queues, q, t[q]);
    Cancel(Queued(queues), Queued(t), Waiting(t[q]), Waiting(queues[q]), multiset{lane[0]});
    if CountsPending(queues, pending) {
      InCounts(queues, pending, lane[0], t[q]);
    }
  }

  lemma ServedBooks(air: Traffic, q: nat, cab: bool, c: Choice)
    requires Booked(air, Live(air)) && q < |air.queues| && Lane(air.queues[q], cab) != []
    requires c == Choice(Some(Lane(air.queues[q], cab)[0]), Served(air.queues, q, cab), c.allowed)
    ensures var t := FrameSent(air, c); Live(t) == Live(air) && Booked(t, Live(t))
    ensures |c.queues| == |air.queues|
  {
    hide AtHome, CountsPending, Queued, Served, Lane, Tally, InRange;
    ServedEffect(air.queues, q, cab, multiset(air.pending));
    var t := FrameSent(air, c);
    var f := c.frame.value;
    var p, d := multiset(air.pending), multiset(air.dropped);
    assert multiset(t.pending) == p + multiset{f};
    Rearranged(Queued(air.queues), Queued(t.queues), p, multiset(t.pending), d, d, multiset{f});
    TallyAdd(p, f, PacketOf);
  }

  lemma SendBooks(air: Traffic)
    requires Booked(air, Live(air)) && Choose(air.queues, air.allowed).frame.Some?
    ensures var t := FrameSent(air, Choose(air.queues, air.allowed));
            Live(t) == Live(air) && Booked(t, Live(t)) && |t.queues| == |air.queues|
  {
    hide Booked, Live, Served, Before;
    var c := Choose(air.queues, air.allowed);
    var cab := Lightest(air.queues, true, |air.queues|);
    if true in air.allowed && cab.Some? {
      ServedBooks(air, cab.value, true, c);
    } else {
      ServedBooks(air, Lightest(air.queues, false, |air.queues|).value, false, c);
    }
  }

  lemma EmptiedEffect(queues: seq<Queue>, q: nat, cab: bool, pending: multiset<Frame>)
    requires q < |queues| && AtHome(queues)
    ensures var queue := queues[q];
            var t := queues[q := if cab then queue.(cab := []) else queue.(normal := [])];
            && AtHome(t)
            && Queued(t) + multiset(Lane(queue, cab)) == Queued(queues)
            && (CountsPending(queues, pending) ==> CountsPending(t, pending))
  {
    hide Queued, CountsPending;
    var queue := queues[q];
    var t := queues[q := if cab then queue.(cab := []) else queue.(normal := [])];
    assert Belongs(Lane(queue, true), q, true) && Belongs(Lane(queue, false), q, false);
    LaneChanged(queues, q, t[q], pending);
    hide AtHome;
    QueuedAt(queues, q, t[q]);
    assert Waiting(queue) == Waiting(t[q]) + multiset(Lane(queue, cab));
    Cancel(Queued(queues), Queued(t), Waiting(t[q]), Waiting(queue), multiset(Lane(queue, cab)));
  }

  lemma DropLaneBooks(air: Traffic, q: nat, cab: bool)
    requires Booked(air, Live(air)) && q < |air.queues|
    ensures var t := LaneDropped(air, q, cab); Live(t) == Live(air) && Booked(t, Live(t))
  {
    hide AtHome, CountsPending, Queued, Lane, Tally, InRange;
    EmptiedEffect(air.queues, q, cab, multiset(air.pending));
    var t := LaneDropped(air, q, cab);
    var p, d := multiset(air.pending), multiset(air.dropped);
    var lane := multiset(Lane(air.queues[q], cab));
    assert multiset(t.dropped) == d + lane;
    Rearranged(Queued(air.queues), Queued(t.queues), p, p, d, multiset(t.dropped), lane);
  }

  lemma CountedOutEffect(queues: seq<Queue>, q: nat)
    requires q < |queues|
    ensures var t := CountedOut(queues, q); Queued(t) == Queued(queues) && |t| == |queues|
    ensures AtHome(queues) ==> AtHome(CountedOut(queues, q))
  {
    hide Queued;
    var t := CountedOut(queues, q);
    QueuedAt(queues, q, t[q]);
    Cancel(Queued(t), Queued(queues), Waiting(queues[q]), Waiting(t[q]), multiset{});
    assert forall k, cab :: 0 <= k < |queues| ==> Lane(t[k], cab) == Lane(queues[k], cab);
  }

  lemma TakeOut(q: seq<Frame>, k: nat)
    requires k < |q|
    ensures multiset(q) == multiset(q[..k] + q[k + 1..]) + multiset{q[k]}
    ensures multiset(q[..k] + q[k + 1..]) == multiset(q) - multiset{q[k]}
  {
    assert q == q[..k] + [q[k]] + q[k + 1..];
  }

  // The frame at place k leaves the pending list for hand.
  lemma PendingOut(air: Traffic, k: nat, queues: seq<Queue>, pending: seq<Frame>)
    requires Booked(air, Live(air)) && k < |air.pending|
    requires queues == CountedOut(air.queues, air.pending[k].queue)
    requires pending == air.pending[..k] + air.pending[k + 1..]
    ensures var f := air.pending[k];
            && AtHome(queues)
            && Queued(queues) == Queued(air.queues)
            && |queues| == |air.queues|
            && multiset(air.pending) == multiset(pending) + multiset{f}
            && CountsPending(queues, multiset(pending))
            && Tally(multiset(air.pending), PacketOf) == Tally(multiset(pending), PacketOf) + multiset{f.packet}
  {
    var f := air.pending[k];
    TakeOut(air.pending, k);
    assert f in Live(air) && f.queue < |air.queues|;
    hide AtHome, CountsPending, Queued, Tally, Live, InRange;
    CountedOutEffect(air.queues, f.queue);
    OutCounts(air.queues, multiset(air.pending), f);
    TallyRemove(multiset(air.pending), f, PacketOf);
  }

  lemma DropPendingBooks(air: Traffic)
    requires Booked(air, Live(air)) && air.pending != []
    ensures var t := PendingDropped(air); Live(t) == Live(air) && Booked(t, Live(t)) && |t.queues| == |air.queues|
  {
    hide AtHome, CountsPending, Queued, CountedOut, Tally, InRange;
    var t := PendingDropped(air);
    var f := air.pending[0];
    assert t.pending == air.pending[..0] + air.pending[1..];
    PendingOut(air, 0, t.queues, t.pending);
    var p, d := multiset(air.pending), multiset(air.dropped);
    assert multiset(t.dropped) == d + multiset{f};
    Rearranged(Queued(air.queues), Queued(t.queues), p, multiset(t.pending), d, multiset(t.dropped), multiset{f});
  }

  lemma UnpendedBooks(air: Traffic, k: nat, c: Confirmation)
    requires Booked(air, Live(air)) && k < |air.pending| && air.pending[k].packet == c.packet
    ensures var t := Unpended(air, k, c);
            && Live(t) + multiset{air.pending[k]} == Live(air)
            && Booked(t, Live(air))
            && |t.queues| == |air.queues|
  {
    hide AtHome, CountsPending, Queued, CountedOut, Tally, InRange;
    var t := Unpended(air, k, c);
    PendingOut(air, k, t.queues, t.pending);
    var p, d := multiset(air.pending), multiset(air.dropped);
    Rearranged(Queued(air.queues), Queued(t.queues), p, multiset(t.pending), d, d, multiset{air.pending[k]});
  }

  lemma UnknownBooks(air: Traffic, c: Confirmation)
    requires Booked(air, Live(air)) && c.packet in air.inChip && FirstWithPacket(air.pending, c.packet).None?
    ensures Booked(Unknown(air, c), Live(air)) && Live(Unknown(air, c)) == Live(air) && c.packet in air.abandoned
  {
    hide AtHome, CountsPending, Queued, InRange, Tally;
    if c.packet in Tally(multiset(air.pending), PacketOf) {
      TallySource(multiset(air.pending), PacketOf, c.packet);
    }
  }

  lemma ReportBooks(s: Device, f: Frame)
    requires |s.air.queues| == ACS * |s.vifs| && Booked(s.air, Live(s.air) + multiset{f})
    ensures var t := Report(s, f).air; Booked(t, Live(t)) && Live(t) == Live(s.air) && |t.queues| == |s.air.queues|
  {
    hide GiveBack, AtHome, CountsPending, Queued, Tally;
    var t := Report(s, f).air;
    assert f in Live(s.air) + multiset{f};
    TallyAdd(Live(s.air), f, IdOf);
  }

  // ---------------------------------------------------------------- every step

  lemma ConfirmConserves(s: Device, c: Confirmation)
    requires Conserved(s) && c.packet in s.air.inChip
    ensures Conserved(Confirm(s, c))
  {
    hide Booked, Live, Report;
    var heard := s.ctl.(used := s.ctl.used - 1);
    var found := FirstWithPacket(s.air.pending, c.packet);
    if found.None? {
      UnknownBooks(s.air, c);
    } else {
      var k := found.value;
      var t := Device(s.vifs, Unpended(s.air, k, c), heard);
      UnpendedBooks(s.air, k, c);
      ReportBooks(t, s.air.pending[k]);
      ReportEffect(t, s.air.pending[k]);
    }
  }

  lemma {:induction false} ConfirmAllConserves(s: Device, cs: seq<Confirmation>)
    requires Conserved(s) && Packets(cs) <= s.air.inChip
    ensures Conserved(ConfirmAll(s, cs))
    decreases |cs|
  {
    hide Booked, Confirm;
    if cs != [] {
      assert cs[0].packet in Packets(cs);
      ConfirmConserves(s, cs[0]);
      ConfirmEffect(s, cs[0]);
      ConfirmAllConserves(Confirm(s, cs[0]), cs[1..]);
    }
  }

  lemma SubmitConserves(s: Device, a: Action)
    requires Conserved(s) && a.Submit? && Enabled(s, a)
    ensures Conserved(Submitted(s, a))
  {
    hide Booked, Live, Obtain, Enqueued;
    var got := Obtain(s.vifs[a.vif].table, a.rates);
    var f := NewFrame(s, a);
    assert f.queue < |s.air.queues|;
    SubmitBooks(s.air, f, got.idx != INVALID && got.table.free == []);
  }

  lemma RefuseBooks(air: Traffic, id: nat)
    requires Booked(air, Live(air)) && id !in air.submitted
    ensures var t := air.(submitted := air.submitted + {id}, reported := air.reported + [id]); Booked(t, Live(t))
  {
    hide AtHome, CountsPending, Queued, Tally, InRange;
    var t := air.(submitted := air.submitted + {id}, reported := air.reported + [id]);
    assert multiset(t.submitted) == multiset(air.submitted) + multiset{id};
    assert Live(t) == Live(air);
  }

  lemma AllowBooks(air: Traffic, allowed: seq<bool>)
    requires Booked(air, Live(air))
    ensures Booked(air.(allowed := allowed), Live(air.(allowed := allowed)))
  {
    hide AtHome, CountsPending, Queued, Tally, InRange;
  }

  lemma SendOneConserves(s: Device)
    requires Conserved(s) && s.ctl.bh.Sending?
    ensures Conserved(SendOne(s))
  {
    hide Booked, Live, Choose;
    var c := Choose(s.air.queues, s.air.allowed);
    AllowBooks(s.air, c.allowed);
    if c.frame.Some? {
      SendBooks(s.air);
    }
  }

  lemma DroppedOut(air: Traffic)
    requires air.dropped != []
    ensures Live(air.(dropped := air.dropped[1..])) + multiset{air.dropped[0]} == Live(air)
  {
    hide Queued;
    var f, rest := air.dropped[0], air.dropped[1..];
    assert air.dropped == [f] + rest;
    assert multiset(air.dropped) == multiset(rest) + multiset{f};
    var q, p := Queued(air.queues), multiset(air.pending);
    Rearranged(q, q, p, p, multiset(air.dropped), multiset(rest), multiset{f});
  }

  lemma DroppedReportedConserves(s: Device)
    requires Conserved(s) && s.air.dropped != []
    ensures Conserved(DroppedReported(s))
  {
    hide AtHome, CountsPending, Live, Tally, InRange, Report;
    var t := s.(air := s.air.(dropped := s.air.dropped[1..]));
    DroppedOut(s.air);
    ReportBooks(t, s.air.dropped[0]);
    ReportEffect(t, s.air.dropped[0]);
  }

  lemma StepConserves(s: Device, a: Action)
    requires Conserved(s) && Enabled(s, a)
    ensures Conserved(Step(s, a))
  {
    hide Booked, Live, Submitted, Report, ConfirmAll, SendOne, LaneDropped, PendingDropped, Scanned, DroppedReported;
    if !OnlyControl(a) {
      match a
      case Submit(_, _, _, _, _, _) => SubmitConserves(s, a);
      case Refuse(id) => RefuseBooks(s.air, id);
      case DropLane(q, cab) =>
        DropLaneBooks(s.air, q, cab);
        LaneDroppedShape(s.air, q, cab);
      case DropPending => DropPendingBooks(s.air);
      case ReportDropped => DroppedReportedConserves(s);
      case AllowMulticast(v) => AllowBooks(s.air, s.air.allowed[v := true]);
      case BhSend => SendOneConserves(s);
      case BhConfirm(cs) => ConfirmAllConserves(Heard(s), cs);
      case _ =>
    }
  }

  lemma LaneDroppedShape(air: Traffic, q: nat, cab: bool)
    requires q < |air.queues|
    ensures |LaneDropped(air, q, cab).queues| == |air.queues|
    ensures LaneDropped(air, q, cab).abandoned == air.abandoned
  {
  }
}
