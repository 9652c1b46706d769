// The order in which frames leave: first in, first out, and buffered multicast only when it is allowed.
module TxOrder {
  import opened RetryPolicy
  import opened FrameQueues
  import opened Tallies
  import opened TxEngine
  import opened TxAccounting
  import opened TxConservation
  import opened TxPolicies
  import opened TxSafety
  import opened TxGuarantees

  // ---------------------------------------------------------------- what happens to a lane

  function Ids(lane: seq<Frame>): (r: seq<nat>)
    ensures |r| == |lane|
  {
    seq(|lane|, k requires 0 <= k < |lane| => lane[k].id)
  }

  ghost predicate SameLanes(a: seq<Queue>, b: seq<Queue>) {
    |a| == |b| && forall q, cab :: 0 <= q < |a| ==> Lane(b[q], cab) == Lane(a[q], cab)
  }

  // The frame that a step hands over to a lane, if any.
  function Joining(a: Action, q: nat, cab: bool): seq<nat> {
    if a.Submit? && ACS * a.vif + a.ac == q && a.afterDtim == cab then [a.id] else []
  }

  // Frames handed over to a lane during a run, in order.
  function Joined(run: seq<Action>, q: nat, cab: bool): seq<nat>
    decreases |run|
  {
    if run == [] then [] else Joining(run[0], q, cab) + Joined(run[1..], q, cab)
  }

  // What a step may do to a lane: a frame joins at the end, or some leave at the front.
  ghost predicate LaneMoves(before: seq<nat>, joining: seq<nat>, after: seq<nat>) {
    exists k: nat :: k <= |before| && after == before[k..] + joining
  }

  lemma SubmitMoves(s: Device, a: Action, q: nat, cab: bool)
    requires a.Submit? && Enabled(s, a) && |s.air.queues| == ACS * |s.vifs| && q < |s.air.queues|
    ensures var t := Submitted(s, a);
            |t.air.queues| == |s.air.queues|
            && Ids(Lane(t.air.queues[q], cab)) == Ids(Lane(s.air.queues[q], cab)) + Joining(a, q, cab)
  {
    hide Obtain;
  }

  lemma {:induction false} ConfirmAllLanes(s: Device, cs: seq<Confirmation>)
    ensures SameLanes(s.air.queues, ConfirmAll(s, cs).air.queues)
    decreases |cs|
  {
    hide Confirm;
    if cs != [] {
      ConfirmLanes(s, cs[0]);
      ConfirmAllLanes(Confirm(s, cs[0]), cs[1..]);
    }
  }

  lemma ConfirmLanes(s: Device, c: Confirmation)
    ensures SameLanes(s.air.queues, Confirm(s, c).air.queues)
  {
    hide Report;
    var found := FirstWithPacket(s.air.pending, c.packet);
    if found.Some? {
      var t := Device(s.vifs, Unpended(s.air, found.value, c), s.ctl.(used := s.ctl.used - 1));
      ReportEffect(t, s.air.pending[found.value]);
    }
  }

  lemma SendOneMoves(s: Device, q: nat, cab: bool)
    requires s.ctl.bh.Sending? && q < |s.air.queues|
    ensures var t := SendOne(s);
            |t.air.queues| == |s.air.queues|
            && (Lane(t.air.queues[q], cab) == Lane(s.air.queues[q], cab)
                || (Lane(s.air.queues[q], cab) != [] && Lane(t.air.queues[q], cab) == Lane(s.air.queues[q], cab)[1..]))
  {
    var c := Choose(s.air.queues, s.air.allowed);
    ChooseSelects(s.air.queues, s.air.allowed);
    SelectedMoves(s.air.queues, s.air.allowed, c, q, cab);
    hide Choose, Obeyed, Selected;
  }

  lemma SelectedMoves(queues: seq<Queue>, allowed: seq<bool>, c: Choice, q: nat, cab: bool)
    requires Selected(queues, allowed, c) && q < |queues|
    ensures |c.queues| == |queues|
    ensures || Lane(c.queues[q], cab) == Lane(queues[q], cab)
            || (Lane(queues[q], cab) != [] && Lane(c.queues[q], cab) == Lane(queues[q], cab)[1..])
  {
    var lane := MulticastDue(queues, allowed);
    if c.frame.Some? {
      var r: nat :| LeastLoaded(queues, r, lane) && GaveFirst(queues, r, lane, c);
    }
  }

  lemma OtherLanes(s: Device, a: Action)
    requires Enabled(s, a) && !a.Submit? && !a.BhSend? && !a.DropLane?
    ensures SameLanes(s.air.queues, Step(s, a).air.queues)
  {
    hide FirstDirty, Controlled, ConfirmAll, Report, Reversed;
    if a.BhConfirm? {
      ConfirmAllLanes(Heard(s), a.confirmations);
    } else if a.ReportDropped? {
      ReportEffect(s.(air := s.air.(dropped := s.air.dropped[1..])), s.air.dropped[0]);
    }
  }

  lemma Stays(before: seq<nat>)
    ensures LaneMoves(before, [], before)
  {
    assert before[0..] + [] == before;
  }

  lemma StepMoves(s: Device, a: Action, q: nat, cab: bool)
    requires Enabled(s, a) && |s.air.queues| == ACS * |s.vifs| && q < |s.air.queues|
    ensures var t := Step(s, a);
            |t.air.queues| == |s.air.queues|
            && LaneMoves(Ids(Lane(s.air.queues[q], cab)), Joining(a, q, cab), Ids(Lane(t.air.queues[q], cab)))
  {
    hide Submitted, SendOne, ConfirmAll, DroppedReported, FirstDirty, Controlled, LaneMoves, Reversed, PendingDropped;
    var before := Ids(Lane(s.air.queues[q], cab));
    Stays(before);
    if a.Submit? {
      SubmitMoves(s, a, q, cab);
      Joins(before, Joining(a, q, cab));
    } else if a.BhSend? {
      SendOneMoves(s, q, cab);
      Leaves(Lane(s.air.queues[q], cab));
    } else if a.DropLane? {
      AllLeave(before);
    } else {
      OtherLanes(s, a);
    }
  }

  lemma Joins(before: seq<nat>, joining: seq<nat>)
    ensures LaneMoves(before, joining, before + joining)
  {
    assert before[0..] + joining == before + joining;
  }

  lemma Leaves(lane: seq<Frame>)
    ensures lane != [] ==> LaneMoves(Ids(lane), [], Ids(lane[1..]))
  {
    if lane != [] {
      assert Ids(lane[1..]) == Ids(lane)[1..] + [];
    }
  }

  lemma AllLeave(before: seq<nat>)
    ensures LaneMoves(before, [], Ids([]))
  {
    assert Ids([]) == before[|before|..] + [];
  }

  // ---------------------------------------------------------------- first in, first out

  // s holds the last of what was there before and has been handed over since.
  ghost predicate IsTail(all: seq<nat>, rest: seq<nat>) {
    |rest| <= |all| && rest == all[|all| - |rest|..]
  }

  lemma TailMoves(all: seq<nat>, before: seq<nat>, joining: seq<nat>, after: seq<nat>)
    requires IsTail(all, before) && LaneMoves(before, joining, after)
    ensures IsTail(all + joining, after)
  {
    hide IsTail;
    var k: nat :| k <= |before| && after == before[k..] + joining;
    TailOfTail(all, before, joining, k);
  }

  lemma TailOfTail(all: seq<nat>, before: seq<nat>, joining: seq<nat>, k: nat)
    requires IsTail(all, before) && k <= |before|
    ensures IsTail(all + joining, before[k..] + joining)
  {
    var d := |all| - |before|;
    assert before[k..] == all[d + k..];
    assert (all + joining)[d + k..] == all[d + k..] + joining;
  }

  lemma {:induction false} LaneIsTail(s: Device, run: seq<Action>, q: nat, cab: bool, all: seq<nat>)
    requires CanRun(s, run) && |s.air.queues| == ACS * |s.vifs| && q < |s.air.queues| && Conserved(s)
    requires IsTail(all, Ids(Lane(s.air.queues[q], cab)))
    ensures var t := TxEngine.Run(s, run);
            q < |t.air.queues| && IsTail(all + Joined(run, q, cab), Ids(Lane(t.air.queues[q], cab)))
    decreases |run|
  {
    hide Step, Enabled, Conserved, IsTail, Ids, LaneMoves;
    if run == [] {
      assert all + Joined(run, q, cab) == all;
    } else {
      var a, t := run[0], Step(s, run[0]);
      StepMoves(s, a, q, cab);
      StepConserves(s, a);
      ConservedQueues(t);
      TailMoves(all, Ids(Lane(s.air.queues[q], cab)), Joining(a, q, cab), Ids(Lane(t.air.queues[q], cab)));
      LaneIsTail(t, run[1..], q, cab, all + Joining(a, q, cab));
      assert all + Joined(run, q, cab) == all + Joining(a, q, cab) + Joined(run[1..], q, cab);
    }
  }

  lemma ConservedQueues(s: Device)
    requires Conserved(s)
    ensures |s.air.queues| == ACS * |s.vifs|
  {
  }

  // At any time a lane holds the last of the frames ever handed over to it, in the order in which they
  // were.
  lemma FirstInFirstOut(start: Device, run: seq<Action>, q: nat, cab: bool)
    requires AtStart(start) && CanRun(start, run) && q < |start.air.queues|
    ensures var s := TxEngine.Run(start, run);
            q < |s.air.queues| && IsTail(Joined(run, q, cab), Ids(Lane(s.air.queues[q], cab)))
  {
    StartConserves(start);
    assert Ids(Lane(start.air.queues[q], cab)) == [];
    hide Conserved, AtStart;
    ConservedQueues(start);
    LaneIsTail(start, run, q, cab, []);
    assert [] + Joined(run, q, cab) == Joined(run, q, cab);
  }

  // A place in a lane for each of the frames handed over to it during a run.
  lemma {:induction false} JoinedAt(run: seq<Action>, q: nat, cab: bool, i: nat) returns (k: nat)
    requires i < |run| && Joining(run[i], q, cab) != []
    ensures k < |Joined(run, q, cab)| && Joined(run, q, cab)[k] == run[i].id
    ensures k == |Joined(run[..i], q, cab)|
    decreases |run|
  {
    if i == 0 {
      k := 0;
    } else {
      var rest := JoinedAt(run[1..], q, cab, i - 1);
      k := |Joining(run[0], q, cab)| + rest;
      assert run[..i][1..] == run[1..][..i - 1] && run[..i][0] == run[0];
    }
  }

  lemma {:induction false} JoinedGrows(run: seq<Action>, q: nat, cab: bool, i: nat, j: nat)
    requires i < j <= |run| && Joining(run[i], q, cab) != []
    ensures |Joined(run[..i], q, cab)| < |Joined(run[..j], q, cab)|
    decreases |run|
  {
    assert run[..j][0] == run[0];
    assert run[..j][1..] == run[1..][..j - 1];
    if i > 0 {
      assert run[..i][0] == run[0];
      assert run[..i][1..] == run[1..][..i - 1];
      JoinedGrows(run[1..], q, cab, i - 1, j - 1);
    }
  }

  lemma SubmittedGrows(s: Device, a: Action)
    requires Enabled(s, a)
    ensures s.air.submitted <= Step(s, a).air.submitted
    ensures a.Submit? ==> a.id !in s.air.submitted && a.id in Step(s, a).air.submitted
  {
    hide Obtain, FirstDirty, Controlled, ConfirmAll, Report, Choose, Enqueued;
    if a.BhConfirm? {
      ConfirmAllSubmitted(Heard(s), a.confirmations);
    } else if a.ReportDropped? {
      ReportEffect(s.(air := s.air.(dropped := s.air.dropped[1..])), s.air.dropped[0]);
    }
  }

  lemma {:induction false} ConfirmAllSubmitted(s: Device, cs: seq<Confirmation>)
    ensures ConfirmAll(s, cs).air.submitted == s.air.submitted
    decreases |cs|
  {
    hide Confirm;
    if cs != [] {
      ConfirmSubmitted(s, cs[0]);
      ConfirmAllSubmitted(Confirm(s, cs[0]), cs[1..]);
    }
  }

  lemma ConfirmSubmitted(s: Device, c: Confirmation)
    ensures Confirm(s, c).air.submitted == s.air.submitted
  {
    hide Report;
    var found := FirstWithPacket(s.air.pending, c.packet);
    if found.Some? {
      var t := Device(s.vifs, Unpended(s.air, found.value, c), s.ctl.(used := s.ctl.used - 1));
      ReportEffect(t, s.air.pending[found.value]);
    }
  }

  // No frame is handed over twice.
  lemma {:induction false} JoinedOnce(s: Device, run: seq<Action>, q: nat, cab: bool)
    requires CanRun(s, run)
    ensures forall x <- Joined(run, q, cab) :: x !in s.air.submitted
    ensures forall k, m :: 0 <= k < m < |Joined(run, q, cab)| ==> Joined(run, q, cab)[k] != Joined(run, q, cab)[m]
    decreases |run|
  {
    hide Step, Enabled;
    if run != [] {
      SubmittedGrows(s, run[0]);
      JoinedOnce(Step(s, run[0]), run[1..], q, cab);
    }
  }

  // If g is handed over after f to the same lane, then as long as f waits, g waits behind it.
  lemma LaterWaitsBehind(start: Device, run: seq<Action>, i: nat, j: nat, p: nat)
    requires AtStart(start) && CanRun(start, run) && SameLaneLater(start, run, i, j)
    requires WaitsAt(TxEngine.Run(start, run), run[i], p)
    ensures exists r :: p < r && WaitsAt(TxEngine.Run(start, run), run[j], r)
  {
    var q, cab := ACS * run[i].vif + run[i].ac, run[i].afterDtim;
    FirstInFirstOut(start, run, q, cab);
    JoinedOnce(start, run, q, cab);
    hide AtStart, CanRun, TxEngine.Run, Joined, IsTail;
    var s := TxEngine.Run(start, run);
    var r := BehindInLane(run, q, cab, i, j, p, Lane(s.air.queues[q], cab));
    assert WaitsAt(s, run[j], r);
  }

  lemma BehindInLane(run: seq<Action>, q: nat, cab: bool, i: nat, j: nat, p: nat, lane: seq<Frame>) returns (r: nat)
    requires i < j < |run| && Joining(run[i], q, cab) != [] && Joining(run[j], q, cab) != []
    requires IsTail(Joined(run, q, cab), Ids(lane)) && p < |lane| && lane[p].id == run[i].id
    requires forall k, m :: 0 <= k < m < |Joined(run, q, cab)| ==> Joined(run, q, cab)[k] != Joined(run, q, cab)[m]
    ensures p < r < |lane| && lane[r].id == run[j].id
  {
    hide Joined, Joining, IsTail;
    var k := JoinedAt(run, q, cab, i);
    var m := JoinedAt(run, q, cab, j);
    JoinedGrows(run, q, cab, i, j);
    var all, rest := Joined(run, q, cab), Ids(lane);
    assert rest[p] == lane[p].id;
    BehindInTail(all, rest, k, m, p);
    r := p + (m - k);
    assert rest[r] == lane[r].id;
  }

  lemma BehindInTail(all: seq<nat>, rest: seq<nat>, k: nat, m: nat, p: nat)
    requires IsTail(all, rest) && k < m < |all| && p < |rest| && rest[p] == all[k]
    requires forall x, y :: 0 <= x < y < |all| ==> all[x] != all[y]
    ensures p + (m - k) < |rest| && rest[p + (m - k)] == all[m]
  {
    var skipped := |all| - |rest|;
    assert rest[p] == all[skipped + p];
  }

  // Two frames handed over to one lane, the second later.
  ghost predicate SameLaneLater(start: Device, run: seq<Action>, i: nat, j: nat) {
    && i < j < |run| && run[i].Submit? && run[j].Submit?
    && run[i].vif == run[j].vif < |start.vifs| && run[i].ac == run[j].ac < ACS && run[i].afterDtim == run[j].afterDtim
    && ACS * |start.vifs| == |start.air.queues|
  }

  // The frame an action handed over waits at a place of its lane.
  ghost predicate WaitsAt(s: Device, a: Action, p: nat) {
    && a.Submit? && ACS * a.vif + a.ac < |s.air.queues|
    && var lane := Lane(s.air.queues[ACS * a.vif + a.ac], a.afterDtim); p < |lane| && lane[p].id == a.id
  }

  // So g is not in the chip, nor taken out, nor handed back, before f has left the lane.
  lemma LaterLeavesLater(start: Device, run: seq<Action>, i: nat, j: nat, p: nat)
    requires AtStart(start) && CanRun(start, run) && SameLaneLater(start, run, i, j)
    requires WaitsAt(TxEngine.Run(start, run), run[i], p)
    ensures var s, g := TxEngine.Run(start, run), run[j].id;
            && (forall x <- s.air.pending :: x.id != g)
            && (forall x <- s.air.dropped :: x.id != g)
            && g !in s.air.reported
  {
    var s := TxEngine.Run(start, run);
    LaterWaitsBehind(start, run, i, j, p);
    var r: nat :| WaitsAt(s, run[j], r);
    assert Reached(s);
    hide AtStart, CanRun, Reached;
    WaitingIsElsewhere(s, run[j], r);
  }

  lemma WaitingIsElsewhere(s: Device, a: Action, r: nat)
    requires Reached(s) && WaitsAt(s, a, r)
    ensures (forall x <- s.air.pending :: x.id != a.id) && (forall x <- s.air.dropped :: x.id != a.id)
    ensures a.id !in s.air.reported
  {
    var q, cab := ACS * a.vif + a.ac, a.afterDtim;
    var f := Lane(s.air.queues[q], cab)[r];
    LaneIsQueued(s.air.queues, q, cab);
    EachFrameInOnePlace(s, a.id);
    hide Reached, Queued;
    assert f in Queued(s.air.queues);
    Occurs(Queued(s.air.queues), f);
    forall x | x in s.air.pending ensures x.id != a.id {
      if x.id == a.id { Occurs(multiset(s.air.pending), x); }
    }
    forall x | x in s.air.dropped ensures x.id != a.id {
      if x.id == a.id { Occurs(multiset(s.air.dropped), x); }
    }
  }

  lemma Occurs(frames: multiset<Frame>, f: Frame)
    requires f in frames
    ensures Occurrences(frames, f.id) > 0
  {
    hide Tally;
    TallyRemove(frames, f, IdOf);
  }

  // A lane that is dropped is taken out whole, the frame that joined it last in front.
  lemma DroppedNewestFirst(s: Device, q: nat, cab: bool)
    requires q < |s.air.queues|
    ensures var lane, t := Lane(s.air.queues[q], cab), LaneDropped(s.air, q, cab);
            && Lane(t.queues[q], cab) == []
            && |t.dropped| == |lane| + |s.air.dropped|
            && (forall k :: 0 <= k < |lane| ==> t.dropped[k] == lane[|lane| - 1 - k])
            && t.dropped[|lane|..] == s.air.dropped
  {
    ReversedAt(Lane(s.air.queues[q], cab));
    hide Reversed;
  }

  lemma {:induction false} ReversedAt(lane: seq<Frame>)
    ensures |Reversed(lane)| == |lane|
    ensures forall k :: 0 <= k < |lane| ==> Reversed(lane)[k] == lane[|lane| - 1 - k]
  {
    if lane != [] {
      ReversedAt(lane[1..]);
    }
  }

  // ---------------------------------------------------------------- what reaches the chip

  // A step that puts a frame into the chip is one of the bottom half, with a buffer to spare, no
  // command to send, and nobody holding the transmit lock; the frame is the first of its lane, and
  // buffered multicast only if some interface is allowed to send it.
  lemma ReachesChip(s: Device, a: Action, f: Frame)
    requires Invariant(s) && Enabled(s, a) && f in Step(s, a).air.pending && f !in s.air.pending
    ensures a.BhSend? && s.ctl.used < s.ctl.credits && !s.ctl.command.Ready? && s.ctl.txLock == 0
    ensures f.queue < |s.air.queues| && Lane(s.air.queues[f.queue], f.afterDtim) != []
    ensures Lane(s.air.queues[f.queue], f.afterDtim)[0] == f
    ensures f.afterDtim ==> exists v :: 0 <= v < |s.air.allowed| && s.air.allowed[v]
    ensures Step(s, a).air.pending == s.air.pending + [f]
  {
    hide LocksKnown, CreditsKnown, Attended, Policed, Told, Live;
    if a.BhSend? {
      SentFrame(s, f);
    } else {
      OtherPending(s, a);
    }
  }

  lemma SentFrame(s: Device, f: Frame)
    requires Conserved(s) && s.ctl.bh.Sending? && f in SendOne(s).air.pending && f !in s.air.pending
    ensures s.ctl.used < s.ctl.credits && !s.ctl.command.Ready? && s.ctl.txLock == 0
    ensures f.queue < |s.air.queues| && Lane(s.air.queues[f.queue], f.afterDtim) != []
    ensures Lane(s.air.queues[f.queue], f.afterDtim)[0] == f
    ensures f.afterDtim ==> exists v :: 0 <= v < |s.air.allowed| && s.air.allowed[v]
    ensures SendOne(s).air.pending == s.air.pending + [f]
  {
    ChooseSelects(s.air.queues, s.air.allowed);
    hide Choose, Obeyed, LeastLoaded, Live, Identified, CountsPending, ChipHolds;
    SelectedFrom(s.air.queues, s.air.allowed, Choose(s.air.queues, s.air.allowed));
  }

  // The frame chosen is the first of the lane it belongs to.
  lemma SelectedFrom(queues: seq<Queue>, allowed: seq<bool>, c: Choice)
    requires Selected(queues, allowed, c) && AtHome(queues) && c.frame.Some?
    ensures var f := c.frame.value;
            && f.queue < |queues| && Lane(queues[f.queue], f.afterDtim) != [] && Lane(queues[f.queue], f.afterDtim)[0] == f
            && (f.afterDtim <==> MulticastDue(queues, allowed))
  {
    var cab := MulticastDue(queues, allowed);
    var q: nat :| LeastLoaded(queues, q, cab) && GaveFirst(queues, q, cab, c);
    var lane := Lane(queues[q], cab);
    assert Belongs(lane, q, cab) && lane[0] in lane;
  }

  lemma {:induction false} ConfirmAllPending(s: Device, cs: seq<Confirmation>)
    ensures forall f <- ConfirmAll(s, cs).air.pending :: f in s.air.pending
    ensures forall v :: 0 <= v < |s.air.allowed| == |ConfirmAll(s, cs).air.allowed| && ConfirmAll(s, cs).air.allowed[v] ==> s.air.allowed[v]
    ensures |ConfirmAll(s, cs).air.allowed| == |s.air.allowed|
    decreases |cs|
  {
    hide Confirm;
    if cs != [] {
      ConfirmPending(s, cs[0]);
      ConfirmAllPending(Confirm(s, cs[0]), cs[1..]);
    }
  }

  lemma ConfirmPending(s: Device, c: Confirmation)
    ensures forall f <- Confirm(s, c).air.pending :: f in s.air.pending
    ensures |Confirm(s, c).air.allowed| == |s.air.allowed|
    ensures forall v :: 0 <= v < |s.air.allowed| && Confirm(s, c).air.allowed[v] ==> s.air.allowed[v]
  {
    hide Report;
    var found := FirstWithPacket(s.air.pending, c.packet);
    if found.Some? {
      var t := Device(s.vifs, Unpended(s.air, found.value, c), s.ctl.(used := s.ctl.used - 1));
      ReportEffect(t, s.air.pending[found.value]);
    }
  }

  lemma OtherPending(s: Device, a: Action)
    requires Enabled(s, a) && !a.BhSend?
    ensures forall f <- Step(s, a).air.pending :: f in s.air.pending
    ensures |Step(s, a).air.allowed| == |s.air.allowed|
    ensures !a.AllowMulticast? ==> forall v :: 0 <= v < |s.air.allowed| && Step(s, a).air.allowed[v] ==> s.air.allowed[v]
  {
    hide Obtain, FirstDirty, Controlled, ConfirmAll, Report, Enqueued, Reversed, CountedOut;
    if a.BhConfirm? {
      ConfirmAllPending(Heard(s), a.confirmations);
    } else if a.ReportDropped? {
      ReportEffect(s.(air := s.air.(dropped := s.air.dropped[1..])), s.air.dropped[0]);
    }
  }

  // ---------------------------------------------------------------- multicast waits for permission

  ghost predicate NoMulticast(s: Device) {
    && (forall v :: 0 <= v < |s.air.allowed| ==> !s.air.allowed[v])
    && (forall f <- s.air.pending :: !f.afterDtim)
  }

  lemma StepNoMulticast(s: Device, a: Action)
    requires Invariant(s) && Enabled(s, a) && NoMulticast(s) && !a.AllowMulticast?
    ensures NoMulticast(Step(s, a))
  {
    hide Invariant, Step, Enabled;
    StepAllows(s, a);
    forall f | f in Step(s, a).air.pending ensures !f.afterDtim {
      if f !in s.air.pending {
        NoneEnters(s, a, f);
      }
    }
  }

  lemma NoneEnters(s: Device, a: Action, f: Frame)
    requires Invariant(s) && Enabled(s, a) && f in Step(s, a).air.pending && f !in s.air.pending
    requires forall v :: 0 <= v < |s.air.allowed| ==> !s.air.allowed[v]
    ensures !f.afterDtim
  {
    hide Invariant, Step, Enabled;
    ReachesChip(s, a, f);
  }

  lemma StepAllows(s: Device, a: Action)
    requires Enabled(s, a) && !a.AllowMulticast?
    ensures |Step(s, a).air.allowed| == |s.air.allowed|
    ensures forall v :: 0 <= v < |s.air.allowed| && Step(s, a).air.allowed[v] ==> s.air.allowed[v]
  {
    hide SendOne;
    if a.BhSend? {
      SendOneAllowed(s);
    } else {
      OtherPending(s, a);
    }
  }

  lemma SendOneAllowed(s: Device)
    requires s.ctl.bh.Sending?
    ensures |SendOne(s).air.allowed| == |s.air.allowed|
    ensures forall v :: 0 <= v < |s.air.allowed| && SendOne(s).air.allowed[v] ==> s.air.allowed[v]
  {
    ChooseSelects(s.air.queues, s.air.allowed);
    hide Choose, Obeyed, LeastLoaded, GaveFirst, MulticastDue;
  }

  // In a run in which no interface is ever allowed to send buffered multicast, none reaches the chip.
  lemma {:induction false} NoMulticastUnallowed(s: Device, run: seq<Action>)
    requires Invariant(s) && CanRun(s, run) && NoMulticast(s)
    requires forall a <- run :: !a.AllowMulticast?
    ensures NoMulticast(TxEngine.Run(s, run))
    decreases |run|
  {
    hide Invariant, Step, Enabled, NoMulticast;
    if run != [] {
      assert run[0] in run;
      StepKeepsInvariant(s, run[0]);
      StepNoMulticast(s, run[0]);
      NoMulticastUnallowed(Step(s, run[0]), run[1..]);
    }
  }

  lemma MulticastWaits(start: Device, run: seq<Action>)
    requires AtStart(start) && CanRun(start, run) && forall a <- run :: !a.AllowMulticast?
    ensures forall f <- TxEngine.Run(start, run).air.pending :: !f.afterDtim
  {
    StartHolds(start);
    assert NoMulticast(start);
    hide Invariant, AtStart;
    NoMulticastUnallowed(start, run);
  }

  // A permission ends when the bottom half looks for multicast and finds none anywhere, or when a
  // frame of its interface sent after a DTIM has to be queued again.
  lemma PermissionEnds(s: Device, v: nat)
    requires v < |s.air.allowed| && s.air.allowed[v]
    ensures s.ctl.bh.Sending? ==>
              (!SendOne(s).air.allowed[v] <==>
               && s.ctl.bh.sent < BATCH && s.ctl.used < s.ctl.credits && !s.ctl.command.Ready? && s.ctl.txLock == 0
               && forall q :: 0 <= q < |s.air.queues| ==> s.air.queues[q].cab == [])
  {
    if s.ctl.bh.Sending? {
      SendOneAllowed(s);
      ChooseSelects(s.air.queues, s.air.allowed);
      hide Choose, Obeyed, LeastLoaded, GaveFirst;
    }
  }

  lemma RequeueEndsPermission(s: Device, c: Confirmation, v: nat)
    requires v < |s.air.allowed| && s.air.allowed[v]
    ensures !Confirm(s, c).air.allowed[v] <==>
            exists k :: 0 <= k < |s.air.pending| && s.air.pending[k].packet == c.packet
                        && (forall m :: 0 <= m < k ==> s.air.pending[m].packet != c.packet)
                        && c.requeue && s.air.pending[k].afterDtim && VifOf(s.air.pending[k]) == v
  {
    hide Report;
    FirstWithPacketIsFirst(s.air.pending, c.packet);
    var found := FirstWithPacket(s.air.pending, c.packet);
    if found.Some? {
      var t := Device(s.vifs, Unpended(s.air, found.value, c), s.ctl.(used := s.ctl.used - 1));
      ReportEffect(t, s.air.pending[found.value]);
    }
  }

  lemma FirstWithPacketIsFirst(pending: seq<Frame>, packet: nat)
    ensures var r := FirstWithPacket(pending, packet);
            r.Some? ==> forall m :: 0 <= m < r.value ==> pending[m].packet != packet
  {
  }
}
