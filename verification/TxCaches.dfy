// What the whole machine asks of the policy cache of one interface: a run of the cache by itself.
module TxCaches {
  import opened RetryPolicy
  import opened FrameQueues
  import opened Tallies
  import opened TxEngine
  import opened TxAccounting
  import opened TxConservation
  import opened TxPolicies
  import opened TxSafety

  // ---------------------------------------------------------------- requests of a step

  function PutOf(f: Frame, v: nat): seq<Op> {
    if VifOf(f) == v then [Put(f.policy)] else []
  }

  function ConfirmOps(s: Device, cs: seq<Confirmation>, v: nat): seq<Op>
    decreases |cs|
  {
    if cs == [] then []
    else
      var rest := ConfirmOps(Confirm(s, cs[0]), cs[1..], v);
      match FirstWithPacket(s.air.pending, cs[0].packet)
      case None => rest
      case Some(k) => PutOf(s.air.pending[k], v) + rest
  }

  // A frame handed over takes a slot of its interface and a frame handed back gives it up.
  function StepOps(s: Device, a: Action, v: nat): seq<Op>
    requires Enabled(s, a)
  {
    match a
    case Submit(_, w, _, _, _, rates) => if w == v then [Get(rates)] else []
    case ReportDropped => PutOf(s.air.dropped[0], v)
    case BhConfirm(cs) => ConfirmOps(Heard(s), cs, v)
    case _ => []
  }

  function RunOps(s: Device, run: seq<Action>, v: nat): seq<Op>
    requires CanRun(s, run)
    decreases |run|
  {
    if run == [] then [] else StepOps(s, run[0], v) + RunOps(Step(s, run[0]), run[1..], v)
  }

  // ---------------------------------------------------------------- the cache seen on its own

  // The table is what the cache alone would have, but for what has been uploaded.
  ghost predicate Mirrors(t: Table, holders: multiset<Slot>, o: Observed) {
    Remarked(o.table, t) && o.holders == holders
  }

  ghost predicate VifMirrors(s: Device, frames: multiset<Frame>, v: nat, o: Observed) {
    v < |s.vifs| && Mirrors(s.vifs[v].table, Tally(frames, HolderOf(v)), o)
  }

  lemma SameMatch(q: seq<Slot>, a: Slots, b: Slots, wanted: Rates)
    requires forall i: Slot :: a[i].rates == b[i].rates
    ensures FirstMatch(q, a, wanted) == FirstMatch(q, b, wanted)
  {
  }

  lemma SameLookup(a: Table, b: Table, wanted: Rates)
    requires Remarked(a, b)
    ensures Lookup(a, wanted) == Lookup(b, wanted)
  {
    SameMatch(a.used, a.slots, b.slots, wanted);
    SameMatch(a.free, a.slots, b.slots, wanted);
    hide FirstMatch;
  }

  lemma UsedRemarked(a: Table, b: Table, i: Slot)
    requires Remarked(a, b)
    ensures Remarked(Used(a, i), Used(b, i))
  {
    hide Without;
  }

  lemma RewrittenRemarked(a: Table, b: Table, i: Slot, wanted: Rates)
    requires Remarked(a, b)
    ensures Remarked(Rewritten(a, i, wanted), Rewritten(b, i, wanted))
  {
  }

  lemma ObtainRemarked(a: Table, b: Table, wanted: Rates)
    requires Remarked(a, b)
    ensures var x, y := Obtain(a, wanted), Obtain(b, wanted);
            x.idx == y.idx && x.renew == y.renew && Remarked(x.table, y.table)
  {
    SameLookup(a, b, wanted);
    assert a.free == b.free;
    hide Lookup, Remarked, Used, Rewritten;
    if a.free != [] {
      var found := Lookup(a, wanted);
      if found.Some? {
        UsedRemarked(a, b, found.value);
      } else {
        var oldest := a.free[|a.free| - 1];
        RewrittenRemarked(a, b, oldest, wanted);
        UsedRemarked(Rewritten(a, oldest, wanted), Rewritten(b, oldest, wanted), oldest);
      }
    }
  }

  lemma GiveBackRemarked(a: Table, b: Table, idx: nat)
    requires Remarked(a, b) && (idx == INVALID || idx < SLOTS)
    ensures Remarked(GiveBack(a, idx), GiveBack(b, idx))
  {
    hide Without;
  }

  // ---------------------------------------------------------------- runs of the cache in pieces

  lemma {:induction false} RunJoin(o: Observed, a: seq<Op>, b: seq<Op>)
    requires LegalRun(o, a) && LegalRun(RetryPolicy.Run(o, a), b)
    ensures LegalRun(o, a + b) && RetryPolicy.Run(o, a + b) == RetryPolicy.Run(RetryPolicy.Run(o, a), b)
    decreases |a|
  {
    hide Advance, Legal;
    if a == [] {
      assert a + b == b;
    } else {
      assert (a + b)[1..] == a[1..] + b;
      RunJoin(Advance(o, a[0]), a[1..], b);
    }
  }

  lemma RunOne(o: Observed, op: Op)
    requires Legal(o, op)
    ensures LegalRun(o, [op]) && RetryPolicy.Run(o, [op]) == Advance(o, op)
  {
    hide Advance;
    assert LegalRun(Advance(o, op), []);
  }

  // ---------------------------------------------------------------- each step

  lemma GetMirrors(t: Table, holders: multiset<Slot>, o: Observed, rates: Rates)
    requires Mirrors(t, holders, o)
    ensures var got, ops := Obtain(t, rates), [Get(rates)];
            LegalRun(o, ops) && Mirrors(got.table, AddHolder(holders, got.idx), RetryPolicy.Run(o, ops))
  {
    ObtainRemarked(o.table, t, rates);
    RunOne(o, Get(rates));
    hide Obtain;
  }

  lemma PutMirrors(t: Table, holders: multiset<Slot>, o: Observed, idx: PolicyIndex)
    requires Mirrors(t, AddHolder(holders, idx), o)
    ensures LegalRun(o, [Put(idx)]) && Mirrors(GiveBack(t, idx), holders, RetryPolicy.Run(o, [Put(idx)]))
  {
    GiveBackRemarked(o.table, t, idx);
    RunOne(o, Put(idx));
    hide GiveBack, Remarked;
    assert AddHolder(holders, idx) - (if idx < SLOTS then multiset{idx as Slot} else multiset{}) == holders;
  }

  lemma SubmitMirrors(s: Device, a: Action, v: nat, o: Observed)
    requires Conserved(s) && a.Submit? && Enabled(s, a) && VifMirrors(s, Live(s.air), v, o)
    ensures var t, ops := Submitted(s, a), StepOps(s, a, v);
            LegalRun(o, ops) && VifMirrors(t, Live(t.air), v, RetryPolicy.Run(o, ops))
  {
    hide Live, Booked, Mirrors, Obtain, Accepted, Tally, LegalRun;
    var f, got := NewFrame(s, a), Obtain(s.vifs[a.vif].table, a.rates);
    SubmitBooks(s.air, f, got.idx != INVALID && got.table.free == []);
    AddFrame(Live(s.air), f);
    assert VifOf(f) == a.vif;
    if a.vif == v {
      GetMirrors(s.vifs[v].table, Tally(Live(s.air), HolderOf(v)), o, a.rates);
    } else {
      NoOps(o);
    }
  }

  lemma NoOps(o: Observed)
    ensures LegalRun(o, []) && RetryPolicy.Run(o, []) == o
  {
  }

  lemma ReportMirrors(s: Device, f: Frame, frames: multiset<Frame>, v: nat, o: Observed)
    requires VifOf(f) < |s.vifs| && VifMirrors(s, frames + multiset{f}, v, o)
    ensures var t, ops := Report(s, f), PutOf(f, v);
            LegalRun(o, ops) && VifMirrors(t, frames, v, RetryPolicy.Run(o, ops))
  {
    hide Mirrors, GiveBack, Tally, LegalRun;
    AddFrame(frames, f);
    if VifOf(f) == v {
      PutMirrors(s.vifs[v].table, Tally(frames, HolderOf(v)), o, f.policy);
    } else {
      NoOps(o);
    }
  }

  lemma DroppedMirrors(s: Device, v: nat, o: Observed)
    requires Conserved(s) && s.air.dropped != [] && VifMirrors(s, Live(s.air), v, o)
    ensures var t, ops := DroppedReported(s), PutOf(s.air.dropped[0], v);
            LegalRun(o, ops) && VifMirrors(t, Live(t.air), v, RetryPolicy.Run(o, ops))
  {
    hide Live, Conserved, Report, Mirrors, LegalRun, Tally;
    var f := s.air.dropped[0];
    var u := s.(air := s.air.(dropped := s.air.dropped[1..]));
    LiveHolds(s.air, f);
    HasVif(s, f);
    DroppedOut(s.air);
    ReportMirrors(u, f, Live(u.air), v, o);
    ReportEffect(u, f);
    LiveSame(u.air, Report(u, f).air);
  }

  lemma ConfirmMirrors(s: Device, c: Confirmation, v: nat, o: Observed) returns (ops: seq<Op>)
    requires Conserved(s) && c.packet in s.air.inChip && VifMirrors(s, Live(s.air), v, o)
    ensures ConfirmOps(s, [c], v) == ops
    ensures LegalRun(o, ops) && VifMirrors(Confirm(s, c), Live(Confirm(s, c).air), v, RetryPolicy.Run(o, ops))
  {
    hide Live, Booked, Report, Mirrors, LegalRun, Tally;
    var found := FirstWithPacket(s.air.pending, c.packet);
    ops := [];
    if found.None? {
      UnknownBooks(s.air, c);
      NoOps(o);
    } else {
      var f := s.air.pending[found.value];
      LiveHolds(s.air, f);
      HasVif(s, f);
      UnpendedBooks(s.air, found.value, c);
      var u := Device(s.vifs, Unpended(s.air, found.value, c), s.ctl.(used := s.ctl.used - 1));
      ReportMirrors(u, f, Live(u.air), v, o);
      ReportEffect(u, f);
      LiveSame(u.air, Report(u, f).air);
      ops := PutOf(f, v);
      assert ops + [] == ops;
    }
  }

  lemma ConfirmOpsFirst(s: Device, cs: seq<Confirmation>, v: nat)
    requires cs != []
    ensures ConfirmOps(s, cs, v) == ConfirmOps(s, [cs[0]], v) + ConfirmOps(Confirm(s, cs[0]), cs[1..], v)
  {
    hide Confirm;
    assert ConfirmOps(Confirm(s, cs[0]), [cs[0]][1..], v) == [];
  }

  lemma {:induction false} ConfirmAllMirrors(s: Device, cs: seq<Confirmation>, v: nat, o: Observed)
    requires Conserved(s) && Packets(cs) <= s.air.inChip && VifMirrors(s, Live(s.air), v, o)
    ensures var t, ops := ConfirmAll(s, cs), ConfirmOps(s, cs, v);
            LegalRun(o, ops) && VifMirrors(t, Live(t.air), v, RetryPolicy.Run(o, ops))
    decreases |cs|
  {
    hide Conserved, Confirm, Live, VifMirrors, LegalRun;
    if cs == [] {
      NoOps(o);
    } else {
      assert cs[0].packet in Packets(cs);
      var first := ConfirmMirrors(s, cs[0], v, o);
      ConfirmConserves(s, cs[0]);
      ConfirmEffect(s, cs[0]);
      ConfirmAllMirrors(Confirm(s, cs[0]), cs[1..], v, RetryPolicy.Run(o, first));
      ConfirmOpsFirst(s, cs, v);
      RunJoin(o, first, ConfirmOps(Confirm(s, cs[0]), cs[1..], v));
    }
  }

  // Steps that neither hand over nor hand back a frame change no cache but for what is uploaded.
  lemma OtherStepMirrors(s: Device, a: Action, v: nat, o: Observed)
    requires Conserved(s) && Enabled(s, a) && !a.Submit? && !a.ReportDropped? && !a.BhConfirm?
    requires VifMirrors(s, Live(s.air), v, o)
    ensures VifMirrors(Step(s, a), Live(Step(s, a).air), v, o)
  {
    OtherStepLive(s, a);
    OtherStepRemarks(s, a, v);
    hide Live, Tally, Step, Enabled, Conserved;
  }

  lemma OtherStepLive(s: Device, a: Action)
    requires Conserved(s) && Enabled(s, a) && !a.Submit? && !a.ReportDropped? && !a.BhConfirm?
    ensures Live(Step(s, a).air) == Live(s.air)
  {
    hide Booked, Live, SendOne, FirstDirty, Controlled, LaneDropped, PendingDropped;
    if a.DropLane? {
      DropLaneBooks(s.air, a.queue, a.cab);
    } else if a.DropPending? {
      DropPendingBooks(s.air);
    } else if a.BhSend? {
      SendOneLive(s);
    } else {
      LiveSame(s.air, Step(s, a).air);
    }
  }

  lemma SendOneLive(s: Device)
    requires Conserved(s) && s.ctl.bh.Sending?
    ensures Live(SendOne(s).air) == Live(s.air)
  {
    hide Booked, Live, Choose, Obeyed;
    var c := Choose(s.air.queues, s.air.allowed);
    LiveSame(s.air, s.air.(allowed := c.allowed));
    if c.frame.Some? {
      SendBooks(s.air);
    }
  }

  lemma OtherStepRemarks(s: Device, a: Action, v: nat)
    requires Enabled(s, a) && !a.Submit? && !a.ReportDropped? && !a.BhConfirm? && v < |s.vifs|
    ensures |Step(s, a).vifs| == |s.vifs| && Remarked(s.vifs[v].table, Step(s, a).vifs[v].table)
  {
    hide FirstDirty, Choose, Controlled, LaneDropped, PendingDropped;
  }

  lemma StepMirrors(s: Device, a: Action, v: nat, o: Observed)
    requires Invariant(s) && Enabled(s, a) && VifMirrors(s, Live(s.air), v, o)
    ensures var t, ops := Step(s, a), StepOps(s, a, v);
            LegalRun(o, ops) && VifMirrors(t, Live(t.air), v, RetryPolicy.Run(o, ops))
  {
    hide LocksKnown, CreditsKnown, Attended, Conserved, Policed, Told, Live, VifMirrors, Submitted, ConfirmAll,
         DroppedReported, LegalRun;
    if a.Submit? {
      SubmitMirrors(s, a, v, o);
    } else if a.ReportDropped? {
      DroppedMirrors(s, v, o);
    } else if a.BhConfirm? {
      HeardConserved(s);
      HeardMirrors(s, v, o);
      ConfirmAllMirrors(Heard(s), a.confirmations, v, o);
    } else {
      OtherStepMirrors(s, a, v, o);
      NoOps(o);
    }
  }

  lemma HeardMirrors(s: Device, v: nat, o: Observed)
    requires VifMirrors(s, Live(s.air), v, o) && s.ctl.bh.Receiving?
    ensures VifMirrors(Heard(s), Live(Heard(s).air), v, o)
  {
  }

  // ---------------------------------------------------------------- every run

  lemma {:induction false} RunMirrors(s: Device, run: seq<Action>, v: nat, o: Observed)
    requires Invariant(s) && CanRun(s, run) && VifMirrors(s, Live(s.air), v, o)
    ensures var t, ops := TxEngine.Run(s, run), RunOps(s, run, v);
            LegalRun(o, ops) && VifMirrors(t, Live(t.air), v, RetryPolicy.Run(o, ops))
    decreases |run|
  {
    hide Invariant, Step, Enabled, VifMirrors, Live, StepOps, LegalRun;
    if run == [] {
      NoOps(o);
    } else {
      var ops := StepOps(s, run[0], v);
      StepKeepsInvariant(s, run[0]);
      StepMirrors(s, run[0], v, o);
      RunMirrors(Step(s, run[0]), run[1..], v, RetryPolicy.Run(o, ops));
      RunJoin(o, ops, RunOps(Step(s, run[0]), run[1..], v));
    }
  }

  lemma StartMirrors(s: Device, v: nat)
    requires AtStart(s) && v < |s.vifs|
    ensures VifMirrors(s, Live(s.air), v, Start())
  {
    StartConserves(s);
    hide Live;
  }

  // Any run of the machine is, for the cache of each interface, a run of that cache by itself: same
  // slots, lists and counts, and one holder for each live frame.
  lemma MachineRunsCache(start: Device, run: seq<Action>, v: nat)
    requires AtStart(start) && CanRun(start, run) && v < |start.vifs|
    ensures var s, ops := TxEngine.Run(start, run), RunOps(start, run, v);
            LegalRun(Start(), ops) && VifMirrors(s, Live(s.air), v, RetryPolicy.Run(Start(), ops))
  {
    StartHolds(start);
    StartMirrors(start, v);
    hide Invariant, AtStart, VifMirrors, Live, RunOps;
    RunMirrors(start, run, v, Start());
  }

  // Hence in the machine too, a frame handed over replaces the rates of no slot but the free one
  // released before all other free ones, and only when no slot holds the rates it wants.
  lemma EvictsLeastRecentlyReleased(start: Device, run: seq<Action>, v: nat, wanted: Rates, i: Slot)
    requires AtStart(start) && CanRun(start, run) && v < |start.vifs|
    requires var s := TxEngine.Run(start, run);
             v < |s.vifs| && Obtain(s.vifs[v].table, wanted).table.slots[i].rates != s.vifs[v].table.slots[i].rates
    ensures var s, ops := TxEngine.Run(start, run), RunOps(start, run, v);
            && LegalRun(Start(), ops)
            && var released := RetryPolicy.Run(Start(), ops).released;
               var holders := Tally(Live(s.air), HolderOf(v));
            && holders[i] == 0
            && (forall j: Slot :: j != i && holders[j] == 0 ==> released[j] > released[i])
            && (forall j: Slot :: s.vifs[v].table.slots[j].rates != wanted)
  {
    MachineRunsCache(start, run, v);
    hide AtStart, CanRun, Live, Tally, RunOps, Obtain;
    var o := RetryPolicy.Run(Start(), RunOps(start, run, v));
    ObtainRemarked(o.table, TxEngine.Run(start, run).vifs[v].table, wanted);
    RetryPolicy.EvictsLeastRecentlyReleased(RunOps(start, run, v), wanted, i);
  }
}
