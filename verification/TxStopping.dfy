// When the network stack is told to stop handing over frames, and to go on.
module TxStopping {
  import opened RetryPolicy
  import opened FrameQueues
  import opened Tallies
  import opened TxEngine
  import opened TxAccounting
  import opened TxConservation
  import opened TxPolicies
  import opened TxSafety
  import opened TxGuarantees

  predicate Full(vif: Vif) {
    vif.table.free == []
  }

  ghost predicate SomeFull(vifs: seq<Vif>) {
    exists v :: 0 <= v < |vifs| && Full(vifs[v])
  }

  ghost predicate OneFullAtMost(vifs: seq<Vif>) {
    forall v, w :: 0 <= v < w < |vifs| ==> !Full(vifs[v]) || !Full(vifs[w])
  }

  // The queues are stopped exactly while an interface has no free slot.
  ghost predicate Exact(s: Device) {
    s.air.stopped <==> SomeFull(s.vifs)
  }

  // ---------------------------------------------------------------- always

  // Queues never stay stopped with a slot free everywhere; on a device with one interface they are
  // stopped exactly while it has no free slot.
  lemma StoppedOnlyWhileFull(s: Device)
    requires Reached(s)
    ensures s.air.stopped ==> SomeFull(s.vifs)
    ensures |s.vifs| == 1 ==> Exact(s)
  {
    ReachedHolds(s);
    hide Reached, LocksKnown, CreditsKnown, Attended, Told, Conserved, Slotted, AllFaithful;
    Justified(s.vifs, s.air.stopped);
  }

  lemma Justified(vifs: seq<Vif>, stopped: bool)
    requires StopJustified(vifs, stopped)
    ensures stopped ==> SomeFull(vifs)
    ensures |vifs| == 1 ==> (stopped <==> SomeFull(vifs))
  {
    if stopped {
      var v :| 0 <= v < |vifs| && vifs[v].table.free == [];
      assert Full(vifs[v]);
    }
  }

  // ---------------------------------------------------------------- one step

  // As far as stopping goes, nothing has changed.
  ghost predicate SameLists(s: Device, t: Device) {
    && |t.vifs| == |s.vifs| && t.air.stopped == s.air.stopped
    && forall v :: 0 <= v < |s.vifs| ==> Full(t.vifs[v]) == Full(s.vifs[v])
  }

  lemma SameListsKeep(s: Device, t: Device)
    requires SameLists(s, t)
    ensures Exact(s) <==> Exact(t)
    ensures OneFullAtMost(s.vifs) <==> OneFullAtMost(t.vifs)
  {
    hide Full;
    if SomeFull(s.vifs) {
      var v :| 0 <= v < |s.vifs| && Full(s.vifs[v]);
      assert Full(t.vifs[v]);
    }
    if SomeFull(t.vifs) {
      var v :| 0 <= v < |t.vifs| && Full(t.vifs[v]);
      assert Full(s.vifs[v]);
    }
  }

  // Handing over a frame never makes the flag wrong.
  lemma SubmitKeepsExact(s: Device, a: Action)
    requires Exact(s) && a.Submit? && Enabled(s, a)
    ensures Exact(Submitted(s, a))
  {
    var v, t := a.vif, Submitted(s, a);
    hide Enqueued, Obtain;
    ObtainList(s.vifs[v].table, a.rates);
    assert forall w :: 0 <= w < |s.vifs| && w != v ==> t.vifs[w] == s.vifs[w];
    if SomeFull(s.vifs) {
      var w :| 0 <= w < |s.vifs| && Full(s.vifs[w]);
      assert Full(t.vifs[w]);
    }
    if SomeFull(t.vifs) {
      var w :| 0 <= w < |t.vifs| && Full(t.vifs[w]);
      assert w != v ==> Full(s.vifs[w]);
    }
    assert Full(t.vifs[v]) ==> SomeFull(t.vifs);
    assert Full(s.vifs[v]) ==> SomeFull(s.vifs);
  }

  lemma ObtainList(t: Table, wanted: Rates)
    ensures var got := Obtain(t, wanted);
            (t.free == [] <==> got.idx == INVALID) && (t.free == [] ==> got.table == t)
  {
  }

  // A frame handed over while no interface is full leaves at most one full.
  lemma SubmitFillsOne(s: Device, a: Action)
    requires !SomeFull(s.vifs) && a.Submit? && Enabled(s, a)
    ensures OneFullAtMost(Submitted(s, a).vifs)
  {
    var t := Submitted(s, a);
    hide Obtain, Accepted;
    assert forall w :: 0 <= w < |s.vifs| && w != a.vif ==> t.vifs[w] == s.vifs[w];
  }

  // The frame holds the only use of its slot on an interface that has no free one.
  predicate FreesFullInterface(s: Device, f: Frame)
    requires VifOf(f) < |s.vifs|
  {
    Full(s.vifs[VifOf(f)]) && f.policy < SLOTS && s.vifs[VifOf(f)].table.slots[f.policy].usage == 1
  }

  // What handing a frame back does to the interfaces and the flag.
  lemma ReportWakes(s: Device, f: Frame, frames: multiset<Frame>)
    requires Slotted(s.vifs, frames + multiset{f}) && VifOf(f) < |s.vifs|
    ensures var t, v := Report(s, f), VifOf(f);
            && |t.vifs| == |s.vifs|
            && (forall w :: 0 <= w < |s.vifs| && w != v ==> t.vifs[w] == s.vifs[w])
            && (Full(t.vifs[v]) <==> Full(s.vifs[v]) && !FreesFullInterface(s, f))
            && (t.air.stopped <==> s.air.stopped && !FreesFullInterface(s, f))
  {
    var v := VifOf(f);
    AddFrame(frames, f);
    hide Tally, Consistent, GiveBack;
    assert Consistent(s.vifs[v].table, Tally(frames + multiset{f}, HolderOf(v)));
    ReleaseFills(s.vifs[v].table, Tally(frames, HolderOf(v)), f.policy);
    GiveBackUsage(s.vifs[v].table, f.policy);
  }

  lemma GiveBackUsage(t: Table, idx: nat)
    requires idx < SLOTS || idx == INVALID
    ensures idx < SLOTS ==> GiveBack(t, idx).slots[idx].usage == t.slots[idx].usage - 1
  {
  }

  // With several interfaces, handing a frame back wakes the queues as soon as its own interface has a
  // slot again.  That is too early exactly when another interface is still full.
  lemma WokenTooEarly(s: Device, f: Frame, frames: multiset<Frame>)
    requires Slotted(s.vifs, frames + multiset{f}) && VifOf(f) < |s.vifs|
    requires Exact(s)
    ensures Exact(Report(s, f))
       <==> !(FreesFullInterface(s, f) && exists w :: 0 <= w < |s.vifs| && w != VifOf(f) && Full(s.vifs[w]))
  {
    ReportWakes(s, f, frames);
    var t, v := Report(s, f), VifOf(f);
    hide Full, FreesFullInterface, Report, Slotted;
    FreesMeansFull(s, f);
    FlagAfter(s.vifs, t.vifs, v, s.air.stopped, t.air.stopped, FreesFullInterface(s, f));
  }

  lemma FlagAfter(before: seq<Vif>, after: seq<Vif>, v: nat, stopped: bool, stopped': bool, frees: bool)
    requires v < |before| == |after| && (forall w :: 0 <= w < |before| && w != v ==> after[w] == before[w])
    requires (Full(after[v]) <==> Full(before[v]) && !frees) && (stopped' <==> stopped && !frees)
    requires (stopped <==> SomeFull(before)) && (frees ==> Full(before[v]))
    ensures (stopped' <==> SomeFull(after)) <==> !(frees && exists w :: 0 <= w < |before| && w != v && Full(before[w]))
  {
    hide Full;
    if SomeFull(before) {
      var w :| 0 <= w < |before| && Full(before[w]);
      assert w != v ==> Full(after[w]);
    }
    assert forall w :: 0 <= w < |before| && w != v && Full(before[w]) ==> Full(after[w]);
    assert Full(before[v]) ==> SomeFull(before);
    assert Full(after[v]) ==> SomeFull(after);
  }

  lemma FreesMeansFull(s: Device, f: Frame)
    requires VifOf(f) < |s.vifs|
    ensures FreesFullInterface(s, f) ==> Full(s.vifs[VifOf(f)])
  {
  }

  // ---------------------------------------------------------------- every step

  ghost predicate Flag(s: Device) {
    Exact(s) && OneFullAtMost(s.vifs)
  }

  lemma ReportKeepsFlag(s: Device, f: Frame, frames: multiset<Frame>)
    requires Flag(s) && Slotted(s.vifs, frames + multiset{f}) && VifOf(f) < |s.vifs|
    ensures Flag(Report(s, f))
  {
    ReportWakes(s, f, frames);
    WokenTooEarly(s, f, frames);
    FreesMeansFull(s, f);
    hide Exact, Full, FreesFullInterface, Report, Slotted;
  }

  lemma ConfirmKeepsFlag(s: Device, c: Confirmation)
    requires Flag(s) && Conserved(s) && Policed(s, Live(s.air)) && c.packet in s.air.inChip
    ensures Flag(Confirm(s, c))
  {
    hide Live, Booked, Slotted, AllFaithful, StopJustified, Report, Exact, OneFullAtMost;
    var heard := s.ctl.(used := s.ctl.used - 1);
    var found := FirstWithPacket(s.air.pending, c.packet);
    if found.None? {
      SameListsKeep(s, Confirm(s, c));
    } else {
      var f := s.air.pending[found.value];
      LiveHolds(s.air, f);
      HasVif(s, f);
      UnpendedBooks(s.air, found.value, c);
      var t := Device(s.vifs, Unpended(s.air, found.value, c), heard);
      SameListsKeep(s, t);
      ReportKeepsFlag(t, f, Live(t.air));
    }
  }

  lemma {:induction false} ConfirmAllKeepsFlag(s: Device, cs: seq<Confirmation>)
    requires Flag(s) && Conserved(s) && Policed(s, Live(s.air)) && Packets(cs) <= s.air.inChip
    ensures Flag(ConfirmAll(s, cs))
    decreases |cs|
  {
    hide Conserved, Policed, Confirm, Live, Flag;
    if cs != [] {
      assert cs[0].packet in Packets(cs);
      ConfirmKeepsFlag(s, cs[0]);
      ConfirmPolices(s, cs[0]);
      ConfirmConserves(s, cs[0]);
      ConfirmEffect(s, cs[0]);
      ConfirmAllKeepsFlag(Confirm(s, cs[0]), cs[1..]);
    }
  }

  lemma DroppedReportedKeepsFlag(s: Device)
    requires Flag(s) && Conserved(s) && Policed(s, Live(s.air)) && s.air.dropped != []
    ensures Flag(DroppedReported(s))
  {
    hide Live, Conserved, Slotted, AllFaithful, StopJustified, Report, Exact, OneFullAtMost;
    LiveHolds(s.air, s.air.dropped[0]);
    HasVif(s, s.air.dropped[0]);
    DroppedOut(s.air);
    var t := s.(air := s.air.(dropped := s.air.dropped[1..]));
    SameListsKeep(s, t);
    ReportKeepsFlag(t, s.air.dropped[0], Live(t.air));
  }

  predicate HandsBack(a: Action) {
    a.Submit? || a.ReportDropped? || a.BhConfirm?
  }

  lemma OtherStepsSame(s: Device, a: Action)
    requires Enabled(s, a) && !HandsBack(a)
    ensures SameLists(s, Step(s, a))
  {
    hide FirstDirty, Choose, Reversed, CountedOut, Lane, Controlled;
    if a.UploadScan? {
      ScanSame(s.vifs[a.vif]);
    }
  }

  lemma ScanSame(vif: Vif)
    ensures Full(Scanned(vif)) == Full(vif)
  {
  }

  // No step makes the flag wrong while one interface at most is full, and only a frame handed over
  // while another interface is full fills a second one.
  lemma StepKeepsFlag(s: Device, a: Action)
    requires Invariant(s) && Enabled(s, a) && Flag(s)
    ensures Exact(Step(s, a))
    ensures !a.Submit? || !s.air.stopped ==> OneFullAtMost(Step(s, a).vifs)
  {
    hide LocksKnown, CreditsKnown, Attended, Conserved, Policed, Told, Live, Submitted, ConfirmAll, DroppedReported,
         OneFullAtMost, SameLists, SomeFull, Controlled, SendOne, Worked, LaneDropped, PendingDropped, CommandFinished;
    if a.Submit? {
      SubmitKeepsExact(s, a);
      if !s.air.stopped {
        SubmitFillsOne(s, a);
      }
    } else if a.ReportDropped? {
      DroppedReportedKeepsFlag(s);
    } else if a.BhConfirm? {
      HeardConserved(s);
      SameListsKeep(s, Heard(s)) by {
        HeardSame(s);
      }
      HeardPolices(s);
      ConfirmAllKeepsFlag(Heard(s), a.confirmations);
    } else {
      OtherStepsSame(s, a);
      SameListsKeep(s, Step(s, a));
    }
  }

  lemma HeardSame(s: Device)
    requires s.ctl.bh.Receiving?
    ensures SameLists(s, Heard(s))
  {
  }

  lemma HeardPolices(s: Device)
    requires Policed(s, Live(s.air)) && s.ctl.bh.Receiving?
    ensures Policed(Heard(s), Live(Heard(s).air))
  {
  }

  // ---------------------------------------------------------------- every run

  // At no time during the run are two interfaces full.
  ghost predicate OneFullThroughout(s: Device, run: seq<Action>)
    requires CanRun(s, run)
    decreases |run|
  {
    OneFullAtMost(s.vifs) && (run == [] || OneFullThroughout(Step(s, run[0]), run[1..]))
  }

  // The network stack hands over no frame while it is told to stop.
  ghost predicate HeedsStop(s: Device, run: seq<Action>)
    requires CanRun(s, run)
    decreases |run|
  {
    run == [] || ((run[0].Submit? ==> !s.air.stopped) && HeedsStop(Step(s, run[0]), run[1..]))
  }

  lemma {:induction false} ExactWhileOneFull(s: Device, run: seq<Action>)
    requires Invariant(s) && CanRun(s, run) && Exact(s) && OneFullThroughout(s, run)
    ensures Exact(TxEngine.Run(s, run))
    decreases |run|
  {
    hide Invariant, Step, Enabled, Exact, OneFullAtMost;
    if run != [] {
      StepKeepsInvariant(s, run[0]);
      StepKeepsFlag(s, run[0]);
      ExactWhileOneFull(Step(s, run[0]), run[1..]);
    }
  }

  lemma {:induction false} HeedingFillsOne(s: Device, run: seq<Action>)
    requires Invariant(s) && CanRun(s, run) && Flag(s) && HeedsStop(s, run)
    ensures OneFullThroughout(s, run)
    decreases |run|
  {
    hide Invariant, Step, Enabled, Exact, OneFullAtMost;
    if run != [] {
      StepKeepsInvariant(s, run[0]);
      StepKeepsFlag(s, run[0]);
      HeedingFillsOne(Step(s, run[0]), run[1..]);
    }
  }

  lemma StartFlag(s: Device)
    requires AtStart(s)
    ensures Flag(s)
  {
    assert forall v :: 0 <= v < |s.vifs| ==> !Full(s.vifs[v]);
  }

  // For any number of interfaces, and whatever else happens: if the network stack heeds the stop, the
  // queues are stopped exactly while some interface has no free slot, and never two have none.
  lemma StoppedExactly(start: Device, run: seq<Action>)
    requires AtStart(start) && CanRun(start, run) && HeedsStop(start, run)
    ensures Exact(TxEngine.Run(start, run)) && OneFullThroughout(start, run)
  {
    StartHolds(start);
    StartFlag(start);
    hide Invariant, AtStart, Exact, OneFullAtMost;
    HeedingFillsOne(start, run);
    ExactWhileOneFull(start, run);
  }

  // ---------------------------------------------------------------- a run that goes wrong

  lemma ReachedNext(s: Device, a: Action)
    requires Reached(s) && Enabled(s, a)
    ensures Reached(Step(s, a))
  {
    hide AtStart, Step, Enabled;
    var start, run :| AtStart(start) && CanRun(start, run) && s == TxEngine.Run(start, run);
    RunNext(start, run, a);
  }

  lemma {:induction false} RunNext(start: Device, run: seq<Action>, a: Action)
    requires CanRun(start, run) && Enabled(TxEngine.Run(start, run), a)
    ensures CanRun(start, run + [a]) && TxEngine.Run(start, run + [a]) == Step(TxEngine.Run(start, run), a)
    decreases |run|
  {
    hide Step, Enabled;
    if run != [] {
      RunNext(Step(start, run[0]), run[1..], a);
      assert (run + [a])[1..] == run[1..] + [a];
    } else {
      assert (run + [a])[1..] == [];
    }
  }

  // k frames with k policies, the first bytes of which are 1 to k, have been handed over to an
  // interface and wait in its first queue.
  ghost predicate Filled(s: Device, v: nat, k: nat) {
    && v < |s.vifs| && ACS * v < |s.air.queues| && k <= SLOTS
    && |s.vifs[v].table.free| == SLOTS - k
    && (forall i: Slot :: s.vifs[v].table.slots[i].usage <= 1 && s.vifs[v].table.slots[i].rates[0] <= k)
    && (k > 0 ==> s.air.queues[ACS * v].normal != [])
    && (forall f <- s.air.queues[ACS * v].normal :: VifOf(f) == v && f.policy < SLOTS)
  }

  lemma {:induction false} WithoutOne(q: seq<Slot>, i: Slot)
    requires NoRepeats(q) && i in q
    ensures |Without(q, i)| == |q| - 1
  {
    if q[0] == i {
      assert i !in q[1..];
    } else {
      WithoutOne(q[1..], i);
    }
  }

  // What taking a slot for new rates does to a cache whose rates are told apart by their first byte.
  lemma ObtainNew(t: Table, k: nat)
    requires NoRepeats(t.free) && t.free != [] && k < 255
    requires forall i: Slot :: t.slots[i].usage <= 1 && t.slots[i].rates[0] <= k
    ensures var got := Obtain(t, NO_RATES[0 := k + 1]);
            && got.idx < SLOTS && |got.table.free| == |t.free| - 1
            && forall i: Slot :: got.table.slots[i].usage <= 1 && got.table.slots[i].rates[0] <= k + 1
  {
    var wanted: Rates := NO_RATES[0 := k + 1];
    var oldest := t.free[|t.free| - 1];
    assert forall i: Slot :: t.slots[i].rates[0] != wanted[0];
    assert Lookup(t, wanted).None?;
    WithoutOne(t.free, oldest);
    hide Without, NoRepeats, Lookup;
  }

  // The other interface and its queue are as they were.
  ghost predicate SameInterface(s: Device, t: Device, w: nat) {
    && w < |s.vifs| == |t.vifs| && t.vifs[w].table == s.vifs[w].table
    && ACS * w < |s.air.queues| == |t.air.queues| && t.air.queues[ACS * w] == s.air.queues[ACS * w]
    && t.air.dropped == s.air.dropped
  }

  lemma FillNext(s: Device, v: nat, w: nat, k: nat) returns (t: Device)
    requires Reached(s) && Filled(s, v, k) && k < SLOTS && v != w < |s.vifs| && ACS * w < |s.air.queues|
    ensures Reached(t) && Filled(t, v, k + 1) && SameInterface(s, t, w)
  {
    var id := Fresh(s.air.submitted);
    var a := Submit(id, v, 0, false, 0, NO_RATES[0 := k + 1]);
    SlotsDistinct(s, v);
    ReachedNext(s, a);
    t := Step(s, a);
    hide Reached, NoRepeats;
    SubmitFills(s, a, k);
    SubmitLeaves(s, a, w);
  }

  lemma SubmitFills(s: Device, a: Action, k: nat)
    requires a.Submit? && Enabled(s, a) && a.ac == 0 && !a.afterDtim && Filled(s, a.vif, k) && k < SLOTS
    requires NoRepeats(s.vifs[a.vif].table.free) && a.rates == NO_RATES[0 := k + 1]
    ensures Filled(Submitted(s, a), a.vif, k + 1)
  {
    var v := a.vif;
    ObtainNew(s.vifs[v].table, k);
    hide Obtain, NoRepeats;
    var f, t := NewFrame(s, a), Submitted(s, a);
    assert f.queue == ACS * v && VifOf(f) == v && f.policy < SLOTS;
    assert t.air.queues[ACS * v].normal == s.air.queues[ACS * v].normal + [f];
  }

  lemma SubmitLeaves(s: Device, a: Action, w: nat)
    requires a.Submit? && Enabled(s, a) && a.ac == 0 && a.vif != w < |s.vifs| && ACS * w < |s.air.queues|
    ensures SameInterface(s, Submitted(s, a), w)
  {
    hide Obtain;
  }

  lemma SlotsDistinct(s: Device, v: nat)
    requires Reached(s) && v < |s.vifs|
    ensures NoRepeats(s.vifs[v].table.free)
    ensures s.vifs[v].table.free == [] ==> forall i: Slot :: s.vifs[v].table.slots[i].usage > 0
  {
    ReachedHolds(s);
    hide Tally, Live, Reached, LocksKnown, CreditsKnown, Attended, Conserved, Told, RatesUnique, NoRepeats;
    assert Consistent(s.vifs[v].table, Tally(Live(s.air), HolderOf(v)));
  }

  lemma Fresh(ids: set<nat>) returns (id: nat)
    ensures id !in ids
  {
    id := 0;
    var rest := ids;
    while id in ids
      invariant forall k: nat :: k in ids && k !in rest ==> k < id
      invariant rest <= ids
      invariant forall k: nat :: k in rest ==> k >= id
      decreases |rest|
    {
      rest := rest - {id};
      id := id + 1;
    }
  }

  lemma FillUp(s: Device, v: nat, w: nat, k: nat) returns (t: Device)
    requires Reached(s) && Filled(s, v, k) && v != w < |s.vifs| && ACS * w < |s.air.queues|
    ensures Reached(t) && Filled(t, v, SLOTS) && SameInterface(s, t, w)
    decreases SLOTS - k
  {
    hide Reached;
    t := s;
    if k < SLOTS {
      var u := FillNext(s, v, w, k);
      t := FillUp(u, v, w, k + 1);
    }
  }

  // A device at start-up with two interfaces.
  function TwoInterfaces(): Device {
    var vif := Vif(Initial(), seq<Rates>(SLOTS, _ => NO_RATES), false, Idle);
    Device([vif, vif],
           Traffic(seq(2 * ACS, q => Queue([], [], 0, Priority(q % ACS))), NoneAllowed(2), [], [], 0, false, multiset{}, multiset{}, {}, []),
           Control(0, 0, 0, NoCommand, false, false, false, Asleep, 0, 0))
  }

  lemma TwoInterfacesStart()
    ensures AtStart(TwoInterfaces()) && Reached(TwoInterfaces())
    ensures Filled(TwoInterfaces(), 0, 0) && Filled(TwoInterfaces(), 1, 0)
    ensures |TwoInterfaces().vifs| == 2 && |TwoInterfaces().air.queues| == 2 * ACS
  {
    var s := TwoInterfaces();
    assert AtStart(s);
    assert CanRun(s, []) && TxEngine.Run(s, []) == s;
  }

  // Fifteen frames wait on each of two interfaces, the last fifteen handed over after the stop.  The
  // first interface's queue is dropped and one of its frames handed back: the queues are woken
  // although the second interface still has no free slot.
  lemma WokenTooEarlyHappens()
    ensures exists s :: Reached(s) && !s.air.stopped && SomeFull(s.vifs)
  {
    var s := TwoInterfaces();
    TwoInterfacesStart();
    hide TwoInterfaces, Reached;
    var t := FillUp(s, 0, 1, 0);
    var u := FillUp(t, 1, 0, 0);
    WakeFirst(u);
  }

  lemma WakeFirst(s: Device)
    requires Reached(s) && Filled(s, 0, SLOTS) && Filled(s, 1, SLOTS) && s.air.dropped == []
    ensures exists t :: Reached(t) && !t.air.stopped && SomeFull(t.vifs)
  {
    SlotsDistinct(s, 0);
    FilledIsFull(s, 0);
    FilledIsFull(s, 1);
    hide Reached, NoRepeats, Filled, Step, Enabled;
    var a := DropLane(0, false);
    assert Enabled(s, a) by {
      assert 0 < |s.air.queues|;
    }
    ReachedNext(s, a);
    DropFirst(s, s.air.queues[0].normal);
    ReachedNext(Step(s, a), ReportDropped);
    DroppedWakes(Step(s, a));
  }

  lemma FilledIsFull(s: Device, v: nat)
    requires Filled(s, v, SLOTS)
    ensures v < |s.vifs| && Full(s.vifs[v]) && ACS * v < |s.air.queues|
    ensures forall i: Slot :: s.vifs[v].table.slots[i].usage <= 1
    ensures s.air.queues[ACS * v].normal != []
    ensures forall f <- s.air.queues[ACS * v].normal :: VifOf(f) == v && f.policy < SLOTS
  {
  }

  lemma DropFirst(s: Device, lane: seq<Frame>)
    requires |s.vifs| > 1 && Full(s.vifs[0]) && Full(s.vifs[1]) && s.air.dropped == []
    requires 0 < |s.air.queues| && s.air.queues[0].normal == lane != []
    requires forall i: Slot :: s.vifs[0].table.slots[i].usage == 1
    requires forall f <- lane :: VifOf(f) == 0 && f.policy < SLOTS
    ensures Enabled(s, DropLane(0, false))
    ensures var t := Step(s, DropLane(0, false));
            && Enabled(t, ReportDropped) && |t.vifs| > 1 && Full(t.vifs[1])
            && VifOf(t.air.dropped[0]) == 0 && FreesFullInterface(t, t.air.dropped[0])
  {
    SameMembers(lane);
    hide Reversed;
    assert Step(s, DropLane(0, false)).air.dropped == Reversed(lane) + [];
  }

  lemma SameMembers(q: seq<Frame>)
    ensures |Reversed(q)| == |q|
    ensures forall f <- Reversed(q) :: f in q
  {
    assert |multiset(Reversed(q))| == |multiset(q)|;
    forall f | f in Reversed(q) ensures f in q {
      assert f in multiset(Reversed(q));
    }
    hide Reversed;
  }

  lemma DroppedWakes(s: Device)
    requires Enabled(s, ReportDropped) && |s.vifs| > 1 && VifOf(s.air.dropped[0]) == 0
    requires FreesFullInterface(s, s.air.dropped[0]) && Full(s.vifs[1])
    ensures var t := Step(s, ReportDropped); !t.air.stopped && SomeFull(t.vifs)
  {
    hide Without;
    var t := Step(s, ReportDropped);
    assert t.vifs[1] == s.vifs[1];
  }
}
