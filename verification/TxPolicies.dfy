// Retry policies: slots are held by the frames that name them, through every step.
module TxPolicies {
  import opened RetryPolicy
  import opened FrameQueues
  import opened Tallies
  import opened TxEngine
  import opened TxAccounting
  import opened TxConservation

  function VifOf(f: Frame): nat { f.queue / ACS }

  // The slot of interface v that a frame holds, if any.
  function HolderOf(v: nat): Frame -> multiset<Slot> {
    (f: Frame) => if VifOf(f) == v && f.policy < SLOTS then multiset{f.policy as Slot} else multiset{}
  }

  ghost predicate Slotted(vifs: seq<Vif>, frames: multiset<Frame>) {
    forall v: nat :: v < |vifs| ==> Consistent(vifs[v].table, Tally(frames, HolderOf(v)))
  }

  function SlotOf(vifs: seq<Vif>, f: Frame): Policy
    requires VifOf(f) < |vifs| && f.policy < SLOTS
  {
    vifs[VifOf(f)].table.slots[f.policy]
  }

  // The slot a frame names still holds the rates the frame was submitted with.
  ghost predicate Faithful(vifs: seq<Vif>, f: Frame) {
    f.policy < SLOTS && VifOf(f) < |vifs| ==> SlotOf(vifs, f).rates == f.rates
  }

  ghost predicate AllFaithful(vifs: seq<Vif>, frames: multiset<Frame>) {
    forall f <- frames :: Faithful(vifs, f)
  }

  // Queues are stopped only while some interface has no free slot; with a single interface, exactly
  // while it has none.
  ghost predicate StopJustified(vifs: seq<Vif>, stopped: bool) {
    && (stopped ==> exists v :: 0 <= v < |vifs| && vifs[v].table.free == [])
    && (|vifs| == 1 && vifs[0].table.free == [] ==> stopped)
  }

  ghost predicate Policed(s: Device, frames: multiset<Frame>) {
    Slotted(s.vifs, frames) && AllFaithful(s.vifs, frames) && StopJustified(s.vifs, s.air.stopped)
  }

  // ---------------------------------------------------------------- slots and frames

  lemma NamedSlotInUse(vifs: seq<Vif>, frames: multiset<Frame>, f: Frame)
    requires Slotted(vifs, frames) && f in frames && f.policy < SLOTS && VifOf(f) < |vifs|
    ensures f.policy in vifs[VifOf(f)].table.used && f.policy !in vifs[VifOf(f)].table.free
  {
    hide Tally;
    TallyRemove(frames, f, HolderOf(VifOf(f)));
    assert Consistent(vifs[VifOf(f)].table, Tally(frames, HolderOf(VifOf(f))));
  }

  // One table changes with its holders, and the frames of other interfaces keep theirs.
  lemma TableChanged(vifs: seq<Vif>, v: nat, vif: Vif, frames: multiset<Frame>, frames': multiset<Frame>)
    requires v < |vifs| && Slotted(vifs, frames)
    requires Consistent(vif.table, Tally(frames', HolderOf(v)))
    requires forall w: nat :: w != v ==> Tally(frames', HolderOf(w)) == Tally(frames, HolderOf(w))
    ensures Slotted(vifs[v := vif], frames')
  {
    hide Tally, Consistent;
  }

  lemma AddFrame(frames: multiset<Frame>, f: Frame)
    ensures Tally(frames + multiset{f}, HolderOf(VifOf(f))) == AddHolder(Tally(frames, HolderOf(VifOf(f))), f.policy)
    ensures forall w: nat :: w != VifOf(f) ==> Tally(frames + multiset{f}, HolderOf(w)) == Tally(frames, HolderOf(w))
  {
    hide Tally;
    TallyAdd(frames, f, HolderOf(VifOf(f)));
    forall w: nat | w != VifOf(f) ensures Tally(frames + multiset{f}, HolderOf(w)) == Tally(frames, HolderOf(w)) {
      TallyAdd(frames, f, HolderOf(w));
    }
  }

  lemma SubmitSlots(s: Device, a: Action, frames: multiset<Frame>)
    requires Slotted(s.vifs, frames) && a.Submit? && Enabled(s, a)
    ensures Slotted(Submitted(s, a).vifs, frames + multiset{NewFrame(s, a)})
  {
    hide Tally, Consistent, Obtain, Accepted;
    var f := NewFrame(s, a);
    var t := Submitted(s, a);
    assert VifOf(f) == a.vif;
    AddFrame(frames, f);
    ObtainKeeps(s.vifs[a.vif].table, Tally(frames, HolderOf(a.vif)), a.rates);
    TableChanged(s.vifs, a.vif, t.vifs[a.vif], frames, frames + multiset{f});
  }

  // What a submission does to the slots of its interface.
  ghost predicate OnlyFreeRewritten(old_: Table, new_: Table) {
    forall j: Slot :: j in old_.free || SameRates(old_.slots[j], new_.slots[j])
  }

  lemma SubmitRewrites(s: Device, a: Action)
    requires a.Submit? && Enabled(s, a)
    ensures var t, f := Submitted(s, a), NewFrame(s, a);
            && |t.vifs| == |s.vifs|
            && (forall w :: 0 <= w < |s.vifs| && w != a.vif ==> t.vifs[w] == s.vifs[w])
            && OnlyFreeRewritten(s.vifs[a.vif].table, t.vifs[a.vif].table)
            && Faithful(t.vifs, f)
            && t.vifs[a.vif].chip == s.vifs[a.vif].chip
  {
    hide Obtain, Accepted;
    ObtainGives(s.vifs[a.vif].table, a.rates);
  }

  lemma StillFaithful(s: Device, a: Action, frames: multiset<Frame>, f: Frame)
    requires Slotted(s.vifs, frames) && a.Submit? && Enabled(s, a)
    requires f in frames
    ensures Faithful(s.vifs, f) ==> Faithful(Submitted(s, a).vifs, f)
    ensures VifOf(f) < |s.vifs| && f.policy < SLOTS ==> SameRates(SlotOf(s.vifs, f), SlotOf(Submitted(s, a).vifs, f))
  {
    hide Submitted, Slotted;
    SubmitRewrites(s, a);
    if f.policy < SLOTS && VifOf(f) == a.vif {
      NamedSlotInUse(s.vifs, frames, f);
    }
  }

  lemma SubmitStop(s: Device, a: Action, frames: multiset<Frame>)
    requires Slotted(s.vifs, frames) && StopJustified(s.vifs, s.air.stopped) && a.Submit? && Enabled(s, a)
    ensures StopJustified(Submitted(s, a).vifs, Submitted(s, a).air.stopped)
  {
    hide Tally, Slotted, Enqueued;
    var v := a.vif;
    var t := Submitted(s, a);
    var got := Obtain(s.vifs[v].table, a.rates);
    assert t.vifs[v].table == got.table;
    if s.air.stopped {
      var w :| 0 <= w < |s.vifs| && s.vifs[w].table.free == [];
      assert t.vifs[w].table.free == [];
    }
  }

  lemma SubmitPolices(s: Device, a: Action, frames: multiset<Frame>)
    requires Policed(s, frames) && a.Submit? && Enabled(s, a)
    ensures Policed(Submitted(s, a), frames + multiset{NewFrame(s, a)})
  {
    SubmitSlots(s, a, frames);
    SubmitStop(s, a, frames);
    SubmitRewrites(s, a);
    hide Slotted, StopJustified, Submitted, Faithful;
    forall f | f in frames + multiset{NewFrame(s, a)} ensures Faithful(Submitted(s, a).vifs, f) {
      if f in frames {
        StillFaithful(s, a, frames, f);
      }
    }
  }

  lemma ReportSlots(s: Device, f: Frame, frames: multiset<Frame>)
    requires Slotted(s.vifs, frames + multiset{f}) && VifOf(f) < |s.vifs|
    ensures Slotted(Report(s, f).vifs, frames)
    ensures var v, t := VifOf(f), Report(s, f);
            forall j: Slot :: SameRates(s.vifs[v].table.slots[j], t.vifs[v].table.slots[j])
  {
    hide Tally, Consistent, GiveBack;
    var v := VifOf(f);
    AddFrame(frames, f);
    assert Consistent(s.vifs[v].table, Tally(frames + multiset{f}, HolderOf(v)));
    GiveBackKeeps(s.vifs[v].table, Tally(frames, HolderOf(v)), f.policy);
    TableChanged(s.vifs, v, Report(s, f).vifs[v], frames + multiset{f}, frames);
  }

  // Apart from usage and lists, nothing that concerns rates changes.
  ghost predicate SameSlots(a: Vif, b: Vif) {
    && (forall j: Slot :: SameRates(a.table.slots[j], b.table.slots[j]))
    && a.chip == b.chip && a.scheduled == b.scheduled && a.work == b.work
  }

  lemma ReportSame(s: Device, f: Frame, frames: multiset<Frame>)
    requires Slotted(s.vifs, frames + multiset{f}) && VifOf(f) < |s.vifs|
    ensures |Report(s, f).vifs| == |s.vifs|
    ensures forall v :: 0 <= v < |s.vifs| ==> SameSlots(s.vifs[v], Report(s, f).vifs[v])
  {
    ReportSlots(s, f, frames);
    hide GiveBack, Slotted;
  }

  lemma ReleaseFills(t: Table, holders: multiset<Slot>, idx: nat)
    requires Consistent(t, AddHolder(holders, idx)) && (idx == INVALID || idx < SLOTS)
    ensures var t' := GiveBack(t, idx);
            t'.free == [] <==> t.free == [] && !(idx != INVALID && t'.slots[idx].usage == 0)
  {
    hide RatesUnique;
  }

  lemma ReportStop(s: Device, f: Frame, frames: multiset<Frame>)
    requires Slotted(s.vifs, frames + multiset{f}) && VifOf(f) < |s.vifs|
    requires StopJustified(s.vifs, s.air.stopped)
    ensures StopJustified(Report(s, f).vifs, Report(s, f).air.stopped)
  {
    hide Tally, Consistent, GiveBack;
    var v := VifOf(f);
    AddFrame(frames, f);
    assert Consistent(s.vifs[v].table, Tally(frames + multiset{f}, HolderOf(v)));
    ReleaseFills(s.vifs[v].table, Tally(frames, HolderOf(v)), f.policy);
    var t := Report(s, f);
    if t.air.stopped {
      var w :| 0 <= w < |s.vifs| && s.vifs[w].table.free == [];
      assert t.vifs[w].table.free == [];
    }
  }

  lemma ReportPolices(s: Device, f: Frame, frames: multiset<Frame>)
    requires Policed(s, frames + multiset{f}) && VifOf(f) < |s.vifs|
    ensures Policed(Report(s, f), frames)
  {
    ReportSlots(s, f, frames);
    ReportStop(s, f, frames);
    ReportSame(s, f, frames);
    hide Slotted, StopJustified, Report;
    forall g | g in frames ensures Faithful(Report(s, f).vifs, g) {
      assert g in frames + multiset{f};
    }
  }

  // ---------------------------------------------------------------- every step keeps the slots

  // The tables may only differ in which slots are marked as uploaded.
  ghost predicate Remarked(a: Table, b: Table) {
    && a.used == b.used && a.free == b.free
    && forall i: Slot :: a.slots[i].rates == b.slots[i].rates && a.slots[i].usage == b.slots[i].usage
  }

  lemma RemarkedConsistent(a: Table, b: Table, holders: multiset<Slot>)
    requires Consistent(a, holders) && Remarked(a, b)
    ensures Consistent(b, holders)
  {
  }

  lemma RemarkedPolices(s: Device, t: Device, frames: multiset<Frame>)
    requires Policed(s, frames)
    requires |t.vifs| == |s.vifs| && t.air.stopped == s.air.stopped
    requires forall v :: 0 <= v < |s.vifs| ==> Remarked(s.vifs[v].table, t.vifs[v].table)
    ensures Policed(t, frames)
  {
    hide Tally, Consistent;
    forall v: nat ensures v < |s.vifs| ==> Consistent(t.vifs[v].table, Tally(frames, HolderOf(v))) {
      if v < |s.vifs| {
        RemarkedConsistent(s.vifs[v].table, t.vifs[v].table, Tally(frames, HolderOf(v)));
      }
    }
    forall f | f in frames ensures Faithful(t.vifs, f) {
      assert Faithful(s.vifs, f);
    }
    if s.air.stopped {
      var w :| 0 <= w < |s.vifs| && s.vifs[w].table.free == [];
      assert t.vifs[w].table.free == [];
    }
  }

  lemma LiveSame(a: Traffic, b: Traffic)
    requires a.queues == b.queues && a.pending == b.pending && a.dropped == b.dropped
    ensures Live(a) == Live(b)
  {
  }

  lemma HasVif(s: Device, f: Frame)
    requires Conserved(s) && f in Live(s.air)
    ensures VifOf(f) < |s.vifs|
  {
  }

  lemma ReportOut(s: Device, f: Frame)
    requires Policed(s, Live(s.air) + multiset{f}) && VifOf(f) < |s.vifs|
    ensures Policed(Report(s, f), Live(Report(s, f).air))
  {
    hide Live, Slotted, AllFaithful, StopJustified;
    ReportPolices(s, f, Live(s.air));
    hide Report;
    ReportEffect(s, f);
    LiveSame(s.air, Report(s, f).air);
  }

  lemma ConfirmPolices(s: Device, c: Confirmation)
    requires Conserved(s) && Policed(s, Live(s.air)) && c.packet in s.air.inChip
    ensures Policed(Confirm(s, c), Live(Confirm(s, c).air))
  {
    hide Live, Booked, Slotted, AllFaithful, StopJustified, Report;
    var heard := s.ctl.(used := s.ctl.used - 1);
    var found := FirstWithPacket(s.air.pending, c.packet);
    if found.None? {
      UnknownBooks(s.air, c);
    } else {
      var f := s.air.pending[found.value];
      assert f in Live(s.air) by {
        LiveHolds(s.air, f);
      }
      HasVif(s, f);
      UnpendedBooks(s.air, found.value, c);
      ReportOut(Device(s.vifs, Unpended(s.air, found.value, c), heard), f);
    }
  }

  lemma LiveHolds(air: Traffic, f: Frame)
    ensures f in air.pending || f in air.dropped ==> f in Live(air)
  {
  }

  lemma {:induction false} ConfirmAllPolices(s: Device, cs: seq<Confirmation>)
    requires Conserved(s) && Policed(s, Live(s.air)) && Packets(cs) <= s.air.inChip
    ensures Policed(ConfirmAll(s, cs), Live(ConfirmAll(s, cs).air))
    decreases |cs|
  {
    hide Conserved, Policed, Confirm, Live;
    if cs != [] {
      assert cs[0].packet in Packets(cs);
      ConfirmPolices(s, cs[0]);
      ConfirmConserves(s, cs[0]);
      ConfirmEffect(s, cs[0]);
      ConfirmAllPolices(Confirm(s, cs[0]), cs[1..]);
    }
  }

  lemma DroppedReportedPolices(s: Device)
    requires Conserved(s) && Policed(s, Live(s.air)) && s.air.dropped != []
    ensures Policed(DroppedReported(s), Live(DroppedReported(s).air))
  {
    hide Live, Conserved, Slotted, AllFaithful, StopJustified, Report;
    LiveHolds(s.air, s.air.dropped[0]);
    HasVif(s, s.air.dropped[0]);
    DroppedOut(s.air);
    ReportOut(s.(air := s.air.(dropped := s.air.dropped[1..])), s.air.dropped[0]);
  }

  lemma SubmitStepPolices(s: Device, a: Action)
    requires Conserved(s) && Policed(s, Live(s.air)) && a.Submit? && Enabled(s, a)
    ensures Policed(Submitted(s, a), Live(Submitted(s, a).air))
  {
    SubmitPolices(s, a, Live(s.air));
    hide Policed, Booked, Live, Obtain, Accepted;
    var got := Obtain(s.vifs[a.vif].table, a.rates);
    SubmitBooks(s.air, NewFrame(s, a), got.idx != INVALID && got.table.free == []);
  }

  lemma ObeyedPolices(s: Device, what: Request, ctl: Control, frames: multiset<Frame>)
    requires Policed(s, frames)
    ensures Policed(Device(Obeyed(s.vifs, what), s.air, ctl), frames)
  {
    hide Slotted, AllFaithful, StopJustified;
    RemarkedPolices(s, Device(Obeyed(s.vifs, what), s.air, ctl), frames);
  }

  lemma SendOnePolices(s: Device)
    requires Conserved(s) && Policed(s, Live(s.air)) && s.ctl.bh.Sending?
    ensures Policed(SendOne(s), Live(SendOne(s).air))
  {
    hide Booked, Live, Choose, Obeyed, Slotted, AllFaithful, StopJustified;
    var c := Choose(s.air.queues, s.air.allowed);
    LiveSame(s.air, s.air.(allowed := c.allowed));
    if c.frame.Some? {
      SendBooks(s.air);
    }
    if s.ctl.command.Ready? {
      ObeyedPolices(s, s.ctl.command.what, SendOne(s).ctl, Live(s.air));
    }
  }

  lemma WorkedPolices(s: Device, v: nat, vif: Vif, ctl: Control)
    requires Policed(s, Live(s.air)) && v < |s.vifs| && Remarked(s.vifs[v].table, vif.table)
    ensures Policed(Worked(s, v, vif).(ctl := ctl), Live(s.air))
  {
    hide Live, Policed;
    RemarkedPolices(s, Worked(s, v, vif).(ctl := ctl), Live(s.air));
  }

  lemma StepPolices(s: Device, a: Action)
    requires Conserved(s) && Policed(s, Live(s.air)) && Enabled(s, a)
    ensures Policed(Step(s, a), Live(Step(s, a).air))
  {
    hide Conserved, Live, Slotted, AllFaithful, StopJustified, Submitted, Report, ConfirmAll, SendOne, FirstDirty,
         LaneDropped, PendingDropped, DroppedReported;
    if !OnlyControl(a) {
      match a
      case Submit(_, _, _, _, _, _) => SubmitStepPolices(s, a);
      case Refuse(_) => LiveSame(s.air, Step(s, a).air);
      case UploadStart(v) => WorkedPolices(s, v, s.vifs[v].(scheduled := false, work := Scanning), s.ctl);
      case UploadScan(v) => WorkedPolices(s, v, Scanned(s.vifs[v]), s.ctl);
      case UploadSkip(v) => WorkedPolices(s, v, s.vifs[v].(work := Scanning), s.ctl);
      case UploadLeave(v) => WorkedPolices(s, v, s.vifs[v].(work := Idle), Unlock(s.ctl));
      case CommandDone => FinishedPolices(s);
      case DropLane(q, cab) => DropLanePolices(s, q, cab);
      case DropPending => DropPendingPolices(s);
      case ReportDropped => DroppedReportedPolices(s);
      case AllowMulticast(_) => LiveSame(s.air, Step(s, a).air);
      case BhSend => SendOnePolices(s);
      case BhConfirm(cs) =>
        HeardConserved(s);
        ConfirmAllPolices(Heard(s), cs);
      case _ =>
    }
  }

  lemma HeardConserved(s: Device)
    requires Conserved(s) && s.ctl.bh.Receiving?
    ensures Conserved(Heard(s))
  {
  }

  lemma FinishedPolices(s: Device)
    requires Policed(s, Live(s.air)) && s.ctl.command.Answered?
    ensures Policed(CommandFinished(s), Live(CommandFinished(s).air))
  {
    hide Live, Slotted, AllFaithful, StopJustified;
    var what := s.ctl.command.what;
    if what.SetPolicy? && what.vif < |s.vifs| {
      WorkedPolices(s, what.vif, s.vifs[what.vif].(work := Scanning), s.ctl.(command := NoCommand));
    }
  }

  lemma DropLanePolices(s: Device, q: nat, cab: bool)
    requires Conserved(s) && Policed(s, Live(s.air)) && q < |s.air.queues|
    ensures var t := LaneDropped(s.air, q, cab); Policed(s.(air := t), Live(t))
  {
    hide Booked, Live, Slotted, AllFaithful, StopJustified;
    DropLaneBooks(s.air, q, cab);
  }

  lemma DropPendingPolices(s: Device)
    requires Conserved(s) && Policed(s, Live(s.air)) && s.air.pending != []
    ensures var t := PendingDropped(s.air); Policed(s.(air := t), Live(t))
  {
    hide Booked, Live, Slotted, AllFaithful, StopJustified;
    DropPendingBooks(s.air);
  }
}
