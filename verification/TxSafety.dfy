// The chip knows the retry policy of every frame it is given, whatever the order of steps.
module TxSafety {
  import opened RetryPolicy
  import opened FrameQueues
  import opened Tallies
  import opened TxEngine
  import opened TxAccounting
  import opened TxConservation
  import opened TxPolicies

  // A slot the chip does not know is due for upload; one marked as uploaded is known or on its way.
  ghost predicate SlotTold(vif: Vif, i: Slot) {
    var p := vif.table.slots[i];
    && (Dirty(p) ==> vif.scheduled || vif.work == Scanning || vif.work.Writing?)
    && (p.uploaded ==> vif.chip[i] == p.rates || vif.work == Writing(i, p.rates))
    && (p.uploaded && vif.work.Writing? && vif.work.slot == i ==> vif.work.rates == p.rates)
  }

  ghost predicate VifTold(vif: Vif) {
    forall i: Slot :: SlotTold(vif, i)
  }

  ghost predicate CommandTold(vifs: seq<Vif>, command: Command) {
    (command.Sent? || command.Answered?) && command.what.SetPolicy? && command.what.vif < |vifs| ==>
      vifs[command.what.vif].chip[command.what.slot] == command.what.rates
  }

  // The chip holds the rates a frame was submitted with, under the index the frame carries.
  ghost predicate Known(vifs: seq<Vif>, f: Frame) {
    f.policy < SLOTS && VifOf(f) < |vifs| && f.rates != NO_RATES ==>
      vifs[VifOf(f)].chip[f.policy] == f.rates && SlotOf(vifs, f).uploaded
  }

  ghost predicate Told(s: Device) {
    !s.ctl.frozen ==>
      && (forall v :: 0 <= v < |s.vifs| ==> VifTold(s.vifs[v]))
      && CommandTold(s.vifs, s.ctl.command)
      && (forall f <- s.air.pending :: Known(s.vifs, f))
  }

  // ---------------------------------------------------------------- what the chip knows

  lemma SubmitTells(s: Device, a: Action, frames: multiset<Frame>)
    requires Told(s) && Slotted(s.vifs, frames) && a.Submit? && Enabled(s, a)
    requires forall f <- s.air.pending :: f in frames
    ensures Told(Submitted(s, a))
  {
    hide Slotted, Enqueued;
    var t := Submitted(s, a);
    if !s.ctl.frozen {
      SubmitSlotsTold(s, a);
    }
    SubmitKeepsTold(s, a);
    forall f | f in s.air.pending ensures !s.ctl.frozen ==> Known(t.vifs, f) {
      StillFaithful(s, a, frames, f);
      SubmitRewrites(s, a);
    }
  }

  lemma SubmitSlotsTold(s: Device, a: Action)
    requires a.Submit? && Enabled(s, a)
    requires VifTold(s.vifs[a.vif])
    ensures VifTold(Submitted(s, a).vifs[a.vif])
  {
    hide Accepted, Obtain;
    var t := Submitted(s, a).vifs[a.vif];
    ObtainGives(s.vifs[a.vif].table, a.rates);
    forall i: Slot ensures SlotTold(t, i) {
      assert SlotTold(s.vifs[a.vif], i);
    }
  }

  lemma SubmitKeepsTold(s: Device, a: Action)
    requires a.Submit? && Enabled(s, a)
    ensures var t := Submitted(s, a);
      && t.air.pending == s.air.pending && t.ctl.frozen == s.ctl.frozen && t.ctl.command == s.ctl.command
  {
    hide Enqueued, Obtain;
  }

  // The upload work of one interface goes on.
  lemma UploadTellsSlot(vif: Vif, i: Slot)
    requires VifTold(vif)
    ensures vif.work == Idle ==> SlotTold(vif.(scheduled := false, work := Scanning), i)
    ensures vif.work == Scanning ==> SlotTold(Scanned(vif), i)
    ensures vif.work == Leaving ==> SlotTold(vif.(work := Idle), i)
    ensures vif.work.Writing? && vif.chip[vif.work.slot] == vif.work.rates ==> SlotTold(vif.(work := Scanning), i)
  {
    assert SlotTold(vif, i);
  }

  lemma UploadTells(vif: Vif)
    requires VifTold(vif)
    ensures vif.work == Idle ==> VifTold(vif.(scheduled := false, work := Scanning))
    ensures vif.work == Scanning ==> VifTold(Scanned(vif))
    ensures vif.work == Leaving ==> VifTold(vif.(work := Idle))
    ensures vif.work.Writing? && vif.chip[vif.work.slot] == vif.work.rates ==> VifTold(vif.(work := Scanning))
  {
    hide SlotTold, Scanned;
    forall i: Slot
      ensures vif.work == Idle ==> SlotTold(vif.(scheduled := false, work := Scanning), i)
      ensures vif.work == Scanning ==> SlotTold(Scanned(vif), i)
      ensures vif.work == Leaving ==> SlotTold(vif.(work := Idle), i)
      ensures vif.work.Writing? && vif.chip[vif.work.slot] == vif.work.rates ==> SlotTold(vif.(work := Scanning), i)
    {
      UploadTellsSlot(vif, i);
    }
  }

  lemma ChipTells(vif: Vif)
    requires VifTold(vif) && vif.work.Writing?
    ensures VifTold(vif.(chip := vif.chip[vif.work.slot := vif.work.rates]))
  {
    var t := vif.(chip := vif.chip[vif.work.slot := vif.work.rates]);
    forall i: Slot ensures SlotTold(t, i) {
      assert SlotTold(vif, i);
    }
  }

  lemma WorkedTells(s: Device, v: nat, vif: Vif, ctl: Control)
    requires Told(s) && v < |s.vifs| && (!s.ctl.frozen ==> VifTold(vif))
    requires vif.chip == s.vifs[v].chip && Marked(s.vifs[v].table, vif.table)
    requires s.ctl.frozen ==> ctl.frozen
    requires ctl.command == s.ctl.command || ctl.command == NoCommand
    ensures Told(Worked(s, v, vif).(ctl := ctl))
  {
    hide VifTold;
    var t := Worked(s, v, vif).(ctl := ctl);
    forall f | f in s.air.pending ensures Known(s.vifs, f) ==> Known(t.vifs, f) {
    }
  }

  // Slots are only ever marked as uploaded, without change of rates.
  ghost predicate Marked(a: Table, b: Table) {
    forall i: Slot :: a.slots[i].rates == b.slots[i].rates && (a.slots[i].uploaded ==> b.slots[i].uploaded)
  }

  lemma ScannedMarks(vif: Vif)
    ensures Scanned(vif).chip == vif.chip && Marked(vif.table, Scanned(vif).table)
  {
  }

  lemma UploadStepTells(s: Device, a: Action)
    requires Told(s) && UploadStep(a) && Enabled(s, a)
    ensures Told(Step(s, a))
  {
    UploadStepShape(s, a);
    hide Step, Enabled, VifTold;
    if !s.ctl.frozen {
      UploadTells(s.vifs[a.vif]);
    }
    ScannedMarks(s.vifs[a.vif]);
    hide Told, Scanned, Worked;
    WorkedTells(s, a.vif, Uploading(s.vifs[a.vif], a), if a.UploadLeave? then Unlock(s.ctl) else s.ctl);
  }

  lemma FinishedTells(s: Device)
    requires Told(s) && Owned(s.vifs, s.ctl.command) && s.ctl.command.Answered?
    ensures Told(CommandFinished(s))
  {
    hide VifTold;
    var what := s.ctl.command.what;
    if what.SetPolicy? {
      if !s.ctl.frozen {
        UploadTells(s.vifs[what.vif]);
      }
      WorkedTells(s, what.vif, s.vifs[what.vif].(work := Scanning), s.ctl.(command := NoCommand));
    }
  }

  lemma CommandSentTells(s: Device, frames: multiset<Frame>, ctl: Control)
    requires Told(s) && Owned(s.vifs, s.ctl.command) && s.ctl.command.Ready?
    requires AllFaithful(s.vifs, frames) && forall f <- s.air.pending :: f in frames
    requires ctl.command == Sent(s.ctl.command.what) && ctl.frozen == s.ctl.frozen
    ensures Told(Device(Obeyed(s.vifs, s.ctl.command.what), s.air, ctl))
  {
    var what := s.ctl.command.what;
    if what.SetPolicy? && !s.ctl.frozen {
      var vif := s.vifs[what.vif];
      var t := Obeyed(s.vifs, what);
      ChipTells(vif);
      assert SlotTold(vif, what.slot);
      hide VifTold;
      forall f | f in s.air.pending ensures Known(t, f) {
        assert Known(s.vifs, f) && Faithful(s.vifs, f);
      }
    }
  }

  // With the transmit lock free, every slot in the cache that holds rates is known to the chip.
  lemma UnlockedMeansKnown(s: Device)
    requires LocksKnown(s) && Told(s) && !s.ctl.frozen && s.ctl.txLock == 0
    ensures forall v, i: Slot :: 0 <= v < |s.vifs| && s.vifs[v].table.slots[i].rates != NO_RATES ==>
              s.vifs[v].chip[i] == s.vifs[v].table.slots[i].rates && s.vifs[v].table.slots[i].uploaded
  {
    forall v, i: Slot | 0 <= v < |s.vifs| && s.vifs[v].table.slots[i].rates != NO_RATES
      ensures s.vifs[v].chip[i] == s.vifs[v].table.slots[i].rates && s.vifs[v].table.slots[i].uploaded
    {
      WorkLocksAt(s.vifs, v, s.vifs[v]);
      assert VifTold(s.vifs[v]) && SlotTold(s.vifs[v], i);
    }
  }

  lemma ChosenIsLive(air: Traffic)
    requires Choose(air.queues, air.allowed).frame.Some?
    ensures Choose(air.queues, air.allowed).frame.value in Live(air)
  {
    hide Before, Served, Queued;
    var cab := Lightest(air.queues, true, |air.queues|);
    var normal := Lightest(air.queues, false, |air.queues|);
    if true in air.allowed && cab.Some? {
      LaneIsQueued(air.queues, cab.value, true);
    } else {
      LaneIsQueued(air.queues, normal.value, false);
    }
  }

  lemma {:induction false} LaneIsQueued(queues: seq<Queue>, q: nat, cab: bool)
    requires q < |queues|
    ensures forall f <- Lane(queues[q], cab) :: f in Queued(queues)
  {
    if q < |queues| - 1 {
      LaneIsQueued(queues[..|queues| - 1], q, cab);
    }
  }

  // The frame the bottom half is about to send is one whose policy the chip already holds.
  lemma SentIsKnown(s: Device)
    requires LocksKnown(s) && Told(s) && Policed(s, Live(s.air)) && !s.ctl.frozen && s.ctl.txLock == 0
    requires Choose(s.air.queues, s.air.allowed).frame.Some?
    ensures Known(s.vifs, Choose(s.air.queues, s.air.allowed).frame.value)
  {
    hide Choose, Live, LocksKnown, Told, Slotted;
    ChosenIsLive(s.air);
    UnlockedMeansKnown(s);
    assert Faithful(s.vifs, Choose(s.air.queues, s.air.allowed).frame.value);
  }

  lemma FrameSentTells(s: Device, ctl: Control)
    requires LocksKnown(s) && Told(s) && Policed(s, Live(s.air)) && s.ctl.txLock == 0
    requires Choose(s.air.queues, s.air.allowed).frame.Some?
    requires ctl.frozen == s.ctl.frozen && ctl.command == s.ctl.command
    ensures Told(Device(s.vifs, FrameSent(s.air, Choose(s.air.queues, s.air.allowed)), ctl))
  {
    hide Choose, Live, LocksKnown, VifTold, Policed, Known;
    if !s.ctl.frozen {
      SentIsKnown(s);
    }
  }

  lemma SendOneTells(s: Device)
    requires LocksKnown(s) && Told(s) && Policed(s, Live(s.air)) && s.ctl.bh.Sending?
    ensures Told(SendOne(s))
  {
    var t := SendOne(s);
    hide Choose, Slotted, Live, AllFaithful, StopJustified, VifTold, Known, WorkLocks, CommandTold, Obeyed, FrameSent;
    if t.ctl.command != s.ctl.command {
      forall f | f in s.air.pending ensures f in Live(s.air) {
        LiveHolds(s.air, f);
      }
      CommandSentTells(s, Live(s.air), t.ctl);
    } else if Choose(s.air.queues, s.air.allowed).frame.Some? && t.air == FrameSent(s.air, Choose(s.air.queues, s.air.allowed)) {
      if s.ctl.txLock == 0 {
        FrameSentTells(s, t.ctl);
      }
    }
  }

  lemma SameTells(s: Device, t: Device)
    requires Told(s)
    requires |t.vifs| == |s.vifs| && forall v :: 0 <= v < |s.vifs| ==> SameSlots(s.vifs[v], t.vifs[v])
    requires forall f <- t.air.pending :: f in s.air.pending
    requires s.ctl.frozen == t.ctl.frozen && s.ctl.command == t.ctl.command
    ensures Told(t)
  {
    forall v, i: Slot | 0 <= v < |s.vifs| && !s.ctl.frozen ensures SlotTold(t.vifs[v], i) {
      assert VifTold(s.vifs[v]) && SlotTold(s.vifs[v], i);
      assert SameSlots(s.vifs[v], t.vifs[v]);
    }
    hide SlotTold;
    forall f | f in t.air.pending && !s.ctl.frozen ensures Known(t.vifs, f) {
      assert Known(s.vifs, f);
      if VifOf(f) < |s.vifs| {
        assert SameSlots(s.vifs[VifOf(f)], t.vifs[VifOf(f)]);
      }
    }
  }

  lemma ReportTells(s: Device, f: Frame)
    requires Told(s) && Policed(s, Live(s.air) + multiset{f}) && VifOf(f) < |s.vifs|
    ensures Told(Report(s, f))
  {
    hide Slotted, AllFaithful, StopJustified, Live, Told;
    ReportSame(s, f, Live(s.air));
    ReportEffect(s, f);
    hide Report;
    SameTells(s, Report(s, f));
  }

  lemma PendingOutTells(s: Device, k: nat, c: Confirmation, ctl: Control)
    requires Told(s) && k < |s.air.pending| && ctl == s.ctl.(used := ctl.used)
    ensures Told(Device(s.vifs, Unpended(s.air, k, c), ctl))
  {
    hide VifTold, Known;
  }

  lemma ConfirmTells(s: Device, c: Confirmation)
    requires Conserved(s) && Policed(s, Live(s.air)) && Told(s) && c.packet in s.air.inChip
    ensures Told(Confirm(s, c))
  {
    hide Live, Booked, Slotted, AllFaithful, StopJustified, Report, Told;
    var heard := s.ctl.(used := s.ctl.used - 1);
    var found := FirstWithPacket(s.air.pending, c.packet);
    if found.None? {
      AirTells(s, Unknown(s.air, c), heard);
    } else {
      var f := s.air.pending[found.value];
      LiveHolds(s.air, f);
      HasVif(s, f);
      UnpendedBooks(s.air, found.value, c);
      PendingOutTells(s, found.value, c, heard);
      ReportTells(Device(s.vifs, Unpended(s.air, found.value, c), heard), f);
    }
  }

  lemma {:induction false} ConfirmAllTells(s: Device, cs: seq<Confirmation>)
    requires Conserved(s) && Policed(s, Live(s.air)) && Told(s) && Packets(cs) <= s.air.inChip
    ensures Told(ConfirmAll(s, cs))
    decreases |cs|
  {
    hide Conserved, Policed, Confirm, Live, Told;
    if cs != [] {
      assert cs[0].packet in Packets(cs);
      ConfirmTells(s, cs[0]);
      ConfirmPolices(s, cs[0]);
      ConfirmConserves(s, cs[0]);
      ConfirmEffect(s, cs[0]);
      ConfirmAllTells(Confirm(s, cs[0]), cs[1..]);
    }
  }

  lemma DroppedReportedTells(s: Device)
    requires Conserved(s) && Policed(s, Live(s.air)) && Told(s) && s.air.dropped != []
    ensures Told(DroppedReported(s))
  {
    hide Live, Conserved, Slotted, AllFaithful, StopJustified, Report, VifTold, Known;
    LiveHolds(s.air, s.air.dropped[0]);
    HasVif(s, s.air.dropped[0]);
    DroppedOut(s.air);
    ReportTells(s.(air := s.air.(dropped := s.air.dropped[1..])), s.air.dropped[0]);
  }

  lemma ControlTells(s: Device, a: Action)
    requires Told(s) && OnlyControl(a) && Enabled(s, a)
    ensures Told(s.(ctl := Controlled(s.ctl, a)))
  {
    hide VifTold, Known;
  }

  lemma AirTells(s: Device, air: Traffic, ctl: Control)
    requires Told(s) && (forall f <- air.pending :: f in s.air.pending)
    requires ctl.frozen == s.ctl.frozen
    requires ctl.command == s.ctl.command || ctl.command.Ready?
    ensures Told(Device(s.vifs, air, ctl))
  {
    hide VifTold, Known;
  }

  lemma StepTells(s: Device, a: Action)
    requires LocksKnown(s) && Conserved(s) && Policed(s, Live(s.air)) && Told(s) && Enabled(s, a)
    ensures Told(Step(s, a))
  {
    hide Conserved, Live, Slotted, AllFaithful, StopJustified, Submitted, Report, ConfirmAll, SendOne, Scanned,
         CommandFinished, DroppedReported, Controlled, Told, WorkLocks;
    if OnlyControl(a) {
      ControlTells(s, a);
    } else if a.UploadStart? || a.UploadScan? || a.UploadSkip? || a.UploadLeave? {
      UploadStepTells(s, a);
    } else if a.Submit? {
      forall f | f in s.air.pending ensures f in Live(s.air) {
        LiveHolds(s.air, f);
      }
      SubmitTells(s, a, Live(s.air));
    } else if a.CommandDone? {
      FinishedTells(s);
    } else if a.ReportDropped? {
      DroppedReportedTells(s);
    } else if a.BhSend? {
      SendOneTells(s);
    } else if a.BhConfirm? {
      HeardConserved(s);
      AirTells(s, s.air, Heard(s).ctl);
      ConfirmAllTells(Heard(s), a.confirmations);
    } else {
      AirTells(s, Step(s, a).air, Step(s, a).ctl);
    }
  }

  // ---------------------------------------------------------------- every run

  ghost predicate Invariant(s: Device) {
    LocksKnown(s) && CreditsKnown(s) && Attended(s) && Conserved(s) && Policed(s, Live(s.air)) && Told(s)
  }

  lemma StepKeepsInvariant(s: Device, a: Action)
    requires Invariant(s) && Enabled(s, a)
    ensures Invariant(Step(s, a))
  {
    hide LocksKnown, CreditsKnown, Attended, Conserved, Policed, Told, Live, Step, Enabled;
    StepKeepsLocks(s, a);
    StepKeepsCredits(s, a);
    StepKeepsAttended(s, a);
    StepConserves(s, a);
    StepPolices(s, a);
    StepTells(s, a);
  }

  lemma {:induction false} RunKeepsInvariant(s: Device, run: seq<Action>)
    requires Invariant(s) && CanRun(s, run)
    ensures Invariant(TxEngine.Run(s, run))
    decreases |run|
  {
    hide Invariant, Step, Enabled;
    if run != [] {
      StepKeepsInvariant(s, run[0]);
      RunKeepsInvariant(Step(s, run[0]), run[1..]);
    }
  }

  lemma {:induction false} NothingQueued(queues: seq<Queue>)
    requires forall q :: 0 <= q < |queues| ==> queues[q].normal == [] && queues[q].cab == []
    ensures Queued(queues) == multiset{}
  {
    if queues != [] {
      NothingQueued(queues[..|queues| - 1]);
    }
  }

  lemma {:induction false} NothingDue(vifs: seq<Vif>)
    requires forall v :: 0 <= v < |vifs| ==> !vifs[v].scheduled && vifs[v].work == Idle
    ensures WorkLocks(vifs) == 0
  {
    if vifs != [] {
      NothingDue(vifs[..|vifs| - 1]);
    }
  }

  lemma StartTables(s: Device)
    requires AtStart(s)
    ensures Policed(s, multiset{})
    ensures Told(s)
  {
    StartSound();
    forall v: nat ensures v < |s.vifs| ==> Consistent(s.vifs[v].table, Tally(multiset{}, HolderOf(v))) {
    }
    forall v, i: Slot | 0 <= v < |s.vifs| ensures SlotTold(s.vifs[v], i) {
    }
  }

  lemma StartConserves(s: Device)
    requires AtStart(s)
    ensures Live(s.air) == multiset{} && Conserved(s)
  {
    NothingQueued(s.air.queues);
    hide Queued;
    assert Live(s.air) == multiset{};
  }

  lemma StartAttends(s: Device)
    requires AtStart(s)
    ensures Attended(s)
  {
    hide Before, Weight, Served;
    assert !Choose(s.air.queues, s.air.allowed).frame.Some?;
  }

  lemma StartHolds(s: Device)
    requires AtStart(s)
    ensures Invariant(s)
  {
    hide Policed, Told, Conserved, Attended, Choose, Live;
    NothingDue(s.vifs);
    StartTables(s);
    StartConserves(s);
    StartAttends(s);
  }
}
