// What every step of the transmit machine keeps about the transmit lock, the command mutex, the
// credits and the wake-up of the bottom half.
module TxAccounting {
  import opened RetryPolicy
  import opened FrameQueues
  import opened TxEngine

  // ---------------------------------------------------------------- the transmit lock

  function WorkLock(vif: Vif): nat {
    (if vif.scheduled then 1 else 0) + (if vif.work != Idle then 1 else 0)
  }

  ghost function WorkLocks(vifs: seq<Vif>): nat {
    if vifs == [] then 0 else WorkLocks(vifs[..|vifs| - 1]) + WorkLock(vifs[|vifs| - 1])
  }

  lemma {:induction false} WorkLocksAt(vifs: seq<Vif>, v: nat, vif: Vif)
    requires v < |vifs|
    ensures WorkLocks(vifs[v := vif]) == WorkLocks(vifs) - WorkLock(vifs[v]) + WorkLock(vif)
    ensures WorkLock(vifs[v]) <= WorkLocks(vifs)
  {
    var n := |vifs| - 1;
    if v < n {
      WorkLocksAt(vifs[..n], v, vif);
      assert vifs[v := vif][..n] == vifs[..n][v := vif];
    } else {
      assert vifs[v := vif][..n] == vifs[..n];
    }
  }

  ghost predicate SameWork(a: seq<Vif>, b: seq<Vif>) {
    |a| == |b| && forall v :: 0 <= v < |a| ==> a[v].scheduled == b[v].scheduled && a[v].work == b[v].work
  }

  lemma {:induction false} SameWorkLocks(a: seq<Vif>, b: seq<Vif>)
    requires SameWork(a, b)
    ensures WorkLocks(a) == WorkLocks(b)
  {
    if a != [] {
      SameWorkLocks(a[..|a| - 1], b[..|b| - 1]);
    }
  }

  // A policy command belongs to the upload work that is writing that policy.
  ghost predicate Owned(vifs: seq<Vif>, command: Command) {
    !command.NoCommand? && command.what.SetPolicy? ==>
      && command.what.vif < |vifs|
      && vifs[command.what.vif].work == Writing(command.what.slot, command.what.rates)
  }

  function FlushLock(c: Control): nat {
    if c.flushing then 1 else 0
  }

  // Each holder of the transmit lock is known, and a flush keeps commands away.
  ghost predicate LocksKnown(s: Device) {
    && s.ctl.txLock == s.ctl.otherLocks + s.ctl.flushers + FlushLock(s.ctl) + WorkLocks(s.vifs)
    && (s.ctl.flushing ==> s.ctl.command == NoCommand)
    && Owned(s.vifs, s.ctl.command)
  }

  // ---------------------------------------------------------------- steps that report frames

  lemma ReportEffect(s: Device, f: Frame)
    ensures SameWork(s.vifs, Report(s, f).vifs) && Report(s, f).ctl == s.ctl
    ensures var t := Report(s, f).air; t == s.air.(stopped := t.stopped, reported := t.reported)
  {
  }

  lemma ConfirmEffect(s: Device, c: Confirmation)
    ensures SameWork(s.vifs, Confirm(s, c).vifs)
    ensures Confirm(s, c).ctl == s.ctl.(used := s.ctl.used - 1)
    ensures Confirm(s, c).air.inChip == s.air.inChip - multiset{c.packet}
  {
    hide Report;
    var found := FirstWithPacket(s.air.pending, c.packet);
    if found.Some? {
      var k := found.value;
      ReportEffect(Device(s.vifs, Unpended(s.air, k, c), s.ctl.(used := s.ctl.used - 1)), s.air.pending[k]);
    }
  }

  lemma {:induction false} ConfirmAllEffect(s: Device, cs: seq<Confirmation>)
    ensures SameWork(s.vifs, ConfirmAll(s, cs).vifs)
    ensures ConfirmAll(s, cs).ctl == s.ctl.(used := s.ctl.used - |cs|)
    ensures ConfirmAll(s, cs).air.inChip == s.air.inChip - Packets(cs)
    decreases |cs|
  {
    hide Confirm;
    if cs != [] {
      ConfirmEffect(s, cs[0]);
      ConfirmAllEffect(Confirm(s, cs[0]), cs[1..]);
    }
  }

  // ---------------------------------------------------------------- the lock is always accounted for

  lemma ControlLocks(s: Device, a: Action)
    requires LocksKnown(s) && OnlyControl(a) && Enabled(s, a)
    ensures LocksKnown(s.(ctl := Controlled(s.ctl, a)))
  {
  }

  lemma WorkLocksKept(s: Device, v: nat, vif: Vif, ctl: Control)
    requires LocksKnown(s) && v < |s.vifs|
    requires Owned(s.vifs[v := vif], ctl.command)
    requires ctl == s.ctl.(txLock := s.ctl.txLock - WorkLock(s.vifs[v]) + WorkLock(vif), bhQueued := ctl.bhQueued, command := ctl.command)
    requires ctl.command == s.ctl.command || ctl.command == NoCommand
    ensures LocksKnown(Device(s.vifs[v := vif], s.air, ctl))
  {
    WorkLocksAt(s.vifs, v, vif);
  }

  lemma SubmittedLocks(s: Device, a: Action)
    requires LocksKnown(s) && a.Submit? && a.vif < |s.vifs|
    ensures LocksKnown(Submitted(s, a))
  {
    hide Obtain, Accepted;
    WorkLocksAt(s.vifs, a.vif, Submitted(s, a).vifs[a.vif]);
  }

  lemma SendOneLocks(s: Device)
    requires LocksKnown(s) && s.ctl.bh.Sending?
    ensures LocksKnown(SendOne(s))
  {
    hide Choose, FrameSent;
    SameWorkLocks(s.vifs, SendOne(s).vifs);
  }

  lemma UploadLocks(s: Device, a: Action)
    requires LocksKnown(s) && UploadStep(a) && Enabled(s, a)
    ensures LocksKnown(Step(s, a))
  {
    UploadStepShape(s, a);
    hide Step, Enabled;
    ScannedWork(s.vifs[a.vif]);
    hide Scanned, WorkLocks;
    WorkLocksKept(s, a.vif, Uploading(s.vifs[a.vif], a), if a.UploadLeave? then Unlock(s.ctl) else s.ctl);
  }

  lemma ScannedWork(vif: Vif)
    ensures Scanned(vif).scheduled == vif.scheduled && Scanned(vif).work != Idle
  {
  }

  lemma CommandFinishedLocks(s: Device)
    requires LocksKnown(s) && s.ctl.command.Answered?
    ensures LocksKnown(CommandFinished(s))
  {
    var what := s.ctl.command.what;
    if what.SetPolicy? {
      WorkLocksKept(s, what.vif, s.vifs[what.vif].(work := Scanning), s.ctl.(command := NoCommand));
    }
  }

  lemma ReportingLocks(s: Device, vifs: seq<Vif>, air: Traffic, ctl: Control)
    requires LocksKnown(s)
    requires SameWork(s.vifs, vifs) && ctl == s.ctl.(used := ctl.used, bh := ctl.bh)
    ensures LocksKnown(Device(vifs, air, ctl))
  {
    SameWorkLocks(s.vifs, vifs);
  }

  lemma StepKeepsLocks(s: Device, a: Action)
    requires LocksKnown(s) && Enabled(s, a)
    ensures LocksKnown(Step(s, a))
  {
    hide Submitted, Report, ConfirmAll, SendOne, CommandFinished, LaneDropped, PendingDropped, Scanned, Controlled;
    if OnlyControl(a) {
      ControlLocks(s, a);
    } else if a.UploadStart? || a.UploadScan? || a.UploadSkip? || a.UploadLeave? {
      UploadLocks(s, a);
    } else {
      match a
      case Submit(_, _, _, _, _, _) => SubmittedLocks(s, a);
      case CommandDone => CommandFinishedLocks(s);
      case BhSend => SendOneLocks(s);
      case BhConfirm(cs) =>
        ConfirmAllEffect(Heard(s), cs);
        var t := ConfirmAll(Heard(s), cs);
        ReportingLocks(s, t.vifs, t.air, t.ctl);
      case ReportDropped =>
        ReportEffect(s.(air := s.air.(dropped := s.air.dropped[1..])), s.air.dropped[0]);
        var t := DroppedReported(s);
        ReportingLocks(s, t.vifs, t.air, t.ctl);
      case _ =>
    }
  }

  // ---------------------------------------------------------------- credits

  // Every request the chip has not confirmed is counted, and the chip is never sent more than it
  // has buffers for.
  ghost predicate CreditsKnown(s: Device) {
    && s.ctl.used == |s.air.inChip| + (if s.ctl.command.Sent? then 1 else 0)
    && s.ctl.used <= s.ctl.credits
  }

  lemma {:induction false} PacketsCount(cs: seq<Confirmation>)
    ensures |Packets(cs)| == |cs|
  {
    if cs != [] {
      PacketsCount(cs[1..]);
    }
  }

  lemma ConfirmAllCredits(s: Device, cs: seq<Confirmation>)
    requires CreditsKnown(s) && s.ctl.bh.Receiving? && Packets(cs) <= s.air.inChip
    ensures CreditsKnown(ConfirmAll(Heard(s), cs))
  {
    hide ConfirmAll;
    ConfirmAllEffect(Heard(s), cs);
    PacketsCount(cs);
    assert |s.air.inChip - Packets(cs)| == |s.air.inChip| - |Packets(cs)| by {
      assert s.air.inChip == (s.air.inChip - Packets(cs)) + Packets(cs);
    }
  }

  lemma SendOneCredits(s: Device)
    requires CreditsKnown(s) && s.ctl.bh.Sending?
    ensures CreditsKnown(SendOne(s))
  {
    hide Choose, Obeyed;
  }

  lemma ControlCredits(s: Device, a: Action)
    requires LocksKnown(s) && CreditsKnown(s) && OnlyControl(a) && Enabled(s, a)
    ensures CreditsKnown(s.(ctl := Controlled(s.ctl, a)))
  {
    hide WorkLocks, Owned;
  }

  lemma SubmitCredits(s: Device, a: Action)
    requires CreditsKnown(s) && a.Submit? && a.vif < |s.vifs|
    ensures CreditsKnown(Submitted(s, a))
  {
    hide Obtain, Enqueued;
  }

  lemma StepKeepsCredits(s: Device, a: Action)
    requires LocksKnown(s) && CreditsKnown(s) && Enabled(s, a)
    ensures CreditsKnown(Step(s, a))
  {
    hide Submitted, Report, ConfirmAll, SendOne, Scanned, Controlled, Reversed, CountedOut;
    if OnlyControl(a) {
      ControlCredits(s, a);
    } else {
      match a
      case Submit(_, _, _, _, _, _) => SubmitCredits(s, a);
      case BhSend => SendOneCredits(s);
      case BhConfirm(cs) => ConfirmAllCredits(s, cs);
      case ReportDropped => ReportEffect(s.(air := s.air.(dropped := s.air.dropped[1..])), s.air.dropped[0]);
      case _ =>
    }
  }

  // ---------------------------------------------------------------- no frame is left behind

  // Something the bottom half could send now.
  ghost predicate HasWork(s: Device) {
    && s.ctl.used < s.ctl.credits
    && (s.ctl.command.Ready? || (s.ctl.txLock == 0 && Choose(s.air.queues, s.air.allowed).frame.Some?))
  }

  // The bottom half sleeps, or is in a round that has moved nothing and ends unless a message comes.
  predicate Resting(bh: BottomHalf) {
    bh == Asleep || bh == Receiving(0, 0)
  }

  ghost predicate Attended(s: Device) {
    Resting(s.ctl.bh) && HasWork(s) ==> s.ctl.bhQueued
  }

  // Queues that offer no more than others.
  ghost predicate NoNewFrames(old_: Traffic, new_: Traffic) {
    && |new_.queues| == |old_.queues|
    && (forall q, cab :: 0 <= q < |old_.queues| && Lane(old_.queues[q], cab) == [] ==> Lane(new_.queues[q], cab) == [])
    && (true in new_.allowed ==> true in old_.allowed)
  }

  lemma NothingNewToChoose(old_: Traffic, new_: Traffic)
    requires NoNewFrames(old_, new_)
    ensures Choose(new_.queues, new_.allowed).frame.Some? ==> Choose(old_.queues, old_.allowed).frame.Some?
  {
    hide Before, Weight;
  }

  lemma SendOneAttends(s: Device)
    requires Attended(s) && s.ctl.bh.Sending?
    ensures Attended(SendOne(s))
  {
    hide Obeyed, FrameSent, Choose;
    if s.ctl.used < s.ctl.credits && !s.ctl.command.Ready? && s.ctl.txLock == 0 && s.ctl.bh.sent < BATCH {
      var c := Choose(s.air.queues, s.air.allowed);
      if c.frame.None? {
        NothingToSend(s.air);
      }
    }
  }

  lemma NothingToSend(air: Traffic)
    requires Choose(air.queues, air.allowed).frame.None?
    ensures Choose(air.queues, Choose(air.queues, air.allowed).allowed).frame.None?
  {
    var after := air.(allowed := NoneAllowed(|air.allowed|));
    assert NoNewFrames(air, after);
    NothingNewToChoose(air, after);
  }

  lemma DropLaneAttends(s: Device, q: nat, cab: bool)
    requires Attended(s) && q < |s.air.queues|
    ensures Attended(s.(air := LaneDropped(s.air, q, cab)))
  {
    NothingNewToChoose(s.air, LaneDropped(s.air, q, cab));
  }

  lemma DropPendingAttends(s: Device)
    requires Attended(s) && s.air.pending != []
    ensures Attended(s.(air := PendingDropped(s.air)))
  {
    NothingNewToChoose(s.air, PendingDropped(s.air));
  }

  lemma ControlAttends(s: Device, a: Action)
    requires LocksKnown(s) && Attended(s) && OnlyControl(a) && Enabled(s, a)
    ensures Attended(s.(ctl := Controlled(s.ctl, a)))
  {
    hide Choose, WorkLocks, Owned;
  }

  lemma StepKeepsAttended(s: Device, a: Action)
    requires LocksKnown(s) && Attended(s) && Enabled(s, a)
    ensures Attended(Step(s, a))
  {
    hide Submitted, Report, ConfirmAll, SendOne, LaneDropped, PendingDropped, Scanned, Controlled, Choose, WorkLocks, Owned;
    if OnlyControl(a) {
      ControlAttends(s, a);
    } else {
      match a
      case Submit(_, _, _, _, _, _) => assert Submitted(s, a).ctl.bhQueued by { SubmitQueues(s, a); }
      case DropLane(q, cab) => DropLaneAttends(s, q, cab);
      case DropPending => DropPendingAttends(s);
      case BhSend => SendOneAttends(s);
      case BhConfirm(cs) => ConfirmAllEffect(Heard(s), cs);
      case ReportDropped => ReportEffect(s.(air := s.air.(dropped := s.air.dropped[1..])), s.air.dropped[0]);
      case _ =>
    }
  }

  lemma SubmitQueues(s: Device, a: Action)
    requires a.Submit? && a.vif < |s.vifs|
    ensures Submitted(s, a).ctl.bhQueued
  {
    hide Obtain, Accepted;
  }
}
