// What a caller of the transmit side can rely on, after any run from start-up.
module TxGuarantees {
  import opened RetryPolicy
  import opened FrameQueues
  import opened Tallies
  import opened TxEngine
  import opened TxAccounting
  import opened TxConservation
  import opened TxPolicies
  import opened TxSafety

  ghost predicate Reached(s: Device) {
    exists start, run :: AtStart(start) && CanRun(start, run) && s == TxEngine.Run(start, run)
  }

  lemma ReachedHolds(s: Device)
    requires Reached(s)
    ensures Invariant(s)
  {
    hide AtStart, Invariant;
    var start, run :| AtStart(start) && CanRun(start, run) && s == TxEngine.Run(start, run);
    StartHolds(start);
    RunKeepsInvariant(start, run);
  }

  // ---------------------------------------------------------------- policies

  // Every frame in the chip was submitted with exactly the rates the chip holds under the index the
  // frame carries, and while nobody holds the transmit lock the chip mirrors the whole cache.
  lemma PolicyBeforeFrame(s: Device)
    requires Reached(s) && !s.ctl.frozen
    ensures forall f <- s.air.pending :: f.policy < SLOTS && f.rates != NO_RATES ==>
              VifOf(f) < |s.vifs| && s.vifs[VifOf(f)].chip[f.policy] == f.rates
    ensures s.ctl.txLock == 0 ==> forall v, i: Slot :: 0 <= v < |s.vifs| && s.vifs[v].table.slots[i].rates != NO_RATES ==>
              s.vifs[v].chip[i] == s.vifs[v].table.slots[i].rates
  {
    ReachedHolds(s);
    hide Live, WorkLocks, Queued, AtHome, VifTold, Policed, Reached;
    if s.ctl.txLock == 0 {
      UnlockedMeansKnown(s);
    }
    forall f | f in s.air.pending ensures VifOf(f) < |s.vifs| && Known(s.vifs, f) {
      LiveHolds(s.air, f);
      HasVif(s, f);
    }
  }

  // A slot counts the live frames that carry its index, and keeps the rates each was submitted with.
  lemma SlotsCountFrames(s: Device, v: nat, i: Slot)
    requires Reached(s) && v < |s.vifs|
    ensures var t := s.vifs[v].table;
            && t.slots[i].usage == Tally(Live(s.air), HolderOf(v))[i]
            && (i in t.used <==> Tally(Live(s.air), HolderOf(v))[i] > 0)
            && (i in t.used <==> i !in t.free)
            && forall f :: f in Live(s.air) && VifOf(f) == v && f.policy == i ==> t.slots[i].rates == f.rates
  {
    ReachedHolds(s);
    hide Tally, Live, Reached, LocksKnown, CreditsKnown, Attended, Conserved, Told, RatesUnique, NoRepeats;
    assert Consistent(s.vifs[v].table, Tally(Live(s.air), HolderOf(v)));
    forall f | f in Live(s.air) && VifOf(f) == v && f.policy == i ensures s.vifs[v].table.slots[i].rates == f.rates {
      assert Faithful(s.vifs, f);
    }
  }

  // ---------------------------------------------------------------- frames

  // How often the frame with some identity occurs.
  ghost function Occurrences(frames: multiset<Frame>, id: nat): nat {
    Tally(frames, IdOf)[id]
  }

  // A frame handed over is in one place: waiting, in the chip, taken out to be dropped, or handed back.
  lemma EachFrameInOnePlace(s: Device, id: nat)
    requires Reached(s)
    ensures Occurrences(Queued(s.air.queues), id) + Occurrences(multiset(s.air.pending), id)
            + Occurrences(multiset(s.air.dropped), id) + multiset(s.air.reported)[id]
         == (if id in s.air.submitted then 1 else 0)
  {
    ReachedHolds(s);
    hide Reached, LocksKnown, CreditsKnown, Attended, Policed, Told, Tally, Queued, AtHome, CountsPending, ChipHolds, InRange;
    var q, p, d := Queued(s.air.queues), multiset(s.air.pending), multiset(s.air.dropped);
    TallyUnion(q, p, IdOf);
    TallyUnion(q + p, d, IdOf);
    assert multiset(s.air.submitted)[id] == (if id in s.air.submitted then 1 else 0);
  }

  lemma {:induction false} SizeOfTally(frames: multiset<Frame>)
    ensures |Tally(frames, PacketOf)| == |frames|
    decreases |frames|
  {
    if frames != multiset{} {
      var f :| f in frames;
      var rest := frames - multiset{f};
      assert frames == rest + multiset{f};
      SizeOfTally(rest);
      TallyAdd(rest, f, PacketOf);
    }
  }

  // The chip is never given more than it has buffers for: the counter is the number of frames it
  // holds and the command it has not answered, and each queue counts its own frames among them.
  lemma CreditsAreFramesInChip(s: Device)
    requires Reached(s)
    ensures s.ctl.used == |s.air.pending| + |s.air.abandoned| + (if s.ctl.command.Sent? then 1 else 0)
    ensures s.ctl.used <= s.ctl.credits
    ensures !s.ctl.frozen ==> s.air.abandoned == multiset{}
    ensures forall q: nat :: q < |s.air.queues| ==> s.air.queues[q].pending == Tally(multiset(s.air.pending), QueueOf)[q]
  {
    ReachedHolds(s);
    hide Reached, LocksKnown, Attended, Policed, Told, Tally, Live, AtHome, InRange, Identified;
    SizeOfTally(multiset(s.air.pending));
  }

  // ---------------------------------------------------------------- locking and flushing

  // When a flush ends in time, no frame and no command is left in the chip.
  lemma FlushEmptiesChip(s: Device)
    requires Reached(s) && s.ctl.flushing && s.ctl.used == 0 && !s.ctl.frozen
    ensures s.air.pending == [] && s.air.inChip == multiset{} && s.ctl.command == NoCommand
  {
    ReachedHolds(s);
    CreditsAreFramesInChip(s);
    hide Reached, Attended, Policed, Told, Tally, Live, Conserved, WorkLocks, Owned, CountsPending;
  }

  ghost predicate LockedThroughout(s: Device, run: seq<Action>)
    requires CanRun(s, run)
    decreases |run|
  {
    s.ctl.txLock > 0 && (run == [] || LockedThroughout(Step(s, run[0]), run[1..]))
  }

  lemma LockedSendsNothing(s: Device, a: Action)
    requires Enabled(s, a) && s.ctl.txLock > 0 && s.air.inChip == multiset{}
    ensures Step(s, a).air.inChip == multiset{}
  {
    hide Choose, Report, ConfirmAll, Obtain, FirstDirty, Reversed, Enqueued, CountedOut, Controlled;
    if a.ReportDropped? {
      ReportEffect(s.(air := s.air.(dropped := s.air.dropped[1..])), s.air.dropped[0]);
    }
  }

  // From then on, and for as long as anybody keeps the transmit lock, no frame reaches the chip.
  lemma {:induction false} LockKeepsChipEmpty(s: Device, run: seq<Action>)
    requires CanRun(s, run) && LockedThroughout(s, run) && s.air.inChip == multiset{}
    ensures TxEngine.Run(s, run).air.inChip == multiset{}
    decreases |run|
  {
    hide Step, Enabled;
    if run != [] {
      LockedSendsNothing(s, run[0]);
      LockKeepsChipEmpty(Step(s, run[0]), run[1..]);
    }
  }

  // ---------------------------------------------------------------- progress

  // With the bottom half asleep and no call of it due, a frame that may be sent waits only because
  // the chip owes a confirmation for every buffer it has.
  lemma NoFrameLeftBehind(s: Device)
    requires Reached(s) && s.ctl.bh == Asleep && !s.ctl.bhQueued && s.ctl.txLock == 0
    requires Choose(s.air.queues, s.air.allowed).frame.Some?
    ensures s.ctl.used == s.ctl.credits
    ensures s.ctl.credits == |s.air.inChip| + (if s.ctl.command.Sent? then 1 else 0)
  {
    ReachedHolds(s);
    hide Reached, LocksKnown, Policed, Told, Conserved, Choose;
  }

  // Nor does a command wait otherwise, whoever holds the transmit lock.
  lemma NoCommandLeftBehind(s: Device)
    requires Reached(s) && s.ctl.bh == Asleep && !s.ctl.bhQueued && s.ctl.command.Ready?
    ensures s.ctl.used == s.ctl.credits == |s.air.inChip|
  {
    ReachedHolds(s);
    hide Reached, LocksKnown, Policed, Told, Conserved, Choose;
  }

  // A command goes to the chip before any frame, whoever holds the transmit lock.
  lemma CommandGoesFirst(s: Device)
    requires s.ctl.bh.Sending? && s.ctl.bh.sent < BATCH && s.ctl.used < s.ctl.credits && s.ctl.command.Ready?
    ensures SendOne(s).ctl.command == Sent(s.ctl.command.what) && SendOne(s).air == s.air
    ensures SendOne(s).ctl.used == s.ctl.used + 1
  {
    hide Choose, Obeyed;
  }

  // Nobody can hold the transmit lock without being known to: it is free exactly when no other part
  // of the driver, no flush and no upload work is between its lock and its unlock.
  lemma LockIsAccountedFor(s: Device)
    requires Reached(s)
    ensures s.ctl.txLock >= 0
    ensures s.ctl.txLock == 0 <==>
              && s.ctl.otherLocks == 0 && s.ctl.flushers == 0 && !s.ctl.flushing
              && forall v :: 0 <= v < |s.vifs| ==> !s.vifs[v].scheduled && s.vifs[v].work == Idle
  {
    ReachedHolds(s);
    hide Reached, CreditsKnown, Attended, Policed, Told, Conserved, WorkLocks;
    LocksMeanWork(s.vifs);
  }

  lemma LocksMeanWork(vifs: seq<Vif>)
    ensures WorkLocks(vifs) >= 0
    ensures WorkLocks(vifs) == 0 <==> forall v :: 0 <= v < |vifs| ==> !vifs[v].scheduled && vifs[v].work == Idle
  {
    if WorkLocks(vifs) == 0 {
      forall v | 0 <= v < |vifs| ensures !vifs[v].scheduled && vifs[v].work == Idle {
        WorkLocksAt(vifs, v, vifs[v]);
      }
    } else if forall v :: 0 <= v < |vifs| ==> !vifs[v].scheduled && vifs[v].work == Idle {
      NothingDue(vifs);
    }
  }
}
