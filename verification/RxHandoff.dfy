// How the length of the next message travels from the chip to the bottom half: by interrupt, through
// a shared register and a completion, or on the back of the previous message.
//
// Each step below is one access to shared state.  The interrupt handler, the bottom half and the chip
// take their steps in any order.
module RxHandoff {

  const BATCH: nat := 32
  // The length field of the control register.
  const LENGTH_MASK: nat := 0xFFF

  type Length = n: nat | 0 < n <= LENGTH_MASK witness 1

  datatype Message = Message(length: Length, payload: nat)

  // The handler of an interrupt: it has read a length, stored it, posted the completion.
  datatype Handler = AtRest | HasRead(length: nat) | HasStored | HasPosted

  // The bottom half.  worked tells that this round has already moved something; got counts the
  // messages of this round and piggyback is the length that came with the last of them.
  datatype BottomHalf =
    | Asleep
    | Waking
    | WakeTaken
    | Sending(worked: bool)
    | Polling(worked: bool, got: nat, piggyback: nat)
    | Exchanging(worked: bool, got: nat)
    | Reading(worked: bool, got: nat, length: Length)
    | Storing(next: Length)
    | Posting
    | RoundOver(worked: bool)

  // outgoing: messages the chip holds for the host.  toSend: what the host could still send, which
  // the bottom half does between reading rounds.
  datatype State = State(
    outgoing: seq<Message>,
    irq: bool,
    handler: Handler,
    register: nat,
    completions: nat,
    queued: bool,
    bh: BottomHalf,
    toSend: nat,
    produced: seq<Message>,
    delivered: seq<Message>)

  datatype Action =
    // The chip and the rest of the driver.
    | Produce(m: Message)
    | Spurious
    | RequestSend
    // The interrupt handler.
    | IrqRead | IrqStore | IrqPost | IrqQueue
    // The bottom half.
    | Start | TakeWakeUp | RestoreWakeUp | WakeUpTimeout
    | Send | SendNothing
    | Poll | Exchange | Read | Store | Post | EndRound

  function NextLength(q: seq<Message>): nat {
    if q == [] then 0 else q[0].length
  }

  predicate Enabled(s: State, a: Action) {
    match a
    case Produce(_) => true
    case Spurious => s.handler == AtRest && s.outgoing == []
    case RequestSend => true
    case IrqRead => s.irq && s.handler == AtRest
    case IrqStore => s.handler.HasRead?
    case IrqPost => s.handler == HasStored
    case IrqQueue => s.handler == HasPosted
    case Start => s.queued && s.bh == Asleep
    case TakeWakeUp => s.bh == Waking && s.completions > 0
    case RestoreWakeUp => s.bh == WakeTaken
    case WakeUpTimeout => s.bh == Waking
    case Send => s.bh.Sending? && s.toSend > 0
    case SendNothing => s.bh.Sending?
    case Poll => s.bh.Polling?
    case Exchange => s.bh.Exchanging?
    case Read => s.bh.Reading? && s.outgoing != []
    case Store => s.bh.Storing?
    case Post => s.bh == Posting
    case EndRound => s.bh.RoundOver?
  }

  // The top of the reading loop: a length that came with the last message is used first, then one
  // announced by interrupt.  A batch that ends with a length in hand puts it back for the next round.
  function Polled(s: State): State
    requires s.bh.Polling?
  {
    var b := s.bh;
    if b.got >= BATCH then
      if 0 < b.piggyback <= LENGTH_MASK then s.(bh := Storing(b.piggyback)) else s.(bh := RoundOver(true))
    else if 0 < b.piggyback <= LENGTH_MASK then s.(bh := Reading(b.worked, b.got, b.piggyback))
    else if s.completions > 0 then s.(bh := Exchanging(b.worked, b.got), completions := s.completions - 1)
    else s.(bh := RoundOver(b.worked || b.got > 0))
  }

  function Exchanged(s: State): State
    requires s.bh.Exchanging?
  {
    var b := s.bh;
    if 0 < s.register <= LENGTH_MASK
    then s.(register := 0, bh := Reading(b.worked, b.got, s.register))
    else s.(register := 0, bh := RoundOver(b.worked || b.got > 0))
  }

  function Step(s: State, a: Action): State
    requires Enabled(s, a)
  {
    match a
    case Produce(m) =>
      // Only a message that nothing else announces raises an interrupt.
      s.(outgoing := s.outgoing + [m], irq := s.irq || s.outgoing == [], produced := s.produced + [m])
    case Spurious => s.(handler := HasRead(0))
    case RequestSend => s.(toSend := s.toSend + 1, queued := true)
    case IrqRead => s.(irq := false, handler := HasRead(NextLength(s.outgoing)))
    case IrqStore => s.(register := s.handler.length, handler := HasStored)
    case IrqPost => s.(completions := s.completions + 1, handler := HasPosted)
    case IrqQueue => s.(queued := true, handler := AtRest)
    case Start => s.(queued := false, bh := Waking)
    case TakeWakeUp => s.(completions := s.completions - 1, bh := WakeTaken)
    case RestoreWakeUp => s.(completions := s.completions + 1, bh := Sending(false))
    case WakeUpTimeout => s.(bh := Sending(false))
    case Send => s.(toSend := s.toSend - 1, bh := Sending(true))
    case SendNothing => s.(bh := Polling(s.bh.worked, 0, 0))
    case Poll => Polled(s)
    case Exchange => Exchanged(s)
    case Read =>
      s.(outgoing := s.outgoing[1..], delivered := s.delivered + [s.outgoing[0]],
         bh := Polling(s.bh.worked, s.bh.got + 1, NextLength(s.outgoing[1..])))
    case Store => s.(register := s.bh.next, bh := Posting)
    case Post => s.(completions := s.completions + 1, bh := RoundOver(true))
    case EndRound => s.(bh := if s.bh.worked then Sending(false) else Asleep)
  }

  // ---------------------------------------------------------------- where the announcement is

  // The length the bottom half has in hand.
  function InHand(b: BottomHalf): nat {
    match b
    case Polling(_, _, piggyback) => piggyback
    case Reading(_, _, length) => length
    case Storing(next) => next
    case _ => 0
  }

  function IrqWeight(s: State): nat { if s.irq then 1 else 0 }
  function Held(n: nat): nat { if n > 0 then 1 else 0 }
  function HandlerLength(h: Handler): nat { if h.HasRead? then h.length else 0 }

  // How many places hold the announcement of the next message.
  function Announcements(s: State): nat {
    IrqWeight(s) + Held(HandlerLength(s.handler)) + Held(s.register) + Held(InHand(s.bh))
  }

  // A length held anywhere is that of the next message.
  ghost predicate Right(s: State, length: nat) {
    length > 0 ==> length == NextLength(s.outgoing)
  }

  // The bottom half is going to look at the completion again before it sleeps.
  predicate WillLook(b: BottomHalf) {
    b.Waking? || b.WakeTaken? || b.Sending? || b.Polling? || (b.RoundOver? && b.worked) || b.Posting? || b.Exchanging?
  }

  // The register is full: somebody is about to post, or a posted completion will be looked at.
  ghost predicate WillBeTaken(s: State) {
    || s.handler == HasStored
    || s.bh.Exchanging?
    || s.bh == Posting
    || ((s.completions > 0 || s.bh == WakeTaken) && (s.queued || s.handler == HasPosted || WillLook(s.bh)))
  }

  // The next message is announced in exactly one place, which leads to its being read.
  ghost predicate Announced(s: State) {
    && Announcements(s) == (if s.outgoing == [] then 0 else 1)
    && Right(s, HandlerLength(s.handler)) && Right(s, s.register) && Right(s, InHand(s.bh))
    && (s.register > 0 ==> WillBeTaken(s))
  }

  // An interrupt that found no message to read leaves the announcement of a later one to the next.
  ghost predicate EmptyReadHarmless(s: State) {
    s.handler == HasRead(0) && s.outgoing != [] ==> s.irq
  }

  ghost predicate InOrder(s: State) {
    s.delivered + s.outgoing == s.produced
  }

  ghost predicate Invariant(s: State) {
    Announced(s) && EmptyReadHarmless(s) && InOrder(s)
  }

  lemma ChipStepKeeps(s: State, a: Action)
    requires Invariant(s) && Enabled(s, a) && (a.Produce? || a.Spurious? || a.RequestSend?)
    ensures Invariant(Step(s, a))
  {
  }

  lemma IrqStepKeeps(s: State, a: Action)
    requires Invariant(s) && Enabled(s, a) && (a.IrqRead? || a.IrqStore? || a.IrqPost? || a.IrqQueue?)
    ensures Invariant(Step(s, a))
  {
  }

  lemma WakeUpStepKeeps(s: State, a: Action)
    requires Invariant(s) && Enabled(s, a)
    requires a.Start? || a.TakeWakeUp? || a.RestoreWakeUp? || a.WakeUpTimeout? || a.Send? || a.SendNothing?
    ensures Invariant(Step(s, a))
  {
  }

  lemma PollKeeps(s: State)
    requires Invariant(s) && Enabled(s, Poll)
    ensures Invariant(Polled(s))
  {
  }

  lemma ReadStepKeeps(s: State, a: Action)
    requires Invariant(s) && Enabled(s, a) && (a.Exchange? || a.Read?)
    ensures Invariant(Step(s, a))
  {
  }

  lemma RoundStepKeeps(s: State, a: Action)
    requires Invariant(s) && Enabled(s, a) && (a.Store? || a.Post? || a.EndRound?)
    ensures Invariant(Step(s, a))
  {
  }

  lemma StepKeepsInvariant(s: State, a: Action)
    requires Invariant(s) && Enabled(s, a)
    ensures Invariant(Step(s, a))
  {
    hide Invariant, Enabled, Step;
    match a
    case Produce(_) => ChipStepKeeps(s, a);
    case Spurious => ChipStepKeeps(s, a);
    case RequestSend => ChipStepKeeps(s, a);
    case IrqRead => IrqStepKeeps(s, a);
    case IrqStore => IrqStepKeeps(s, a);
    case IrqPost => IrqStepKeeps(s, a);
    case IrqQueue => IrqStepKeeps(s, a);
    case Poll => PollStepKeeps(s);
    case Exchange => ReadStepKeeps(s, a);
    case Read => ReadStepKeeps(s, a);
    case Store => RoundStepKeeps(s, a);
    case Post => RoundStepKeeps(s, a);
    case EndRound => RoundStepKeeps(s, a);
    case _ => WakeUpStepKeeps(s, a);
  }

  lemma PollStepKeeps(s: State)
    requires Invariant(s) && Enabled(s, Poll)
    ensures Invariant(Step(s, Poll))
  {
    PollKeeps(s);
    hide Invariant, Polled;
  }

  predicate AtStart(s: State) {
    && s.outgoing == [] && !s.irq && s.handler == AtRest && s.register == 0
    && s.bh == Asleep && s.produced == [] && s.delivered == []
  }

  predicate CanRun(s: State, run: seq<Action>)
    decreases |run|
  {
    run == [] || (Enabled(s, run[0]) && CanRun(Step(s, run[0]), run[1..]))
  }

  function Run(s: State, run: seq<Action>): State
    requires CanRun(s, run)
    decreases |run|
  {
    if run == [] then s else Run(Step(s, run[0]), run[1..])
  }

  lemma {:induction false} RunKeepsInvariant(s: State, run: seq<Action>)
    requires Invariant(s) && CanRun(s, run)
    ensures Invariant(Run(s, run))
    decreases |run|
  {
    hide Invariant, Step, Enabled;
    if run != [] {
      StepKeepsInvariant(s, run[0]);
      RunKeepsInvariant(Step(s, run[0]), run[1..]);
    }
  }

  // ---------------------------------------------------------------- nothing is stranded

  // Whenever the chip has a message to read, somebody is on the way to it: an interrupt, its handler,
  // a full register with a completion that will be consumed, or the bottom half itself.
  lemma NoMessageStranded(start: State, run: seq<Action>)
    requires AtStart(start) && CanRun(start, run)
    ensures var s := Run(start, run);
            s.outgoing != [] ==>
              || s.irq
              || HandlerLength(s.handler) == NextLength(s.outgoing)
              || InHand(s.bh) == NextLength(s.outgoing)
              || (s.register == NextLength(s.outgoing) && WillBeTaken(s))
  {
    RunKeepsInvariant(start, run);
  }

  // The bottom half never asks the chip for a message that is not there, nor with a wrong length.
  lemma ReadsExactlyTheNextMessage(start: State, run: seq<Action>)
    requires AtStart(start) && CanRun(start, run)
    ensures var s := Run(start, run);
            s.bh.Reading? ==> s.outgoing != [] && s.bh.length == s.outgoing[0].length
    ensures Run(start, run).delivered <= Run(start, run).produced
  {
    RunKeepsInvariant(start, run);
  }

  // ---------------------------------------------------------------- everything is delivered

  // The steps of the driver itself.
  predicate Internal(a: Action) {
    !a.Produce? && !a.Spurious? && !a.RequestSend?
  }

  function HandlerRank(h: Handler): nat {
    match h
    case AtRest => 0
    case HasPosted => 8
    case HasStored => 9
    case HasRead(_) => 10
  }

  function BhRank(b: BottomHalf): nat {
    match b
    case Asleep => 0
    case RoundOver(worked) => if worked then 5 else 1
    case Reading(_, _, _) => 1
    case Exchanging(worked, got) => if worked || got > 0 then 6 else 2
    case Polling(worked, got, _) => if worked || got > 0 then 8 else 3
    case Sending(worked) => if worked then 9 else 4
    case WakeTaken => 5
    case Waking => 6
    case Posting => 6
    case Storing(_) => 7
  }

  // What is left to do before the driver comes to rest.
  function Remaining(s: State): nat {
    20 * |s.outgoing| + 20 * s.toSend + 11 * IrqWeight(s) + HandlerRank(s.handler)
    + (if s.queued then 7 else 0) + BhRank(s.bh)
  }

  lemma InternalStepsFinish(s: State, a: Action)
    requires Invariant(s) && Enabled(s, a) && Internal(a)
    ensures Remaining(Step(s, a)) < Remaining(s)
  {
  }

  ghost predicate AtRestNow(s: State) {
    forall a: Action :: Internal(a) ==> !Enabled(s, a)
  }

  lemma AtRestMeansIdle(s: State)
    requires AtRestNow(s)
    ensures s.handler == AtRest && !s.irq
    ensures (s.bh.Reading? && s.outgoing == []) || (s.bh == Asleep && !s.queued)
  {
    hide AtRestNow;
    NoneEnabled(s, IrqRead);
    NoneEnabled(s, IrqStore);
    NoneEnabled(s, IrqPost);
    NoneEnabled(s, IrqQueue);
    NoneEnabled(s, Start);
    NoneEnabled(s, WakeUpTimeout);
    NoneEnabled(s, RestoreWakeUp);
    NoneEnabled(s, SendNothing);
    NoneEnabled(s, Poll);
    NoneEnabled(s, Exchange);
    NoneEnabled(s, Read);
    NoneEnabled(s, Store);
    NoneEnabled(s, Post);
    NoneEnabled(s, EndRound);
  }

  lemma NoneEnabled(s: State, a: Action)
    requires AtRestNow(s) && Internal(a)
    ensures !Enabled(s, a)
  {
    hide Enabled;
  }

  lemma AtRestMeansEmpty(s: State)
    requires Invariant(s) && AtRestNow(s)
    ensures s.outgoing == [] && s.bh == Asleep && !s.queued
  {
    AtRestMeansIdle(s);
    hide AtRestNow;
  }

  // Left to itself the driver takes a bounded number of steps, in whatever order, and comes to rest
  // only when every message the chip produced has been delivered, in order.
  lemma {:induction false} EverythingIsDelivered(s: State, run: seq<Action>)
    requires Invariant(s) && CanRun(s, run) && forall a <- run :: Internal(a)
    ensures |run| <= Remaining(s)
    ensures AtRestNow(Run(s, run)) ==> Run(s, run).delivered == s.produced
    decreases |run|
  {
    hide Invariant, Step, Enabled, Remaining, AtRestNow, Internal;
    if run != [] {
      assert run[0] in run;
      StepKeepsInvariant(s, run[0]);
      InternalStepsFinish(s, run[0]);
      InternalProducesNothing(s, run[0]);
      EverythingIsDelivered(Step(s, run[0]), run[1..]);
    } else if AtRestNow(s) {
      AtRestMeansEmpty(s);
      DeliveredAll(s);
    }
  }

  lemma InternalProducesNothing(s: State, a: Action)
    requires Enabled(s, a) && Internal(a)
    ensures Step(s, a).produced == s.produced
  {
  }

  lemma DeliveredAll(s: State)
    requires Invariant(s) && s.outgoing == []
    ensures s.delivered == s.produced
  {
  }
}
