// The transmit side of the driver as a machine whose steps are taken in any order by the network
// stack, the policy upload work of each interface, holders of the transmit lock, the bottom half
// and the chip.
module TxEngine {
  import opened RetryPolicy
  import opened FrameQueues

  // Messages sent or received in one round of the bottom half.
  const BATCH: nat := 32

  type ChipPolicies = c: seq<Rates> | |c| == SLOTS witness seq<Rates>(SLOTS, _ => NO_RATES)

  // The upload work of one interface.  Writing: a slot was marked as uploaded and its rates are on
  // their way to the chip.  Leaving: a scan found nothing left, the lock is still to be released.
  datatype Work = Idle | Scanning | Writing(slot: Slot, rates: Rates) | Leaving

  datatype Vif = Vif(table: Table, chip: ChipPolicies, scheduled: bool, work: Work)

  // A command under the command mutex: handed to the bottom half, in the chip, answered.
  datatype Request = Other | SetPolicy(vif: nat, slot: Slot, rates: Rates)
  datatype Command = NoCommand | Ready(what: Request) | Sent(what: Request) | Answered(what: Request)

  datatype BottomHalf = Asleep | Sending(sent: nat) | Receiving(sent: nat, got: nat)

  // The number of a frame in the 802.11 sense.
  type SequenceNumber = n: nat | n < 0x1000

  // One confirmation: the packet it is for, and whether the chip asks to have it queued again.
  datatype Confirmation = Confirmation(packet: nat, requeue: bool)

  // Frames and where they are.  inChip and abandoned hold packet numbers: those the chip has accepted
  // and not confirmed, and those among them the driver has given up on.  submitted and reported are
  // the frames the network stack has handed over, and those handed back to it in order.
  datatype Traffic = Traffic(
    queues: seq<Queue>,
    allowed: seq<bool>,
    pending: seq<Frame>,
    dropped: seq<Frame>,
    packets: nat,
    stopped: bool,
    inChip: multiset<nat>,
    abandoned: multiset<nat>,
    submitted: set<nat>,
    reported: seq<nat>)

  // otherLocks and flushers count the locks taken by other parts of the driver and the flushes that
  // wait for the command mutex.
  datatype Control = Control(
    txLock: int,
    used: int,
    credits: nat,
    command: Command,
    flushing: bool,
    frozen: bool,
    bhQueued: bool,
    bh: BottomHalf,
    otherLocks: nat,
    flushers: nat)

  datatype Device = Device(vifs: seq<Vif>, air: Traffic, ctl: Control)

  datatype Action =
    | Submit(id: nat, vif: nat, ac: nat, afterDtim: bool, sequence: SequenceNumber, rates: Rates)
    | Refuse(id: nat)
    | UploadStart(vif: nat)
    | UploadScan(vif: nat)
    | UploadIssue(vif: nat)
    | UploadSkip(vif: nat)
    | UploadLeave(vif: nat)
    | IssueCommand
    | CommandDone
    | TakeLock
    | DropLock
    | FlushStart
    | FlushEnter
    | FlushLeave
    | FlushTimeout
    | DropLane(queue: nat, cab: bool)
    | DropPending
    | ReportDropped
    | AllowMulticast(vif: nat)
    | BhKick
    | BhWake
    | BhSend
    | BhConfirm(confirmations: seq<Confirmation>)
    | BhReply
    | BhIndication
    | BhRound

  // ---------------------------------------------------------------- steps

  function Lock(c: Control): Control {
    c.(txLock := c.txLock + 1)
  }

  // The bottom half is queued when the last lock goes.
  function Unlock(c: Control): Control {
    c.(txLock := c.txLock - 1, bhQueued := c.bhQueued || c.txLock == 1)
  }

  // Sixteen bits of a counter, the sequence number of the frame and its access category.
  function PacketId(counter: nat, sequence: SequenceNumber, ac: nat): nat {
    counter % 0x1_0000 + sequence * 0x1_0000 + ac * 0x1000_0000
  }

  function Enqueued(queues: seq<Queue>, f: Frame): seq<Queue> {
    if f.queue >= |queues| then queues
    else
      var q := queues[f.queue];
      queues[f.queue := if f.afterDtim then q.(cab := q.cab + [f]) else q.(normal := q.normal + [f])]
  }

  function Accepted(air: Traffic, f: Frame, stop: bool): Traffic {
    air.(queues := Enqueued(air.queues, f), packets := air.packets + 1, stopped := air.stopped || stop,
         submitted := air.submitted + {f.id})
  }

  // A new policy takes the lock for the upload work, and gives it back if the work was already due.
  function Renewed(c: Control, scheduled: bool): Control {
    if scheduled then Unlock(Lock(c)) else Lock(c)
  }

  function NewFrame(s: Device, a: Action): Frame
    requires a.Submit? && a.vif < |s.vifs|
  {
    Frame(a.id, PacketId(s.air.packets + 1, a.sequence, a.ac), ACS * a.vif + a.ac, a.afterDtim,
          Obtain(s.vifs[a.vif].table, a.rates).idx, a.rates)
  }

  function Submitted(s: Device, a: Action): Device
    requires a.Submit? && a.vif < |s.vifs|
  {
    var vif := s.vifs[a.vif];
    var got := Obtain(vif.table, a.rates);
    Device(s.vifs[a.vif := vif.(table := got.table, scheduled := vif.scheduled || got.renew)],
           Accepted(s.air, NewFrame(s, a), got.idx != INVALID && got.table.free == []),
           (if got.renew then Renewed(s.ctl, vif.scheduled) else s.ctl).(bhQueued := true))
  }

  // A frame goes back to the network stack and gives its slot back.
  function Report(s: Device, f: Frame): Device {
    var v := f.queue / ACS;
    if v >= |s.vifs| then s
    else
      var before := s.vifs[v].table;
      var after := GiveBack(before, f.policy);
      var wake := f.policy != INVALID && before.free == [] && after.slots[f.policy].usage == 0;
      s.(vifs := s.vifs[v := s.vifs[v].(table := after)],
         air := s.air.(stopped := s.air.stopped && !wake, reported := s.air.reported + [f.id]))
  }

  function CountedOut(queues: seq<Queue>, q: nat): seq<Queue> {
    if q >= |queues| then queues else queues[q := queues[q].(pending := queues[q].pending - 1)]
  }

  function FirstWithPacket(pending: seq<Frame>, packet: nat): (r: Option<nat>)
    ensures r.Some? ==> r.value < |pending| && pending[r.value].packet == packet
    ensures r.None? ==> forall f <- pending :: f.packet != packet
  {
    if pending == [] then None
    else if pending[0].packet == packet then Some(0)
    else match FirstWithPacket(pending[1..], packet)
      case None => None
      case Some(k) => Some(k + 1)
  }

  // The chip is done with a packet and the frame at place k leaves the pending list.  A frame the
  // chip wants queued again tells that the time for buffered multicast is over.
  function Unpended(air: Traffic, k: nat, c: Confirmation): Traffic
    requires k < |air.pending|
  {
    var f := air.pending[k];
    var v := f.queue / ACS;
    air.(inChip := air.inChip - multiset{c.packet},
         pending := air.pending[..k] + air.pending[k + 1..],
         queues := CountedOut(air.queues, f.queue),
         allowed := if c.requeue && f.afterDtim && v < |air.allowed| then air.allowed[v := false] else air.allowed)
  }

  function Unknown(air: Traffic, c: Confirmation): Traffic {
    air.(inChip := air.inChip - multiset{c.packet}, abandoned := air.abandoned - multiset{c.packet})
  }

  // A confirmation is matched with the first pending frame of its number; one that matches none is
  // ignored.
  function Confirm(s: Device, c: Confirmation): Device {
    var heard := s.(ctl := s.ctl.(used := s.ctl.used - 1));
    match FirstWithPacket(s.air.pending, c.packet)
    case None => heard.(air := Unknown(s.air, c))
    case Some(k) => Report(heard.(air := Unpended(s.air, k, c)), s.air.pending[k])
  }

  function ConfirmAll(s: Device, cs: seq<Confirmation>): Device
    decreases |cs|
  {
    if cs == [] then s else ConfirmAll(Confirm(s, cs[0]), cs[1..])
  }

  function Packets(cs: seq<Confirmation>): multiset<nat> {
    if cs == [] then multiset{} else multiset{cs[0].packet} + Packets(cs[1..])
  }

  function Reversed<T>(q: seq<T>): (r: seq<T>)
    ensures multiset(r) == multiset(q)
  {
    if q == [] then [] else assert [q[0]] + q[1..] == q; Reversed(q[1..]) + [q[0]]
  }

  function LaneDropped(air: Traffic, q: nat, cab: bool): Traffic
    requires q < |air.queues|
  {
    var queue := air.queues[q];
    air.(queues := air.queues[q := if cab then queue.(cab := []) else queue.(normal := [])],
         dropped := Reversed(Lane(queue, cab)) + air.dropped)
  }

  function PendingDropped(air: Traffic): Traffic
    requires air.pending != []
  {
    var f := air.pending[0];
    air.(pending := air.pending[1..], dropped := [f] + air.dropped, queues := CountedOut(air.queues, f.queue),
         abandoned := air.abandoned + multiset{f.packet})
  }

  function DroppedReported(s: Device): Device
    requires s.air.dropped != []
  {
    Report(s.(air := s.air.(dropped := s.air.dropped[1..])), s.air.dropped[0])
  }

  // The chip acts on a command when it receives it.
  function Obeyed(vifs: seq<Vif>, what: Request): seq<Vif> {
    match what
    case Other => vifs
    case SetPolicy(v, i, rates) =>
      if v < |vifs| then vifs[v := vifs[v].(chip := vifs[v].chip[i := rates])] else vifs
  }

  function FrameSent(air: Traffic, c: Choice): Traffic
    requires c.frame.Some?
  {
    air.(queues := c.queues, allowed := c.allowed, pending := air.pending + [c.frame.value],
         inChip := air.inChip + multiset{c.frame.value.packet})
  }

  // One turn of the sending loop: a command first, then a frame unless the transmit lock is held.
  function SendOne(s: Device): Device
    requires s.ctl.bh.Sending?
  {
    var n := s.ctl.bh.sent;
    var done := s.ctl.(bh := Receiving(n, 0));
    var more := s.ctl.(bh := Sending(n + 1), used := s.ctl.used + 1);
    if n >= BATCH || s.ctl.used >= s.ctl.credits then s.(ctl := done)
    else if s.ctl.command.Ready? then
      var what := s.ctl.command.what;
      s.(vifs := Obeyed(s.vifs, what), ctl := more.(command := Sent(what)))
    else if s.ctl.txLock != 0 then s.(ctl := done)
    else
      var c := Choose(s.air.queues, s.air.allowed);
      if c.frame.Some? then s.(air := FrameSent(s.air, c), ctl := more)
      else s.(air := s.air.(allowed := c.allowed), ctl := done)
  }

  function Scanned(vif: Vif): Vif {
    match FirstDirty(vif.table.slots, 0)
    case None => vif.(work := Leaving)
    case Some(i) =>
      var p := vif.table.slots[i];
      vif.(table := vif.table.(slots := vif.table.slots[i := p.(uploaded := true)]), work := Writing(i, p.rates))
  }

  // The upload work of interface v takes a step of its own.
  function Worked(s: Device, v: nat, vif: Vif): Device
    requires v < |s.vifs|
  {
    s.(vifs := s.vifs[v := vif])
  }

  function CommandFinished(s: Device): Device
    requires s.ctl.command.Answered?
  {
    var what := s.ctl.command.what;
    var done := s.(ctl := s.ctl.(command := NoCommand));
    if what.SetPolicy? && what.vif < |s.vifs| then Worked(done, what.vif, s.vifs[what.vif].(work := Scanning)) else done
  }

  function Heard(s: Device): Device
    requires s.ctl.bh.Receiving?
  {
    s.(ctl := s.ctl.(bh := Receiving(s.ctl.bh.sent, s.ctl.bh.got + 1)))
  }

  // The steps that change neither frames nor interfaces.
  predicate OnlyControl(a: Action) {
    a.TakeLock? || a.DropLock? || a.FlushStart? || a.FlushEnter? || a.FlushLeave? || a.FlushTimeout?
    || a.IssueCommand? || a.BhKick? || a.BhWake? || a.BhRound? || a.BhReply? || a.BhIndication?
  }

  function Controlled(c: Control, a: Action): Control
    requires OnlyControl(a)
    requires a.DropLock? ==> c.otherLocks > 0
    requires a.FlushEnter? ==> c.flushers > 0
    requires a.BhReply? || a.BhIndication? || a.BhRound? ==> c.bh.Receiving?
    requires a.BhReply? ==> c.command.Sent?
  {
    match a
    case TakeLock => Lock(c).(otherLocks := c.otherLocks + 1)
    case DropLock => Unlock(c).(otherLocks := c.otherLocks - 1)
    case FlushStart => Lock(c).(flushers := c.flushers + 1)
    case FlushEnter => c.(flushers := c.flushers - 1, flushing := true)
    case FlushLeave => Unlock(c).(flushing := false)
    case FlushTimeout => Unlock(c).(flushing := false, frozen := true)
    case IssueCommand => c.(command := Ready(Other), bhQueued := true)
    case BhKick => c.(bhQueued := true)
    case BhWake => c.(bhQueued := false, bh := Sending(0))
    case BhRound => c.(bh := if c.bh.sent + c.bh.got > 0 then Sending(0) else Asleep)
    case BhReply => c.(command := Answered(c.command.what), used := c.used - 1, bh := Receiving(c.bh.sent, c.bh.got + 1))
    case BhIndication => c.(bh := Receiving(c.bh.sent, c.bh.got + 1))
  }

  predicate MutexFree(c: Control) {
    c.command == NoCommand && !c.flushing
  }

  // The command at hand carries a policy of interface v.
  predicate CommandOf(c: Command, v: nat) {
    !c.NoCommand? && c.what.SetPolicy? && c.what.vif == v
  }

  predicate CanReceive(c: Control) {
    c.bh.Receiving? && c.bh.got < BATCH
  }

  predicate Enabled(s: Device, a: Action) {
    match a
    case Submit(id, v, ac, _, _, _) => id !in s.air.submitted && v < |s.vifs| && ac < ACS
    case Refuse(id) => id !in s.air.submitted
    case UploadStart(v) => v < |s.vifs| && s.vifs[v].scheduled && s.vifs[v].work == Idle
    case UploadScan(v) => v < |s.vifs| && s.vifs[v].work == Scanning
    case UploadIssue(v) => v < |s.vifs| && s.vifs[v].work.Writing? && MutexFree(s.ctl)
    case UploadSkip(v) => v < |s.vifs| && s.vifs[v].work.Writing? && s.ctl.frozen && !CommandOf(s.ctl.command, v)
    case UploadLeave(v) => v < |s.vifs| && s.vifs[v].work == Leaving
    case IssueCommand => MutexFree(s.ctl)
    case CommandDone => s.ctl.command.Answered?
    case TakeLock => true
    case DropLock => s.ctl.otherLocks > 0
    case FlushStart => !s.ctl.frozen
    case FlushEnter => s.ctl.flushers > 0 && MutexFree(s.ctl)
    case FlushLeave => s.ctl.flushing && s.ctl.used == 0
    case FlushTimeout => s.ctl.flushing && s.ctl.used != 0
    case DropLane(q, _) => q < |s.air.queues|
    case DropPending => s.ctl.frozen && s.air.pending != []
    case ReportDropped => s.air.dropped != []
    case AllowMulticast(v) => v < |s.air.allowed|
    case BhKick => true
    case BhWake => s.ctl.bhQueued && s.ctl.bh == Asleep
    case BhSend => s.ctl.bh.Sending?
    case BhConfirm(cs) => CanReceive(s.ctl) && cs != [] && Packets(cs) <= s.air.inChip
    case BhReply => CanReceive(s.ctl) && s.ctl.command.Sent?
    case BhIndication => CanReceive(s.ctl)
    case BhRound => s.ctl.bh.Receiving?
  }

  function Step(s: Device, a: Action): Device
    requires Enabled(s, a)
  {
    if OnlyControl(a) then s.(ctl := Controlled(s.ctl, a))
    else match a
      case Submit(_, _, _, _, _, _) => Submitted(s, a)
      case Refuse(id) => s.(air := s.air.(submitted := s.air.submitted + {id}, reported := s.air.reported + [id]))
      case UploadStart(v) => Worked(s, v, s.vifs[v].(scheduled := false, work := Scanning))
      case UploadScan(v) => Worked(s, v, Scanned(s.vifs[v]))
      case UploadIssue(v) =>
        s.(ctl := s.ctl.(command := Ready(SetPolicy(v, s.vifs[v].work.slot, s.vifs[v].work.rates)), bhQueued := true))
      case UploadSkip(v) => Worked(s, v, s.vifs[v].(work := Scanning))
      case UploadLeave(v) => Worked(s, v, s.vifs[v].(work := Idle)).(ctl := Unlock(s.ctl))
      case CommandDone => CommandFinished(s)
      case DropLane(q, cab) => s.(air := LaneDropped(s.air, q, cab))
      case DropPending => s.(air := PendingDropped(s.air))
      case ReportDropped => DroppedReported(s)
      case AllowMulticast(v) => s.(air := s.air.(allowed := s.air.allowed[v := true]), ctl := s.ctl.(bhQueued := true))
      case BhSend => SendOne(s)
      case BhConfirm(cs) => ConfirmAll(Heard(s), cs)
  }

  predicate UploadStep(a: Action) {
    a.UploadStart? || a.UploadScan? || a.UploadSkip? || a.UploadLeave?
  }

  // Where a step of the upload work leaves its interface.
  function Uploading(vif: Vif, a: Action): Vif
    requires UploadStep(a)
  {
    if a.UploadStart? then vif.(scheduled := false, work := Scanning)
    else if a.UploadScan? then Scanned(vif)
    else if a.UploadSkip? then vif.(work := Scanning)
    else vif.(work := Idle)
  }

  lemma UploadStepShape(s: Device, a: Action)
    requires UploadStep(a) && Enabled(s, a)
    ensures a.vif < |s.vifs|
    ensures Step(s, a) == Worked(s, a.vif, Uploading(s.vifs[a.vif], a)).(ctl := if a.UploadLeave? then Unlock(s.ctl) else s.ctl)
    ensures a.UploadSkip? ==> s.ctl.frozen && !CommandOf(s.ctl.command, a.vif)
    ensures match a
            case UploadStart(v) => s.vifs[v].scheduled && s.vifs[v].work == Idle
            case UploadScan(v) => s.vifs[v].work == Scanning
            case UploadSkip(v) => s.vifs[v].work.Writing?
            case _ => s.vifs[a.vif].work == Leaving
  {
    hide Scanned;
  }

  function Priority(ac: nat): nat {
    match ac
    case 0 => 1
    case 1 => 2
    case 2 => 64
    case _ => 128
  }

  // A device of some interfaces at start-up; what the chip holds as policies is unknown.
  predicate AtStart(s: Device) {
    && (forall v :: 0 <= v < |s.vifs| ==> s.vifs[v].table == Initial() && !s.vifs[v].scheduled && s.vifs[v].work == Idle)
    && |s.air.queues| == ACS * |s.vifs|
    && (forall q :: 0 <= q < |s.air.queues| ==> s.air.queues[q] == Queue([], [], 0, Priority(q % ACS)))
    && s.air == Traffic(s.air.queues, NoneAllowed(|s.vifs|), [], [], s.air.packets, false, multiset{}, multiset{}, {}, [])
    && s.ctl == Control(0, 0, s.ctl.credits, NoCommand, false, false, false, Asleep, 0, 0)
  }

  predicate CanRun(s: Device, run: seq<Action>)
    decreases |run|
  {
    run == [] || (Enabled(s, run[0]) && CanRun(Step(s, run[0]), run[1..]))
  }

  function Run(s: Device, run: seq<Action>): Device
    requires CanRun(s, run)
    decreases |run|
  {
    if run == [] then s else Run(Step(s, run[0]), run[1..])
  }
}
