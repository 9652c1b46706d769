// The cache of retry policies that one interface shares with the chip.
//
// A policy is twelve bytes of retry counters.  The cache has fifteen slots, each of them on
// exactly one of two lists.  A slot on the "used" list is named by at least one live frame, a
// slot on the "free" list by none; the free list is kept in order of release, newest first.
module RetryPolicy {
  import opened Bytes

  const SLOTS: nat := 15
  // The index a frame carries when no slot could be obtained.
  const INVALID: nat := 15
  const RATE_BYTES: nat := 12

  type Slot = i: nat | i < SLOTS
  type Rates = r: seq<Byte> | |r| == RATE_BYTES witness [0, 0, 0, 0, 0, 0, 0, 0, 0, 0, 0, 0]

  const NO_RATES: Rates := [0, 0, 0, 0, 0, 0, 0, 0, 0, 0, 0, 0]

  datatype Policy = Policy(rates: Rates, usage: int, uploaded: bool)
  type Slots = s: seq<Policy> | |s| == SLOTS witness seq(SLOTS, _ => Policy(NO_RATES, 0, false))
  datatype Table = Table(slots: Slots, used: seq<Slot>, free: seq<Slot>)
  datatype Option<T> = None | Some(value: T)

  // What the cache is asked to do: take a slot for some rates, or give one back.
  datatype Op = Get(wanted: Rates) | Put(idx: nat)
  datatype Taken = Taken(table: Table, idx: nat, renew: bool)

  // ---------------------------------------------------------------- lists

  ghost predicate NoRepeats(q: seq<Slot>) {
    forall a, b :: 0 <= a < b < |q| ==> q[a] != q[b]
  }

  function Without(q: seq<Slot>, i: Slot): (r: seq<Slot>)
    ensures i !in r
    ensures forall j: Slot :: j != i ==> (j in r <==> j in q)
    ensures NoRepeats(q) ==> NoRepeats(r)
    ensures i !in q ==> r == q
  {
    if q == [] then []
    else
      var rest := Without(q[1..], i);
      assert NoRepeats(q) ==> q[0] !in q[1..] && NoRepeats(q[1..]);
      if q[0] == i then rest else [q[0]] + rest
  }

  // ---------------------------------------------------------------- specification

  function FirstMatch(q: seq<Slot>, slots: Slots, wanted: Rates): (r: Option<Slot>)
    ensures r.Some? ==> r.value in q && slots[r.value].rates == wanted
    ensures r.None? ==> forall i <- q :: slots[i].rates != wanted
  {
    if q == [] then None
    else if slots[q[0]].rates == wanted then Some(q[0])
    else FirstMatch(q[1..], slots, wanted)
  }

  function Lookup(t: Table, wanted: Rates): Option<Slot>
  {
    var inUse := FirstMatch(t.used, t.slots, wanted);
    if inUse.Some? then inUse else FirstMatch(t.free, t.slots, wanted)
  }

  function Used(t: Table, i: Slot): Table
  {
    Table(t.slots[i := t.slots[i].(usage := t.slots[i].usage + 1)],
          [i] + Without(t.used, i), Without(t.free, i))
  }

  function Rewritten(t: Table, i: Slot, wanted: Rates): Table
  {
    t.(slots := t.slots[i := Policy(wanted, 0, false)])
  }

  function Obtain(t: Table, wanted: Rates): Taken
  {
    if t.free == [] then Taken(t, INVALID, false)
    else match Lookup(t, wanted)
      case Some(i) => Taken(Used(t, i), i, false)
      case None =>
        var oldest := t.free[|t.free| - 1];
        Taken(Used(Rewritten(t, oldest, wanted), oldest), oldest, true)
  }

  function Released(t: Table, i: Slot): Table
  {
    var slots: Slots := t.slots[i := t.slots[i].(usage := t.slots[i].usage - 1)];
    if slots[i].usage != 0 then t.(slots := slots)
    else Table(slots, Without(t.used, i), [i] + Without(t.free, i))
  }

  function GiveBack(t: Table, idx: nat): Table
    requires idx == INVALID || idx < SLOTS
  {
    if idx == INVALID then t else Released(t, idx)
  }

  predicate Dirty(p: Policy) {
    !p.uploaded && p.rates != NO_RATES
  }

  function FirstDirty(slots: Slots, from: nat): (r: Option<nat>)
    requires from <= SLOTS
    ensures r.Some? ==> from <= r.value < SLOTS && Dirty(slots[r.value])
    ensures r.Some? ==> forall i :: from <= i < r.value ==> !Dirty(slots[i])
    ensures r.None? ==> forall i :: from <= i < SLOTS ==> !Dirty(slots[i])
    decreases SLOTS - from
  {
    if from == SLOTS then None else if Dirty(slots[from]) then Some(from) else FirstDirty(slots, from + 1)
  }

  function Descending(n: nat): (q: seq<Slot>)
    requires n <= SLOTS
    ensures |q| == n
    ensures forall k :: 0 <= k < n ==> q[k] == n - 1 - k
  {
    if n == 0 then [] else [n - 1] + Descending(n - 1)
  }

  function Initial(): Table {
    Table(seq(SLOTS, _ => Policy(NO_RATES, 0, false)), [], Descending(SLOTS))
  }

  // ---------------------------------------------------------------- the cache in memory

  class PolicyCache {
    var slots: Slots
    var used: seq<Slot>
    var free: seq<Slot>

    ghost function Contents(): Table
      reads this
    {
      Table(slots, used, free)
    }

    constructor ()
      ensures Contents() == Initial()
    {
      slots := seq(SLOTS, _ => Policy(NO_RATES, 0, false));
      used := [];
      var list: seq<Slot> := [];
      for i: int := 0 to SLOTS
        invariant list == Descending(i)
      {
        list := [i] + list;
      }
      free := list;
    }

    method Find(wanted: Rates) returns (found: Option<Slot>)
      ensures found == Lookup(Contents(), wanted)
    {
      for k := 0 to |used|
        invariant FirstMatch(used, slots, wanted) == FirstMatch(used[k..], slots, wanted)
      {
        assert used[k..][1..] == used[k + 1..];
        if slots[used[k]].rates == wanted {
          return Some(used[k]);
        }
      }
      for k := 0 to |free|
        invariant FirstMatch(free, slots, wanted) == FirstMatch(free[k..], slots, wanted)
      {
        assert free[k..][1..] == free[k + 1..];
        if slots[free[k]].rates == wanted {
          return Some(free[k]);
        }
      }
      return None;
    }

    method Use(i: Slot)
      modifies this
      ensures Contents() == Used(old(Contents()), i)
    {
      slots := slots[i := slots[i].(usage := slots[i].usage + 1)];
      free := Without(free, i);
      used := [i] + Without(used, i);
    }

    method Release(i: Slot) returns (usage: int)
      modifies this
      ensures Contents() == Released(old(Contents()), i)
      ensures usage == slots[i].usage
    {
      usage := slots[i].usage - 1;
      slots := slots[i := slots[i].(usage := usage)];
      if usage == 0 {
        used := Without(used, i);
        free := [i] + Without(free, i);
      }
    }

    // stop: the network stack is told to stop its queues.
    method Get(wanted: Rates) returns (idx: nat, renew: bool, stop: bool)
      modifies this
      ensures Taken(Contents(), idx, renew) == Obtain(old(Contents()), wanted)
      ensures stop <==> idx != INVALID && free == []
    {
      if free == [] {
        return INVALID, false, false;
      }
      var found := Find(wanted);
      if found.Some? {
        idx, renew := found.value, false;
      } else {
        var oldest := free[|free| - 1];
        slots := slots[oldest := Policy(wanted, 0, false)];
        idx, renew := oldest, true;
      }
      Use(idx);
      stop := free == [];
    }

    // wake: the network stack is told to wake its queues.
    method Put(idx: nat) returns (wake: bool)
      requires idx == INVALID || idx < SLOTS
      modifies this
      ensures Contents() == GiveBack(old(Contents()), idx)
      ensures wake <==> idx != INVALID && old(free) == [] && slots[idx].usage == 0
    {
      if idx == INVALID {
        return false;
      }
      var locked := free == [];
      var usage := Release(idx);
      wake := locked && usage == 0;
    }

    // One pass of the upload loop under the lock: the first slot the chip has not seen is marked
    // as uploaded and its rates are copied out.
    method TakeDirty() returns (i: nat, rates: Rates)
      modifies this
      ensures used == old(used) && free == old(free)
      ensures match FirstDirty(old(slots), 0)
              case None => i == SLOTS && slots == old(slots)
              case Some(d) =>
                && i == d
                && rates == old(slots)[d].rates
                && slots == old(slots)[d := old(slots)[d].(uploaded := true)]
    {
      i, rates := 0, NO_RATES;
      while i < SLOTS && (slots[i].uploaded || slots[i].rates == NO_RATES)
        invariant 0 <= i <= SLOTS
        invariant FirstDirty(slots, 0) == FirstDirty(slots, i)
      {
        i := i + 1;
      }
      if i < SLOTS {
        slots := slots[i := slots[i].(uploaded := true)];
        rates := slots[i].rates;
      }
    }
  }

  // ---------------------------------------------------------------- what every operation keeps

  // Every slot is on exactly one list, once.
  ghost predicate Partitioned(t: Table) {
    && NoRepeats(t.used) && NoRepeats(t.free)
    && forall i: Slot :: i in t.used <==> i !in t.free
  }

  ghost predicate RatesUnique(slots: Slots) {
    forall i, j :: 0 <= i < j < SLOTS && slots[i].rates == slots[j].rates ==> slots[i].rates == NO_RATES
  }

  // holders has one element for each live frame that names a slot.
  ghost predicate Counted(t: Table, holders: multiset<Slot>)
  {
    forall i: Slot :: t.slots[i].usage == holders[i] && (i in t.used <==> holders[i] > 0)
  }

  ghost predicate Consistent(t: Table, holders: multiset<Slot>) {
    Partitioned(t) && RatesUnique(t.slots) && Counted(t, holders)
  }

  function AddHolder(holders: multiset<Slot>, idx: nat): multiset<Slot> {
    if idx < SLOTS then holders + multiset{idx} else holders
  }

  lemma UsedKeeps(t: Table, holders: multiset<Slot>, i: Slot)
    requires Consistent(t, holders)
    ensures Consistent(Used(t, i), holders + multiset{i})
  {
  }

  lemma RewrittenKeeps(t: Table, holders: multiset<Slot>, i: Slot, wanted: Rates)
    requires Consistent(t, holders) && i in t.free && Lookup(t, wanted).None?
    ensures Consistent(Rewritten(t, i, wanted), holders)
  {
    assert forall j: Slot :: j in t.used || j in t.free;
    assert forall j: Slot :: t.slots[j].rates != wanted;
  }

  lemma ObtainKeeps(t: Table, holders: multiset<Slot>, wanted: Rates)
    requires Consistent(t, holders)
    ensures var got := Obtain(t, wanted); Consistent(got.table, AddHolder(holders, got.idx))
  {
    hide Partitioned, RatesUnique, Counted, Used, Rewritten;
    if t.free != [] {
      var found := Lookup(t, wanted);
      if found.Some? {
        UsedKeeps(t, holders, found.value);
      } else {
        var oldest := t.free[|t.free| - 1];
        RewrittenKeeps(t, holders, oldest, wanted);
        UsedKeeps(Rewritten(t, oldest, wanted), holders, oldest);
      }
    }
  }

  // The frame is given the rates it asked for, and only the slot rewritten for it changes.
  lemma ObtainGives(t: Table, wanted: Rates)
    ensures var got := Obtain(t, wanted);
            && (got.idx == INVALID || got.idx < SLOTS)
            && (got.idx == INVALID <==> t.free == [])
            && (got.idx != INVALID ==> got.table.slots[got.idx].rates == wanted)
            && (got.renew ==> got.idx in t.free && !got.table.slots[got.idx].uploaded)
            && (forall j: Slot :: (j == got.idx && got.renew) || SameRates(t.slots[j], got.table.slots[j]))
  {
  }

  predicate SameRates(a: Policy, b: Policy) {
    a.rates == b.rates && a.uploaded == b.uploaded
  }

  lemma GiveBackKeeps(t: Table, holders: multiset<Slot>, idx: nat)
    requires Consistent(t, AddHolder(holders, idx)) && (idx == INVALID || idx < SLOTS)
    ensures var t' := GiveBack(t, idx);
            && Consistent(t', holders)
            && forall j: Slot :: SameRates(t.slots[j], t'.slots[j])
  {
  }

  // ---------------------------------------------------------------- runs of one interface

  // A run of the cache, with what an observer could note down beside it: one entry of holders for
  // each frame that carries a slot, the time each slot was last released (or was put on the free
  // list at start-up), and whether the network stack has been told to stop its queues.
  type Stamps = s: seq<int> | |s| == SLOTS witness seq(SLOTS, i => i)
  datatype Observed = Observed(table: Table, holders: multiset<Slot>, released: Stamps, now: nat, stopped: bool)

  ghost function Start(): Observed {
    Observed(Initial(), multiset{}, seq(SLOTS, i => i - SLOTS), 0, false)
  }

  // A frame gives back only what it was given.
  ghost predicate Legal(o: Observed, op: Op) {
    match op
    case Get(_) => true
    case Put(idx) => idx == INVALID || (idx < SLOTS && idx in o.holders)
  }

  ghost function Advance(o: Observed, op: Op): Observed
    requires Legal(o, op)
  {
    match op
    case Get(wanted) =>
      var got := Obtain(o.table, wanted);
      Observed(got.table, AddHolder(o.holders, got.idx), o.released, o.now + 1,
               o.stopped || (got.idx != INVALID && got.table.free == []))
    case Put(idx) =>
      if idx == INVALID then o.(now := o.now + 1)
      else
        var table := GiveBack(o.table, idx);
        var emptied := table.slots[idx].usage == 0;
        Observed(table, o.holders - multiset{idx},
                 if emptied then o.released[idx := o.now as int] else o.released,
                 o.now + 1,
                 o.stopped && !(emptied && o.table.free == []))
  }

  ghost predicate LegalRun(o: Observed, ops: seq<Op>)
    decreases |ops|
  {
    ops == [] || (Legal(o, ops[0]) && LegalRun(Advance(o, ops[0]), ops[1..]))
  }

  ghost function Run(o: Observed, ops: seq<Op>): Observed
    requires LegalRun(o, ops)
    decreases |ops|
  {
    if ops == [] then o else Run(Advance(o, ops[0]), ops[1..])
  }

  ghost predicate NewestFirst(q: seq<Slot>, released: Stamps) {
    forall a, b :: 0 <= a < b < |q| ==> released[q[a]] > released[q[b]]
  }

  // The free list is in order of release and the queues are stopped exactly when it is empty.
  ghost predicate Sound(o: Observed) {
    && Consistent(o.table, o.holders)
    && (forall i: Slot :: o.released[i] < o.now)
    && NewestFirst(o.table.free, o.released)
    && (o.stopped <==> o.table.free == [])
  }

  lemma StartSound()
    ensures Sound(Start())
  {
    var t := Initial();
    forall i: Slot ensures i in t.free {
      assert t.free[SLOTS - 1 - i] == i;
    }
  }

  lemma {:induction false} WithoutKeepsOrder(q: seq<Slot>, i: Slot, released: Stamps)
    requires NewestFirst(q, released)
    ensures NewestFirst(Without(q, i), released)
  {
    if q != [] {
      var rest := Without(q[1..], i);
      assert NewestFirst(q[1..], released) by {
        forall a, b | 0 <= a < b < |q| - 1 ensures released[q[1..][a]] > released[q[1..][b]] {
          assert released[q[a + 1]] > released[q[b + 1]];
        }
      }
      WithoutKeepsOrder(q[1..], i, released);
      forall b | 0 <= b < |rest| ensures released[q[0]] > released[rest[b]] {
        assert rest[b] in q[1..];
      }
    }
  }

  lemma PrependKeepsOrder(q: seq<Slot>, i: Slot, released: Stamps, now: int)
    requires i !in q && NewestFirst(q, released)
    requires forall j <- q :: released[j] < now
    ensures NewestFirst([i] + q, released[i := now])
  {
    var q', stamps := [i] + q, released[i := now];
    forall a, b | 0 <= a < b < |q'| ensures stamps[q'[a]] > stamps[q'[b]] {
      assert q'[b] == q[b - 1] && q[b - 1] in q;
      if a > 0 {
        assert q'[a] == q[a - 1] && q[a - 1] in q;
      }
    }
  }

  lemma AdvanceKeepsTable(o: Observed, op: Op)
    requires Consistent(o.table, o.holders) && Legal(o, op)
    ensures var o' := Advance(o, op); Consistent(o'.table, o'.holders)
  {
    hide Partitioned, RatesUnique, Counted, Used, Rewritten;
    match op
    case Get(wanted) =>
      ObtainKeeps(o.table, o.holders, wanted);
    case Put(idx) =>
      if idx != INVALID {
        var rest := o.holders - multiset{idx as Slot};
        assert AddHolder(rest, idx) == o.holders;
        GiveBackKeeps(o.table, rest, idx);
      }
  }

  lemma AdvanceKeepsOrder(o: Observed, op: Op)
    requires Sound(o) && Legal(o, op)
    ensures var o' := Advance(o, op); NewestFirst(o'.table.free, o'.released)
  {
    match op
    case Get(wanted) =>
      hide Consistent, FirstMatch;
      var got := Obtain(o.table, wanted);
      if got.idx != INVALID {
        WithoutKeepsOrder(o.table.free, got.idx, o.released);
      }
    case Put(idx) =>
      if idx != INVALID {
        assert idx !in o.table.free by {
          hide RatesUnique, NewestFirst;
        }
        hide Consistent, FirstMatch, NewestFirst;
        PrependKeepsOrder(o.table.free, idx, o.released, o.now);
      }
  }

  lemma AdvanceKeepsFlag(o: Observed, op: Op)
    requires Sound(o) && Legal(o, op)
    ensures var o' := Advance(o, op);
            && (o'.stopped <==> o'.table.free == [])
            && (forall i: Slot :: o'.released[i] < o'.now)
  {
    hide RatesUnique, NewestFirst, NoRepeats;
  }

  lemma AdvanceKeeps(o: Observed, op: Op)
    requires Sound(o) && Legal(o, op)
    ensures Sound(Advance(o, op))
  {
    hide Consistent, NewestFirst, Advance;
    AdvanceKeepsTable(o, op);
    AdvanceKeepsOrder(o, op);
    AdvanceKeepsFlag(o, op);
  }

  // Whatever the cache has been asked to do since start-up: the lists partition the slots, usage
  // counts the frames, no two slots hold the same non-zero rates, and the stop flag is exact.
  lemma {:induction false} RunSound(o: Observed, ops: seq<Op>)
    requires Sound(o) && LegalRun(o, ops)
    ensures Sound(Run(o, ops))
    decreases |ops|
  {
    if ops != [] {
      AdvanceKeeps(o, ops[0]);
      RunSound(Advance(o, ops[0]), ops[1..]);
    }
  }

  lemma EvictsTail(o: Observed, wanted: Rates, i: Slot)
    requires Sound(o)
    requires Obtain(o.table, wanted).table.slots[i].rates != o.table.slots[i].rates
    ensures o.table.free != [] && i == o.table.free[|o.table.free| - 1] && Lookup(o.table, wanted).None?
  {
    hide Sound, FirstMatch;
    ObtainGives(o.table, wanted);
  }

  lemma TailIsOldest(o: Observed, wanted: Rates, i: Slot)
    requires Sound(o) && Lookup(o.table, wanted).None?
    requires o.table.free != [] && i == o.table.free[|o.table.free| - 1]
    ensures o.holders[i] == 0
    ensures forall j: Slot :: j != i && o.holders[j] == 0 ==> o.released[j] > o.released[i]
    ensures forall j: Slot :: o.table.slots[j].rates != wanted
  {
    hide RatesUnique, NoRepeats;
    forall j: Slot | j != i && o.holders[j] == 0 ensures o.released[j] > o.released[i] {
      assert j in o.table.free;
    }
    forall j: Slot ensures o.table.slots[j].rates != wanted {
      assert j in o.table.used || j in o.table.free;
    }
  }

  // A slot is only ever rewritten when no frame names it and every other such slot was released
  // more recently.
  lemma EvictsLeastRecentlyReleased(ops: seq<Op>, wanted: Rates, i: Slot)
    requires LegalRun(Start(), ops)
    requires var o := Run(Start(), ops);
             Obtain(o.table, wanted).table.slots[i].rates != o.table.slots[i].rates
    ensures var o := Run(Start(), ops);
            && o.holders[i] == 0
            && (forall j: Slot :: j != i && o.holders[j] == 0 ==> o.released[j] > o.released[i])
            && (forall j: Slot :: o.table.slots[j].rates != wanted)
  {
    StartSound();
    RunSound(Start(), ops);
    var o := Run(Start(), ops);
    hide *;
    EvictsTail(o, wanted, i);
    TailIsOldest(o, wanted, i);
  }
}
