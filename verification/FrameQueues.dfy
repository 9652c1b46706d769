// Frames waiting in the driver, one queue for each access category of each interface, and the
// choice of the next frame to hand to the chip.
module FrameQueues {
  import opened RetryPolicy

  const ACS: nat := 4
  type PolicyIndex = i: nat | i <= INVALID

  // A frame the network stack has handed over.  Its identity stands for the buffer itself, packet is
  // the number the chip echoes in its confirmation, queue counts the queues of all interfaces in
  // order, and rates are those the frame was submitted with.
  datatype Frame = Frame(id: nat, packet: nat, queue: nat, afterDtim: bool, policy: PolicyIndex, rates: Rates)

  // pending counts the frames of this queue that are in the chip.
  datatype Queue = Queue(normal: seq<Frame>, cab: seq<Frame>, pending: int, priority: nat)

  datatype Choice = Choice(frame: Option<Frame>, queues: seq<Queue>, allowed: seq<bool>)

  function Lane(q: Queue, cab: bool): seq<Frame> {
    if cab then q.cab else q.normal
  }

  // ---------------------------------------------------------------- reference definition

  function Weight(q: Queue): int {
    q.pending * q.priority
  }

  // Queue a is served before queue b: less weight, or the same weight and an earlier place.
  predicate Before(queues: seq<Queue>, a: nat, b: nat)
    requires a < |queues| && b < |queues|
  {
    Weight(queues[a]) < Weight(queues[b]) || (Weight(queues[a]) == Weight(queues[b]) && a < b)
  }

  // The lightest of the first n queues that have a frame in the given lane.
  function Lightest(queues: seq<Queue>, cab: bool, n: nat): (r: Option<nat>)
    requires n <= |queues|
    ensures r.Some? ==> r.value < n && Lane(queues[r.value], cab) != []
    ensures r.Some? ==> forall q :: 0 <= q < n && q != r.value && Lane(queues[q], cab) != [] ==> Before(queues, r.value, q)
    ensures r.None? ==> forall q :: 0 <= q < n ==> Lane(queues[q], cab) == []
  {
    if n == 0 then None
    else
      var r := Lightest(queues, cab, n - 1);
      if Lane(queues[n - 1], cab) != [] && (r.None? || Weight(queues[n - 1]) < Weight(queues[r.value]))
      then Some(n - 1) else r
  }

  function Served(queues: seq<Queue>, q: nat, cab: bool): seq<Queue>
    requires q < |queues| && Lane(queues[q], cab) != []
  {
    var old_ := queues[q];
    queues[q := if cab then old_.(cab := old_.cab[1..], pending := old_.pending + 1)
                else old_.(normal := old_.normal[1..], pending := old_.pending + 1)]
  }

  function NoneAllowed(n: nat): seq<bool> {
    seq(n, _ => false)
  }

  // Buffered multicast goes first when an interface is allowed to send it; a permission that finds
  // no such frame is used up.
  function Choose(queues: seq<Queue>, allowed: seq<bool>): Choice {
    var cab := Lightest(queues, true, |queues|);
    if true in allowed && cab.Some? then
      Choice(Some(queues[cab.value].cab[0]), Served(queues, cab.value, true), allowed)
    else
      var normal := Lightest(queues, false, |queues|);
      if normal.Some? then
        Choice(Some(queues[normal.value].normal[0]), Served(queues, normal.value, false), NoneAllowed(|allowed|))
      else
        Choice(None, queues, NoneAllowed(|allowed|))
  }

  // ---------------------------------------------------------------- what a good choice is

  // No other queue with a frame in the lane has fewer frames in the chip for its priority, and none
  // before this one as few.
  ghost predicate LeastLoaded(queues: seq<Queue>, q: nat, cab: bool) {
    && q < |queues| && Lane(queues[q], cab) != []
    && forall r :: 0 <= r < |queues| && r != q && Lane(queues[r], cab) != [] ==>
         var mine, other := queues[q].pending * queues[q].priority, queues[r].pending * queues[r].priority;
         mine < other || (mine == other && q < r)
  }

  // Some interface may send buffered multicast, and there is some to send.
  ghost predicate MulticastDue(queues: seq<Queue>, allowed: seq<bool>) {
    && (exists v :: 0 <= v < |allowed| && allowed[v])
    && (exists q :: 0 <= q < |queues| && queues[q].cab != [])
  }

  // Queue q gives up the first frame of a lane and counts it as sent.
  ghost predicate GaveFirst(queues: seq<Queue>, q: nat, cab: bool, c: Choice)
    requires q < |queues| && Lane(queues[q], cab) != []
  {
    && c.frame == Some(Lane(queues[q], cab)[0])
    && |c.queues| == |queues|
    && (forall r :: 0 <= r < |queues| && r != q ==> c.queues[r] == queues[r])
    && Lane(c.queues[q], cab) == Lane(queues[q], cab)[1..] && Lane(c.queues[q], !cab) == Lane(queues[q], !cab)
    && c.queues[q].pending == queues[q].pending + 1 && c.queues[q].priority == queues[q].priority
  }

  // Multicast that is due comes from the least loaded queue that has any.  Otherwise all permissions
  // end, and the frame is the first of the least loaded queue that has one.
  ghost predicate Selected(queues: seq<Queue>, allowed: seq<bool>, c: Choice) {
    if MulticastDue(queues, allowed) then
      c.allowed == allowed && exists q: nat :: LeastLoaded(queues, q, true) && GaveFirst(queues, q, true, c)
    else
      && |c.allowed| == |allowed| && (forall v :: 0 <= v < |allowed| ==> !c.allowed[v])
      && if forall q :: 0 <= q < |queues| ==> queues[q].normal == [] then c.frame == None && c.queues == queues
         else exists q: nat :: LeastLoaded(queues, q, false) && GaveFirst(queues, q, false, c)
  }

  lemma LightestIsLeastLoaded(queues: seq<Queue>, cab: bool)
    ensures match Lightest(queues, cab, |queues|)
            case Some(q) => LeastLoaded(queues, q, cab)
            case None => forall q :: 0 <= q < |queues| ==> Lane(queues[q], cab) == []
  {
  }

  lemma ServedGivesFirst(queues: seq<Queue>, q: nat, cab: bool, allowed: seq<bool>)
    requires q < |queues| && Lane(queues[q], cab) != []
    ensures GaveFirst(queues, q, cab, Choice(Some(Lane(queues[q], cab)[0]), Served(queues, q, cab), allowed))
  {
  }

  lemma ChooseSelects(queues: seq<Queue>, allowed: seq<bool>)
    ensures Selected(queues, allowed, Choose(queues, allowed))
  {
    var c := Choose(queues, allowed);
    LightestIsLeastLoaded(queues, true);
    LightestIsLeastLoaded(queues, false);
    var cab, normal := Lightest(queues, true, |queues|), Lightest(queues, false, |queues|);
    hide LeastLoaded, Served, GaveFirst, Before;
    assert (true in allowed && cab.Some?) <==> MulticastDue(queues, allowed) by {
      assert forall q :: 0 <= q < |queues| ==> Lane(queues[q], true) == queues[q].cab;
    }
    if true in allowed && cab.Some? {
      ServedGivesFirst(queues, cab.value, true, allowed);
    } else if normal.Some? {
      assert queues[normal.value].normal == Lane(queues[normal.value], false);
      ServedGivesFirst(queues, normal.value, false, c.allowed);
    } else {
      assert forall q :: 0 <= q < |queues| ==> Lane(queues[q], false) == queues[q].normal;
    }
  }

  // There is one least loaded queue at most, and so one good choice.
  lemma OneSelection(queues: seq<Queue>, allowed: seq<bool>, c: Choice, d: Choice)
    requires Selected(queues, allowed, c) && Selected(queues, allowed, d)
    ensures c == d
  {
    hide MulticastDue, GaveFirst;
    if MulticastDue(queues, allowed) {
      var q: nat :| LeastLoaded(queues, q, true) && GaveFirst(queues, q, true, c);
      var r: nat :| LeastLoaded(queues, r, true) && GaveFirst(queues, r, true, d);
      OneLeastLoaded(queues, q, r, true);
      SameGift(queues, q, true, c, d);
    } else {
      assert c.allowed == d.allowed;
      if !(forall q :: 0 <= q < |queues| ==> queues[q].normal == []) {
        var q: nat :| LeastLoaded(queues, q, false) && GaveFirst(queues, q, false, c);
        var r: nat :| LeastLoaded(queues, r, false) && GaveFirst(queues, r, false, d);
        OneLeastLoaded(queues, q, r, false);
        SameGift(queues, q, false, c, d);
      }
    }
  }

  lemma OneLeastLoaded(queues: seq<Queue>, q: nat, r: nat, cab: bool)
    requires LeastLoaded(queues, q, cab) && LeastLoaded(queues, r, cab)
    ensures q == r
  {
  }

  lemma SameGift(queues: seq<Queue>, q: nat, cab: bool, c: Choice, d: Choice)
    requires q < |queues| && Lane(queues[q], cab) != []
    requires GaveFirst(queues, q, cab, c) && GaveFirst(queues, q, cab, d)
    ensures c.frame == d.frame && c.queues == d.queues
  {
    assert forall r :: 0 <= r < |queues| ==> c.queues[r] == d.queues[r];
  }

  // ---------------------------------------------------------------- sort and select

  ghost predicate Sorted(queues: seq<Queue>, order: seq<nat>) {
    && (forall k :: 0 <= k < |order| ==> order[k] < |queues|)
    && (forall a, b :: 0 <= a < b < |order| ==> Before(queues, order[a], order[b]))
  }

  ghost predicate Below(order: seq<nat>, n: nat) {
    forall k :: 0 <= k < |order| ==> order[k] < n
  }

  ghost predicate Covers(order: seq<nat>, n: nat) {
    forall q: nat :: q < n ==> q in order
  }

  // While the last queue n moves down from the end of a sorted order: all pairs are in order except
  // those whose upper place is j, and those too once it has come to rest above place j.
  ghost predicate MovingDown(queues: seq<Queue>, order: seq<nat>, n: nat, j: nat)
    requires n < |queues|
  {
    && |order| == n + 1 && j <= n
    && (forall k :: 0 <= k <= n ==> order[k] <= n)
    && (forall a, b :: 0 <= a < b <= n && b != j ==> Before(queues, order[a], order[b]))
    && (if order[j] == n then forall a :: 0 <= a < j ==> order[a] != n
        else forall a :: 0 <= a < j ==> Before(queues, order[a], order[j]))
  }

  lemma MoveDown(queues: seq<Queue>, order: seq<nat>, n: nat, j: nat)
    requires n < |queues| && MovingDown(queues, order, n, j) && j > 0
    ensures Weight(queues[order[j]]) < Weight(queues[order[j - 1]]) ==>
              MovingDown(queues, order[j - 1 := order[j]][j := order[j - 1]], n, j - 1)
    ensures !(Weight(queues[order[j]]) < Weight(queues[order[j - 1]])) ==>
              MovingDown(queues, order, n, j - 1)
  {
    hide Weight;
    if !(Weight(queues[order[j]]) < Weight(queues[order[j - 1]])) {
      forall a | 0 <= a < j ensures Before(queues, order[a], order[j]) {
        if order[j] == n {
          assert Before(queues, order[j - 1], order[j]);
          assert a < j - 1 ==> Before(queues, order[a], order[j - 1]);
        }
      }
    }
  }

  method SortQueues(queues: array<Queue>) returns (order: array<nat>)
    ensures fresh(order) && order.Length == queues.Length
    ensures Sorted(queues[..], order[..]) && Covers(order[..], queues.Length)
  {
    order := new nat[queues.Length];
    for n := 0 to queues.Length
      invariant Sorted(queues[..], order[..n]) && Covers(order[..n], n)
      invariant Below(order[..n], n)
    {
      Insert(queues, order, n);
    }
    assert order[..] == order[..queues.Length];
  }

  method Insert(queues: array<Queue>, order: array<nat>, n: nat)
    requires n < queues.Length == order.Length
    requires Sorted(queues[..], order[..n]) && Covers(order[..n], n)
    requires Below(order[..n], n)
    modifies order
    ensures Sorted(queues[..], order[..n + 1]) && Covers(order[..n + 1], n + 1)
    ensures Below(order[..n + 1], n + 1)
  {
    hide Before, Sorted, Covers, Weight, MovingDown;
    ghost var before := order[..n];
    order[n] := n;
    assert order[..n + 1] == before + [n];
    ghost var qs := queues[..];
    StartMoving(qs, before, n);
    var j: nat := n;
    while j > 0
      invariant j <= n
      invariant MovingDown(qs, order[..n + 1], n, j)
      invariant multiset(order[..n + 1]) == multiset(before + [n])
    {
      CompareAndSwap(queues, order, n, j);
      j := j - 1;
    }
    Arrived(qs, order[..n + 1], n);
    SameElements(before + [n], order[..n + 1], n);
  }

  method CompareAndSwap(queues: array<Queue>, order: array<nat>, n: nat, j: nat)
    requires n < queues.Length == order.Length && 0 < j <= n
    requires MovingDown(queues[..], order[..n + 1], n, j)
    modifies order
    ensures MovingDown(queues[..], order[..n + 1], n, j - 1)
    ensures multiset(order[..n + 1]) == multiset(old(order[..n + 1]))
  {
    hide Before, Sorted, Weight, MovingDown;
    ghost var was := order[..n + 1];
    OrderInRange(queues[..], was, n, j);
    assert was[j] == order[j] && was[j - 1] == order[j - 1];
    MoveDown(queues[..], was, n, j);
    if Weight(queues[order[j]]) < Weight(queues[order[j - 1]]) {
      order[j - 1], order[j] := order[j], order[j - 1];
      assert order[..n + 1] == was[j - 1 := was[j]][j := was[j - 1]];
    }
  }

  lemma StartMoving(queues: seq<Queue>, before: seq<nat>, n: nat)
    requires n < |queues| && |before| == n
    requires Sorted(queues, before) && Below(before, n)
    ensures MovingDown(queues, before + [n], n, n)
  {
    hide Weight;
  }

  lemma OrderInRange(queues: seq<Queue>, order: seq<nat>, n: nat, j: nat)
    requires n < |queues| && MovingDown(queues, order, n, j)
    ensures |order| == n + 1 && j <= n && forall k :: 0 <= k <= n ==> order[k] < |queues|
  {
  }

  lemma Arrived(queues: seq<Queue>, order: seq<nat>, n: nat)
    requires n < |queues| && MovingDown(queues, order, n, 0)
    ensures Sorted(queues, order)
    ensures Below(order, n + 1)
  {
    hide Weight;
  }

  lemma SameElements(a: seq<nat>, b: seq<nat>, n: nat)
    requires multiset(a) == multiset(b) && |a| == n + 1 && a[n] == n && Covers(a[..n], n)
    ensures Covers(b, n + 1)
  {
    forall q: nat ensures q < n + 1 ==> q in b {
      if q < n {
        assert q in a[..n];
      }
      assert q < n + 1 ==> q in multiset(a);
    }
  }

  method FirstServed(queues: array<Queue>, order: array<nat>, cab: bool) returns (r: Option<nat>)
    requires order.Length == queues.Length
    requires Sorted(queues[..], order[..]) && Covers(order[..], queues.Length)
    ensures r == Lightest(queues[..], cab, queues.Length)
  {
    for i := 0 to order.Length
      invariant forall k :: 0 <= k < i ==> Lane(queues[order[k]], cab) == []
    {
      if Lane(queues[order[i]], cab) != [] {
        r := Some(order[i]);
        ghost var best := Lightest(queues[..], cab, queues.Length);
        assert best.Some?;
        assert best.value in order[..];
        return;
      }
    }
    forall q | 0 <= q < queues.Length ensures Lane(queues[q], cab) == [] {
      assert q in order[..];
    }
    return None;
  }

  method TakeFirst(queues: array<Queue>, q: nat, cab: bool) returns (f: Frame)
    requires q < queues.Length && Lane(queues[q], cab) != []
    modifies queues
    ensures queues[..] == Served(old(queues[..]), q, cab) && f == Lane(old(queues[q]), cab)[0]
  {
    var queue := queues[q];
    f := Lane(queue, cab)[0];
    queues[q] := if cab then queue.(cab := queue.cab[1..], pending := queue.pending + 1)
                 else queue.(normal := queue.normal[1..], pending := queue.pending + 1);
  }

  // The loop over permissions: the queue with multicast that is due, if any.
  method MulticastQueue(queues: array<Queue>, order: array<nat>, allowed: array<bool>) returns (cab: Option<nat>, tim: set<nat>)
    requires order.Length == queues.Length
    requires Sorted(queues[..], order[..]) && Covers(order[..], queues.Length)
    modifies allowed
    ensures cab == if true in old(allowed[..]) then Lightest(queues[..], true, queues.Length) else None
    ensures allowed[..] == if cab.Some? then old(allowed[..]) else NoneAllowed(allowed.Length)
    ensures forall v: nat :: v in tim <==> v < allowed.Length && old(allowed[v]) && !allowed[v]
  {
    hide Sorted, Covers, Lightest;
    ghost var best := Lightest(queues[..], true, queues.Length);
    tim := {};
    for v := 0 to allowed.Length
      invariant forall k :: 0 <= k < v ==> !allowed[k]
      invariant forall k :: v <= k < allowed.Length ==> allowed[k] == old(allowed[k])
      invariant (exists k :: 0 <= k < v && old(allowed[k])) ==> best.None?
      invariant best.Some? ==> allowed[..] == old(allowed[..])
      invariant forall k: nat :: k in tim <==> k < v && old(allowed[k])
    {
      if !allowed[v] {
        continue;
      }
      cab := FirstServed(queues, order, true);
      if cab.Some? {
        assert old(allowed[..])[v];
        return;
      }
      allowed[v] := false;
      tim := tim + {v};
    }
    assert allowed[..] == NoneAllowed(allowed.Length);
    assert true in old(allowed[..]) ==> exists k :: 0 <= k < allowed.Length && old(allowed[k]);
    cab := None;
  }

  // tim: the interfaces an update of whose traffic map is scheduled, as their permission is used up.
  method GetFrame(queues: array<Queue>, allowed: array<bool>) returns (frame: Option<Frame>, tim: set<nat>)
    modifies queues, allowed
    ensures Choice(frame, queues[..], allowed[..]) == Choose(old(queues[..]), old(allowed[..]))
    ensures Selected(old(queues[..]), old(allowed[..]), Choice(frame, queues[..], allowed[..]))
    ensures forall v: nat :: v in tim <==> v < allowed.Length && old(allowed[v]) && !allowed[v]
  {
    ChooseSelects(queues[..], allowed[..]);
    hide Selected, Sorted, Covers, Served, NoneAllowed;
    var order := SortQueues(queues);
    var cab;
    cab, tim := MulticastQueue(queues, order, allowed);
    if cab.Some? {
      var f := TakeFirst(queues, cab.value, true);
      return Some(f), tim;
    }
    var normal := FirstServed(queues, order, false);
    if normal.Some? {
      var f := TakeFirst(queues, normal.value, false);
      return Some(f), tim;
    }
    frame := None;
  }
}
