// The Camellia block cipher: decryption as encryption under the subkeys in reverse order.
module Camellia {

  // Half of a block, or a subkey: two words of 32 bits.
  datatype Pair = Pair(l: bv32, r: bv32)
  datatype State = State(d1: Pair, d2: Pair)

  // Any four substitution boxes.
  type Box = map<bv8, bv8>
  datatype Boxes = Boxes(s1: Box, s2: Box, s3: Box, s4: Box)

  function Look(s: Box, x: bv8): bv8 {
    if x in s then s[x] else x
  }

  function Add(a: bv32, b: bv32): bv32 {
    a ^ b
  }

  lemma AddTwice(a: bv32, b: bv32)
    ensures Add(Add(a, b), b) == a && Add(b, Add(b, a)) == a
  {
  }

  function Plus(x: Pair, y: Pair): Pair {
    Pair(Add(x.l, y.l), Add(x.r, y.r))
  }

  lemma PlusTwice(x: Pair, y: Pair)
    ensures Plus(Plus(x, y), y) == x
  {
    hide Add;
    AddTwice(x.l, y.l);
    AddTwice(x.r, y.r);
  }

  // ---------------------------------------------------------------- one Feistel round

  function ByteOf(w: bv32, shift: bv8): bv8
    requires shift < 32
  {
    ((w >> shift) & 0xFF) as bv8
  }

  // Four bytes as a word, the first one highest.
  function Join(a: bv8, b: bv8, c: bv8, d: bv8): bv32 {
    ((a as bv32) << 24) | ((b as bv32) << 16) | ((c as bv32) << 8) | (d as bv32)
  }

  // RFC 3713, section 2.4.1: the key is added, the eight bytes go through the boxes, and each byte of
  // the result is the sum of five or six of them.
  function RoundFunction(t: Boxes, x: Pair, k: Pair): Pair {
    var a := Plus(x, k);
    var t1, t2, t3, t4 := Look(t.s1, ByteOf(a.l, 24)), Look(t.s2, ByteOf(a.l, 16)), Look(t.s3, ByteOf(a.l, 8)), Look(t.s4, ByteOf(a.l, 0));
    var t5, t6, t7, t8 := Look(t.s2, ByteOf(a.r, 24)), Look(t.s3, ByteOf(a.r, 16)), Look(t.s4, ByteOf(a.r, 8)), Look(t.s1, ByteOf(a.r, 0));
    ByteSums(t1, t2, t3, t4, t5, t6, t7, t8)
  }

  // The RFC's y1 to y8.
  function ByteSums(t1: bv8, t2: bv8, t3: bv8, t4: bv8, t5: bv8, t6: bv8, t7: bv8, t8: bv8): Pair {
    Pair(Join(Six(t1, t3, t4, t6, t7, t8), Six(t1, t2, t4, t5, t7, t8), Six(t1, t2, t3, t5, t6, t8), Six(t2, t3, t4, t5, t6, t7)),
         Join(Five(t1, t2, t6, t7, t8), Five(t2, t3, t5, t7, t8), Five(t3, t4, t5, t6, t8), Five(t1, t4, t5, t6, t7)))
  }

  function Six(a: bv8, b: bv8, c: bv8, d: bv8, e: bv8, f: bv8): bv8 {
    a ^ b ^ c ^ d ^ e ^ f
  }

  function Five(a: bv8, b: bv8, c: bv8, d: bv8, e: bv8): bv8 {
    a ^ b ^ c ^ d ^ e
  }

  function Two(a: bv8, b: bv8): bv8 {
    a ^ b
  }

  // Words turned by bytes.
  function Turn8(w: bv32): bv32 {
    (w << 8) | (w >> 24)
  }

  function Turn16(w: bv32): bv32 {
    (w << 16) | (w >> 16)
  }

  function Turn24(w: bv32): bv32 {
    (w >> 8) | (w << 24)
  }

  lemma TurnJoin8(a: bv8, b: bv8, c: bv8, d: bv8)
    ensures Turn8(Join(a, b, c, d)) == Join(b, c, d, a)
  {
  }

  lemma TurnJoin16(a: bv8, b: bv8, c: bv8, d: bv8)
    ensures Turn16(Join(a, b, c, d)) == Join(c, d, a, b)
  {
  }

  lemma TurnJoin24(a: bv8, b: bv8, c: bv8, d: bv8)
    ensures Turn24(Join(a, b, c, d)) == Join(d, a, b, c)
  {
  }

  lemma AddJoin(a: bv8, b: bv8, c: bv8, d: bv8, e: bv8, f: bv8, g: bv8, h: bv8)
    ensures Add(Join(a, b, c, d), Join(e, f, g, h)) == Join(Two(a, e), Two(b, f), Two(c, g), Two(d, h))
  {
  }

  // The source's four steps on words.
  function WordSteps(i0: bv32, i1: bv32): Pair {
    var a0 := Add(i0, Turn8(i1));
    var a1 := Add(i1, Turn16(a0));
    var b0 := Add(a0, Turn24(a1));
    var b1 := Add(a1, Turn24(b0));
    Pair(b1, b0)
  }

  // The eight bytes, one at a time.
  lemma Right1(t1: bv8, t2: bv8, t3: bv8, t4: bv8, t5: bv8, t6: bv8, t7: bv8, t8: bv8)
    ensures Two(Two(t1, t6), Two(t8, Two(t2, t7))) == Five(t1, t2, t6, t7, t8)
  {
  }

  lemma Right2(t1: bv8, t2: bv8, t3: bv8, t4: bv8, t5: bv8, t6: bv8, t7: bv8, t8: bv8)
    ensures Two(Two(t2, t7), Two(t5, Two(t3, t8))) == Five(t2, t3, t5, t7, t8)
  {
  }

  lemma Right3(t1: bv8, t2: bv8, t3: bv8, t4: bv8, t5: bv8, t6: bv8, t7: bv8, t8: bv8)
    ensures Two(Two(t3, t8), Two(t6, Two(t4, t5))) == Five(t3, t4, t5, t6, t8)
  {
  }

  lemma Right4(t1: bv8, t2: bv8, t3: bv8, t4: bv8, t5: bv8, t6: bv8, t7: bv8, t8: bv8)
    ensures Two(Two(t4, t5), Two(t7, Two(t1, t6))) == Five(t1, t4, t5, t6, t7)
  {
  }

  lemma Left1(t1: bv8, t2: bv8, t3: bv8, t4: bv8, t5: bv8, t6: bv8, t7: bv8, t8: bv8)
    ensures Two(Two(t5, Two(t3, t8)), Five(t1, t4, t5, t6, t7)) == Six(t1, t3, t4, t6, t7, t8)
  {
  }

  lemma Left2(t1: bv8, t2: bv8, t3: bv8, t4: bv8, t5: bv8, t6: bv8, t7: bv8, t8: bv8)
    ensures Two(Two(t6, Two(t4, t5)), Five(t1, t2, t6, t7, t8)) == Six(t1, t2, t4, t5, t7, t8)
  {
  }

  lemma Left3(t1: bv8, t2: bv8, t3: bv8, t4: bv8, t5: bv8, t6: bv8, t7: bv8, t8: bv8)
    ensures Two(Two(t7, Two(t1, t6)), Five(t2, t3, t5, t7, t8)) == Six(t1, t2, t3, t5, t6, t8)
  {
  }

  lemma Left4(t1: bv8, t2: bv8, t3: bv8, t4: bv8, t5: bv8, t6: bv8, t7: bv8, t8: bv8)
    ensures Two(Two(t8, Two(t2, t7)), Five(t3, t4, t5, t6, t8)) == Six(t2, t3, t4, t5, t6, t7)
  {
  }

  lemma WordStepsAreSums(t1: bv8, t2: bv8, t3: bv8, t4: bv8, t5: bv8, t6: bv8, t7: bv8, t8: bv8)
    ensures WordSteps(Join(t1, t2, t3, t4), Join(t5, t6, t7, t8)) == ByteSums(t1, t2, t3, t4, t5, t6, t7, t8)
  {
    hide Join, Add, Turn8, Turn16, Turn24, Two, Five, Six;
    TurnJoin8(t5, t6, t7, t8);
    AddJoin(t1, t2, t3, t4, t6, t7, t8, t5);
    var p1, p2, p3, p4 := Two(t1, t6), Two(t2, t7), Two(t3, t8), Two(t4, t5);
    TurnJoin16(p1, p2, p3, p4);
    AddJoin(t5, t6, t7, t8, p3, p4, p1, p2);
    var q1, q2, q3, q4 := Two(t5, p3), Two(t6, p4), Two(t7, p1), Two(t8, p2);
    TurnJoin24(q1, q2, q3, q4);
    AddJoin(p1, p2, p3, p4, q4, q1, q2, q3);
    var r1, r2, r3, r4 := Two(p1, q4), Two(p2, q1), Two(p3, q2), Two(p4, q3);
    TurnJoin24(r1, r2, r3, r4);
    AddJoin(q1, q2, q3, q4, r4, r1, r2, r3);
    Right1(t1, t2, t3, t4, t5, t6, t7, t8);
    Right2(t1, t2, t3, t4, t5, t6, t7, t8);
    Right3(t1, t2, t3, t4, t5, t6, t7, t8);
    Right4(t1, t2, t3, t4, t5, t6, t7, t8);
    Left1(t1, t2, t3, t4, t5, t6, t7, t8);
    Left2(t1, t2, t3, t4, t5, t6, t7, t8);
    Left3(t1, t2, t3, t4, t5, t6, t7, t8);
    Left4(t1, t2, t3, t4, t5, t6, t7, t8);
  }

  // One round: what F makes of one half is added to the other.
  method Feistel(t: Boxes, x: Pair, k: Pair, z: Pair) returns (z': Pair)
    ensures z' == Plus(z, RoundFunction(t, x, k))
  {
    hide Look, ByteOf, Join, ByteSums, Add, Turn8, Turn16, Turn24;
    var i0, i1 := Add(x.l, k.l), Add(x.r, k.r);
    var t1, t2, t3, t4 := Look(t.s1, ByteOf(i0, 24)), Look(t.s2, ByteOf(i0, 16)), Look(t.s3, ByteOf(i0, 8)), Look(t.s4, ByteOf(i0, 0));
    var t5, t6, t7, t8 := Look(t.s2, ByteOf(i1, 24)), Look(t.s3, ByteOf(i1, 16)), Look(t.s4, ByteOf(i1, 8)), Look(t.s1, ByteOf(i1, 0));
    WordStepsAreSums(t1, t2, t3, t4, t5, t6, t7, t8);
    i0, i1 := Join(t1, t2, t3, t4), Join(t5, t6, t7, t8);
    i0 := Add(i0, Turn8(i1));
    i1 := Add(i1, Turn16(i0));
    i0 := Add(i0, Turn24(i1));
    i1 := Add(i1, Turn24(i0));
    z' := Pair(Add(z.l, i1), Add(z.r, i0));
  }

  function Mixed(m: bv32): bv32 {
    (m << 1) | (m >> 31)
  }

  // What one word of half a block adds to the other under a word of key.
  function FromLeft(l: bv32, k: bv32): bv32 {
    Mixed(l & k)
  }

  function FromRight(r: bv32, k: bv32): bv32 {
    r | k
  }

  // Section 2.4.2.
  function FL(x: Pair, k: Pair): Pair {
    var r := Add(FromLeft(x.l, k.l), x.r);
    Pair(Add(FromRight(r, k.r), x.l), r)
  }

  // Section 2.4.3.
  function FLInv(y: Pair, k: Pair): Pair {
    var l := Add(FromRight(y.r, k.r), y.l);
    Pair(l, Add(FromLeft(l, k.l), y.r))
  }

  // What the layers do, with what was there taken off again: FL changes the right word by what the left
  // one has in common with the key, turned by a bit, and then the left one by all bits of the right one
  // and the key; its inverse does so in the other order.
  lemma LayersSay(x: Pair, k: Pair)
    ensures var y := FL(x, k); Add(y.r, x.r) == Mixed(x.l & k.l) && Add(y.l, x.l) == y.r | k.r
    ensures var y := FLInv(x, k); Add(y.l, x.l) == x.r | k.r && Add(y.r, x.r) == Mixed(y.l & k.l)
  {
    hide Add, Mixed;
    AddTwice(FromLeft(x.l, k.l), x.r);
    AddTwice(x.r, FromLeft(x.l, k.l));
    AddTwice(FromRight(FL(x, k).r, k.r), x.l);
    AddTwice(FromRight(x.r, k.r), x.l);
    AddTwice(FromLeft(FLInv(x, k).l, k.l), x.r);
  }

  // A word turned by one bit: the highest becomes the lowest, the others move up.
  lemma MixedBits(m: bv32)
    ensures Mixed(m) & 1 == m >> 31 && Mixed(m) >> 1 == m & 0x7FFF_FFFF
  {
  }

  lemma FLInverse(x: Pair, k: Pair)
    ensures FLInv(FL(x, k), k) == x && FL(FLInv(x, k), k) == x
  {
    hide FromLeft, FromRight, Add;
    var r := Add(FromLeft(x.l, k.l), x.r);
    AddTwice(x.l, FromRight(r, k.r));
    AddTwice(x.r, FromLeft(x.l, k.l));
    var l := Add(FromRight(x.r, k.r), x.l);
    AddTwice(x.r, FromLeft(l, k.l));
    AddTwice(x.l, FromRight(x.r, k.r));
  }

  // ---------------------------------------------------------------- the data path

  // Position p of the eight steps that repeat: six rounds on alternate halves, then one layer on each
  // half.
  function Step(t: Boxes, p: nat, s: State, k: Pair): State
    requires p < 8
  {
    if p == 6 then s.(d1 := FL(s.d1, k))
    else if p == 7 then s.(d2 := FLInv(s.d2, k))
    else if p % 2 == 0 then s.(d2 := Plus(s.d2, RoundFunction(t, s.d1, k)))
    else s.(d1 := Plus(s.d1, RoundFunction(t, s.d2, k)))
  }

  // Steps before the n-th, the first subkey of which is the third.
  function Steps(t: Boxes, keys: seq<Pair>, n: nat, s: State): State
    requires n + 2 <= |keys|
  {
    if n == 0 then s else Step(t, (n - 1) % 8, Steps(t, keys, n - 1, s), keys[n + 1])
  }

  // The number of steps between the outer keys, for three or four groups of six rounds.
  function StepCount(nr: nat): nat
    requires nr > 0
  {
    8 * nr - 2
  }

  // Section 2.3.
  function Encrypted(t: Boxes, keys: seq<Pair>, nr: nat, x: State): State
    requires nr > 0 && |keys| == StepCount(nr) + 4
  {
    var n := StepCount(nr);
    var s := Steps(t, keys, n, State(Plus(x.d1, keys[0]), Plus(x.d2, keys[1])));
    State(Plus(s.d2, keys[n + 2]), Plus(s.d1, keys[n + 3]))
  }

  // ---------------------------------------------------------------- the data path of RFC 3713

  // Six rounds under six subkeys, section 2.3.1 and 2.3.2.
  function Group(t: Boxes, s: State, k: seq<Pair>): State
    requires |k| == 6
  {
    var d2 := Plus(s.d2, RoundFunction(t, s.d1, k[0]));
    var d1 := Plus(s.d1, RoundFunction(t, d2, k[1]));
    var d2' := Plus(d2, RoundFunction(t, d1, k[2]));
    var d1' := Plus(d1, RoundFunction(t, d2', k[3]));
    var d2'' := Plus(d2', RoundFunction(t, d1', k[4]));
    State(Plus(d1', RoundFunction(t, d2'', k[5])), d2'')
  }

  // Groups of rounds, one layer on each half between them.
  function Grouped(t: Boxes, keys: seq<Pair>, g: nat, s: State): State
    requires g > 0 && 8 * g <= |keys|
  {
    if g == 1 then Group(t, s, keys[2..8])
    else
      var before := Grouped(t, keys, g - 1, s);
      var between := State(FL(before.d1, keys[8 * g - 8]), FLInv(before.d2, keys[8 * g - 7]));
      Group(t, between, keys[8 * g - 6..8 * g])
  }

  lemma SixSteps(t: Boxes, keys: seq<Pair>, n: nat, start: State)
    requires n % 8 == 0 && n + 8 <= |keys|
    ensures Steps(t, keys, n + 6, start) == Group(t, Steps(t, keys, n, start), keys[n + 2..n + 8])
  {
    hide RoundFunction, Plus;
    var s := Steps(t, keys, n, start);
    var k := keys[n + 2..n + 8];
    PositionAfter(n, 1);
    PositionAfter(n, 2);
    PositionAfter(n, 3);
    PositionAfter(n, 4);
    PositionAfter(n, 5);
    assert Steps(t, keys, n + 1, start) == Step(t, 0, s, k[0]);
    assert Steps(t, keys, n + 2, start) == Step(t, 1, Steps(t, keys, n + 1, start), k[1]);
    assert Steps(t, keys, n + 3, start) == Step(t, 2, Steps(t, keys, n + 2, start), k[2]);
    assert Steps(t, keys, n + 4, start) == Step(t, 3, Steps(t, keys, n + 3, start), k[3]);
    assert Steps(t, keys, n + 5, start) == Step(t, 4, Steps(t, keys, n + 4, start), k[4]);
    assert Steps(t, keys, n + 6, start) == Step(t, 5, Steps(t, keys, n + 5, start), k[5]);
  }

  lemma PositionAfter(n: nat, i: nat)
    requires n % 8 == 0 && i < 8
    ensures (n + i) % 8 == i
  {
  }

  lemma {:induction false} StepsAreGroups(t: Boxes, keys: seq<Pair>, g: nat, start: State)
    requires g > 0 && 8 * g <= |keys|
    ensures Steps(t, keys, 8 * g - 2, start) == Grouped(t, keys, g, start)
  {
    hide Step, Group;
    if g == 1 {
      SixSteps(t, keys, 0, start);
      NoSteps(t, keys, start);
    } else {
      StepsAreGroups(t, keys, g - 1, start);
      TwoSteps(t, keys, 8 * (g - 1), start);
      SixSteps(t, keys, 8 * (g - 1), start);
    }
  }

  lemma TwoSteps(t: Boxes, keys: seq<Pair>, n: nat, start: State)
    requires n % 8 == 0 && n >= 8 && n + 2 <= |keys|
    ensures var s := Steps(t, keys, n - 2, start);
            Steps(t, keys, n, start) == State(FL(s.d1, keys[n]), FLInv(s.d2, keys[n + 1]))
  {
    hide FL, FLInv;
    PositionAfter(n - 8, 6);
    PositionAfter(n - 8, 7);
    var s := Steps(t, keys, n - 2, start);
    assert Steps(t, keys, n - 1, start) == Step(t, 6, s, keys[n]);
    assert Steps(t, keys, n, start) == Step(t, 7, Steps(t, keys, n - 1, start), keys[n + 1]);
  }

  // Encryption is the RFC's: outer keys on both halves, three or four groups of six rounds with FL and
  // its inverse between them, outer keys again, and the halves exchanged.
  lemma EncryptedIsStandard(t: Boxes, keys: seq<Pair>, nr: nat, x: State)
    requires nr > 0 && |keys| == 8 * nr + 2
    ensures var s := Grouped(t, keys, nr, State(Plus(x.d1, keys[0]), Plus(x.d2, keys[1])));
            Encrypted(t, keys, nr, x) == State(Plus(s.d2, keys[8 * nr]), Plus(s.d1, keys[8 * nr + 1]))
  {
    hide Plus, Steps, Grouped;
    StepsAreGroups(t, keys, nr, State(Plus(x.d1, keys[0]), Plus(x.d2, keys[1])));
  }

  // ---------------------------------------------------------------- decryption

  function Swap(s: State): State {
    State(s.d2, s.d1)
  }

  // Section 2.3.3: the outer pairs of subkeys change places, the inner subkeys are reversed.
  ghost predicate Reversed(dk: seq<Pair>, keys: seq<Pair>, nr: nat) {
    && nr > 0 && |dk| == |keys| == StepCount(nr) + 4
    && dk[0] == keys[StepCount(nr) + 2] && dk[1] == keys[StepCount(nr) + 3]
    && dk[StepCount(nr) + 2] == keys[0] && dk[StepCount(nr) + 3] == keys[1]
    && forall i :: 2 <= i < StepCount(nr) + 2 ==> dk[i] == keys[StepCount(nr) + 3 - i]
  }

  // A step is undone by the step at the mirrored position, with the halves exchanged.
  lemma StepMirrored(t: Boxes, p: nat, q: nat, s: State, k: Pair)
    requires p < 8 && q == (13 - p) % 8
    ensures Step(t, q, Swap(Step(t, p, s, k)), k) == Swap(s)
  {
    hide RoundFunction, FL, FLInv, Plus;
    FLInverse(s.d1, k);
    FLInverse(s.d2, k);
    PlusTwice(s.d1, RoundFunction(t, s.d2, k));
    PlusTwice(s.d2, RoundFunction(t, s.d1, k));
  }

  lemma MirroredPosition(n: nat, m: nat, nr: nat)
    requires nr > 0 && n + m == StepCount(nr) && m > 0
    ensures n % 8 == (13 - (m - 1) % 8) % 8
  {
    var q, c := (m - 1) / 8, (m - 1) % 8;
    assert m - 1 == 8 * q + c;
    var z := nr - q - 2;
    assert n == 8 * z + (13 - c);
    SameRemainder(z, 13 - c);
  }

  lemma SameRemainder(z: int, b: nat)
    requires b < 16 && 8 * z + b >= 0
    ensures (8 * z + b) % 8 == b % 8
  {
  }

  // After j steps of decryption the state is that of encryption with j steps to go.
  lemma {:induction false} StepsMirrored(t: Boxes, keys: seq<Pair>, dk: seq<Pair>, nr: nat, s: State, j: nat)
    requires Reversed(dk, keys, nr) && j <= StepCount(nr)
    ensures Steps(t, dk, j, Swap(Steps(t, keys, StepCount(nr), s))) == Swap(Steps(t, keys, StepCount(nr) - j, s))
  {
    hide Step;
    if j > 0 {
      var m := StepCount(nr) - (j - 1);
      StepsMirrored(t, keys, dk, nr, s, j - 1);
      MirroredPosition(j - 1, m, nr);
      StepMirrored(t, (m - 1) % 8, (j - 1) % 8, Steps(t, keys, m - 1, s), keys[m + 1]);
      assert dk[j + 1] == keys[StepCount(nr) + 3 - (j + 1)];
    }
  }

  // For any boxes and any subkeys.
  lemma DecryptedEncrypted(t: Boxes, keys: seq<Pair>, dk: seq<Pair>, nr: nat, x: State)
    requires Reversed(dk, keys, nr)
    ensures Encrypted(t, dk, nr, Encrypted(t, keys, nr, x)) == x
  {
    hide Plus;
    var n := StepCount(nr);
    var start := State(Plus(x.d1, keys[0]), Plus(x.d2, keys[1]));
    var s := Steps(t, keys, n, start);
    PlusTwice(s.d2, keys[n + 2]);
    PlusTwice(s.d1, keys[n + 3]);
    StepsMirrored(t, keys, dk, nr, start, n);
    PlusTwice(x.d1, keys[0]);
    PlusTwice(x.d2, keys[1]);
  }

  // ---------------------------------------------------------------- key arrays

  const WORDS: nat := 68

  // Subkey number j among words in memory, two words a subkey.
  function KeyAt(words: seq<bv32>, j: nat): Pair
    requires 2 * j + 1 < |words|
  {
    Pair(words[2 * j], words[2 * j + 1])
  }

  function Subkeys(words: seq<bv32>, n: nat): (r: seq<Pair>)
    requires 2 * n <= |words|
    ensures |r| == n
  {
    seq(n, j requires 0 <= j < n => KeyAt(words, j))
  }

  function Placed(words: seq<bv32>, j: nat, k: Pair): (r: seq<bv32>)
    requires 2 * j + 1 < |words|
    ensures |r| == |words|
  {
    words[2 * j := k.l][2 * j + 1 := k.r]
  }

  lemma PlacedAt(words: seq<bv32>, j: nat, k: Pair, m: nat)
    requires 2 * j + 1 < |words| && 2 * m + 1 < |words|
    ensures KeyAt(Placed(words, j, k), m) == if m == j then k else KeyAt(words, m)
  {
  }

  // The subkeys below done are in place; inner ones come from the mirrored place.
  ghost predicate ReversedBelow(words: seq<bv32>, from: seq<bv32>, n: nat, done: nat) {
    && |words| == |from| && 2 * (n + 4) <= |words| && 2 <= done <= n + 2
    && KeyAt(words, 0) == KeyAt(from, n + 2) && KeyAt(words, 1) == KeyAt(from, n + 3)
    && forall k :: 2 <= k < done ==> KeyAt(words, k) == KeyAt(from, n + 3 - k)
  }

  lemma ReversedNext(words: seq<bv32>, from: seq<bv32>, n: nat, done: nat)
    requires ReversedBelow(words, from, n, done) && done < n + 2
    ensures ReversedBelow(Placed(words, done, KeyAt(from, n + 3 - done)), from, n, done + 1)
  {
    var next := Placed(words, done, KeyAt(from, n + 3 - done));
    PlacedAt(words, done, KeyAt(from, n + 3 - done), 0);
    PlacedAt(words, done, KeyAt(from, n + 3 - done), 1);
    forall k | 2 <= k < done + 1 ensures KeyAt(next, k) == KeyAt(from, n + 3 - k) {
      PlacedAt(words, done, KeyAt(from, n + 3 - done), k);
    }
  }

  lemma ReversedEnd(words: seq<bv32>, from: seq<bv32>, nr: nat)
    requires nr > 0 && ReversedBelow(words, from, StepCount(nr), StepCount(nr) + 2)
    ensures var n := StepCount(nr);
            var last := Placed(Placed(words, n + 2, KeyAt(from, 0)), n + 3, KeyAt(from, 1));
            Reversed(Subkeys(last, n + 4), Subkeys(from, n + 4), nr)
  {
    hide Placed;
    var n := StepCount(nr);
    var mid := Placed(words, n + 2, KeyAt(from, 0));
    var last := Placed(mid, n + 3, KeyAt(from, 1));
    forall k | 0 <= k < n + 4
      ensures KeyAt(last, k) == if k == n + 3 then KeyAt(from, 1) else if k == n + 2 then KeyAt(from, 0) else KeyAt(words, k)
    {
      PlacedAt(words, n + 2, KeyAt(from, 0), k);
      PlacedAt(mid, n + 3, KeyAt(from, 1), k);
    }
    hide KeyAt;
  }

  lemma ReversedStart(words: seq<bv32>, from: seq<bv32>, n: nat)
    requires |words| == |from| && 2 * (n + 4) <= |words|
    ensures ReversedBelow(Placed(Placed(words, 0, KeyAt(from, n + 2)), 1, KeyAt(from, n + 3)), from, n, 2)
  {
  }

  class Context {
    var nr: nat
    const rk: array<bv32>

    ghost predicate Valid()
      reads this
    {
      rk.Length == WORDS && (nr == 3 || nr == 4)
    }

    ghost function Keys(): (r: seq<Pair>)
      requires Valid()
      reads this, rk
      ensures |r| == StepCount(nr) + 4
    {
      Subkeys(rk[..], StepCount(nr) + 4)
    }

    // A context whose words are still to be set.
    constructor ()
      ensures rk.Length == WORDS && fresh(rk)
    {
      nr := 0;
      rk := new bv32[WORDS];
    }

    // One subkey is copied; to and from are places of words.
    method CopyKey(source: array<bv32>, to: nat, from: nat, ghost j: nat, ghost k: nat)
      requires rk != source && to == 2 * j && from == 2 * k && to + 1 < rk.Length && from + 1 < source.Length
      modifies rk
      ensures rk[..] == Placed(old(rk[..]), j, KeyAt(source[..], k))
    {
      rk[to] := source[from];
      rk[to + 1] := source[from + 1];
    }

    // The subkeys of an encryption context are copied, walking backwards through its words.
    method MakeDecryptionKeys(cty: Context)
      requires cty.Valid() && rk.Length == WORDS && rk != cty.rk && this != cty
      modifies this, rk
      ensures Valid() && nr == cty.nr
      ensures Reversed(Keys(), cty.Keys(), nr)
    {
      hide Placed, KeyAt, Subkeys, Reversed, ReversedBelow;
      nr := cty.nr;
      var n := StepCount(nr);
      ghost var source := cty.rk[..];
      ReversedStart(rk[..], source, n);
      // Places in the two arrays of words.
      var to, from := 0, 2 * (n + 2);
      CopyKey(cty.rk, to, from, 0, n + 2);
      CopyKey(cty.rk, to + 2, from + 2, 1, n + 3);
      to, from := to + 4, from + 4 - 6;
      var i := n;
      while i > 0
        invariant 0 <= i <= n && to == 2 * (n - i + 2) && from == 2 * (i + 1)
        invariant nr == cty.nr && cty.rk[..] == source
        invariant ReversedBelow(rk[..], source, n, n - i + 2)
      {
        ReversedNext(rk[..], source, n, n - i + 2);
        CopyKey(cty.rk, to, from, n - i + 2, i + 1);
        to, from := to + 2, from + 2 - 4;
        i := i - 1;
      }
      ReversedEnd(rk[..], source, nr);
      from := from - 2;
      CopyKey(cty.rk, to, from, n + 2, 0);
      CopyKey(cty.rk, to + 2, from + 2, n + 3, 1);
    }

    function NextKey(j: nat): Pair
      requires 2 * j + 1 < rk.Length
      reads rk
    {
      KeyAt(rk[..], j)
    }

    lemma NextKeyIsKey(j: nat)
      requires Valid() && j < StepCount(nr) + 4
      ensures NextKey(j) == Keys()[j]
    {
    }

    // Six rounds, a pair at a time, from the place on.
    method SixRounds(t: Boxes, x: State, place: nat, ghost start: State) returns (r: State)
      requires Valid() && 2 <= place && place + 4 <= StepCount(nr) && (place - 2) % 8 == 0
      requires x == Steps(t, Keys(), place - 2, start)
      ensures r == Steps(t, Keys(), place + 4, start)
    {
      hide RoundFunction, Plus, KeyAt, Subkeys, Steps, Step;
      r := x;
      for j := 0 to 3
        invariant r == Steps(t, Keys(), place - 2 + 2 * j, start)
      {
        NextKeyIsKey(place + 2 * j);
        NextKeyIsKey(place + 2 * j + 1);
        OddEven(place - 2, j);
        TwoRounds(t, Keys(), place - 2 + 2 * j, start);
        var z := Feistel(t, r.d1, NextKey(place + 2 * j), r.d2);
        r := r.(d2 := z);
        z := Feistel(t, r.d2, NextKey(place + 2 * j + 1), r.d1);
        r := r.(d1 := z);
      }
    }

    lemma OddEven(p: nat, j: nat)
      requires p % 8 == 0 && j < 3
      ensures (p + 2 * j) % 8 == 2 * j
    {
    }

    lemma SixAfter(place: nat)
      requires 8 <= place && (place - 8) % 8 == 0
      ensures (place - 2) % 8 == 6
    {
    }

    method TwoLayers(t: Boxes, x: State, place: nat, ghost start: State) returns (r: State)
      requires Valid() && 8 <= place && place <= StepCount(nr) && (place - 8) % 8 == 0
      requires x == Steps(t, Keys(), place - 2, start)
      ensures r == Steps(t, Keys(), place, start)
    {
      hide FL, FLInv, KeyAt, Subkeys, Steps, Step;
      SixAfter(place);
      NextKeyIsKey(place);
      NextKeyIsKey(place + 1);
      BothLayers(t, Keys(), place - 2, start);
      r := x.(d1 := FL(x.d1, NextKey(place)));
      r := r.(d2 := FLInv(r.d2, NextKey(place + 1)));
    }

    // One block.  The subkeys are taken in order by a place that moves along.
    method CryptBlock(t: Boxes, input: State) returns (output: State)
      requires Valid()
      ensures output == Encrypted(t, Keys(), nr, input)
    {
      hide Plus, KeyAt, Steps, Subkeys;
      NextKeyIsKey(0);
      NextKeyIsKey(1);
      var x := State(Plus(input.d1, NextKey(0)), Plus(input.d2, NextKey(1)));
      ghost var start := x;
      var place, left := 2, nr;
      NoSteps(t, Keys(), start);
      while left > 0
        invariant 0 <= left <= nr
        invariant place == 2 + (if left == 0 then StepCount(nr) else 8 * (nr - left))
        invariant x == Steps(t, Keys(), place - 2, start)
      {
        left := left - 1;
        x := SixRounds(t, x, place, start);
        place := place + 6;
        if left > 0 {
          x := TwoLayers(t, x, place, start);
          place := place + 2;
        }
      }
      NextKeyIsKey(place);
      NextKeyIsKey(place + 1);
      output := State(Plus(x.d2, NextKey(place)), Plus(x.d1, NextKey(place + 1)));
    }
  }

  lemma TwoRounds(t: Boxes, keys: seq<Pair>, n: nat, start: State)
    requires n + 4 <= |keys| && n % 8 in {0, 2, 4}
    ensures var x := Steps(t, keys, n, start);
            var y := x.(d2 := Plus(x.d2, RoundFunction(t, x.d1, keys[n + 2])));
            Steps(t, keys, n + 2, start) == y.(d1 := Plus(y.d1, RoundFunction(t, y.d2, keys[n + 3])))
  {
    hide RoundFunction, Plus;
    assert (n + 1) % 8 == n % 8 + 1;
  }

  lemma BothLayers(t: Boxes, keys: seq<Pair>, n: nat, start: State)
    requires n + 4 <= |keys| && n % 8 == 6
    ensures var x := Steps(t, keys, n, start);
            var y := x.(d1 := FL(x.d1, keys[n + 2]));
            Steps(t, keys, n + 2, start) == y.(d2 := FLInv(y.d2, keys[n + 3]))
  {
    hide FL, FLInv;
    assert (n + 1) % 8 == 7;
  }

  lemma NoSteps(t: Boxes, keys: seq<Pair>, s: State)
    requires |keys| >= 2
    ensures Steps(t, keys, 0, s) == s
  {
  }
}
