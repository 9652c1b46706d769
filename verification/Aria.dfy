// The ARIA block cipher: the diffusion layer, and decryption as encryption under another key schedule.
module Aria {
  import opened Bytes
  import opened LinearForms

  // ---------------------------------------------------------------- diffusion layer

  // RFC 5794, section 2.4.3: each byte of the result is the sum of seven bytes.
  const DIFFUSION: Matrix := [
    0x6358, //  3  4  6  8  9 13 14
    0x93A4, //  2  5  7  8  9 12 15
    0x9C52, //  1  4  6 10 11 12 15
    0x6CA1, //  0  5  7 10 11 13 14
    0xC925, //  0  2  5  8 11 14 15
    0xC61A, //  1  3  4  9 10 14 15
    0x3685, //  0  2  7  9 10 12 13
    0x394A, //  1  3  6  8 11 12 13
    0xA493, //  0  1  4  7 10 13 15
    0x5863, //  0  1  5  6 11 12 14
    0xA16C, //  2  3  5  6  8 13 15
    0x529C, //  2  3  4  7  9 12 14
    0x1AC6, //  1  2  6  7  9 11 12
    0x25C9, //  0  3  6  7  8 10 13
    0x4A39, //  0  3  4  5  9 11 14
    0x8536] //  1  2  4  5  8 10 15

  function Diffuse(x: Block): Block {
    Times(DIFFUSION, x)
  }

  // The bytes of which the RFC adds up the bytes y0 to y15.
  function Summands(i: nat): set<nat>
    requires i < 16
  {
    match i
    case 0 => {3, 4, 6, 8, 9, 13, 14}
    case 1 => {2, 5, 7, 8, 9, 12, 15}
    case 2 => {1, 4, 6, 10, 11, 12, 15}
    case 3 => {0, 5, 7, 10, 11, 13, 14}
    case 4 => {0, 2, 5, 8, 11, 14, 15}
    case 5 => {1, 3, 4, 9, 10, 14, 15}
    case 6 => {0, 2, 7, 9, 10, 12, 13}
    case 7 => {1, 3, 6, 8, 11, 12, 13}
    case 8 => {0, 1, 4, 7, 10, 13, 15}
    case 9 => {0, 1, 5, 6, 11, 12, 14}
    case 10 => {2, 3, 5, 6, 8, 13, 15}
    case 11 => {2, 3, 4, 7, 9, 12, 14}
    case 12 => {1, 2, 6, 7, 9, 11, 12}
    case 13 => {0, 3, 6, 7, 8, 10, 13}
    case 14 => {0, 3, 4, 5, 9, 11, 14}
    case 15 => {1, 2, 4, 5, 8, 10, 15}
  }

  // The sum of the bytes below n whose places are in a set.
  function SumOver(x: Block, places: set<nat>, n: nat): Byte
    requires n <= 16
  {
    if n == 0 then 0 else Xor(SumOver(x, places, n - 1), if n - 1 in places then x[n - 1] else 0)
  }

  lemma RowHas(i: nat, k: nat)
    requires i < 16 && k < 16
    ensures Has(DIFFUSION[i], k) <==> k in Summands(i)
  {
  }

  lemma {:induction false} RowSum(i: nat, x: Block, n: nat)
    requires i < 16 && n <= 16
    ensures SumBelow(DIFFUSION[i], x, n) == SumOver(x, Summands(i), n)
  {
    hide Xor, Has, Summands;
    if n > 0 {
      RowSum(i, x, n - 1);
      RowHas(i, n - 1);
    }
  }

  // Each byte of the result is the sum of those that the RFC names.
  lemma DiffuseSays(x: Block, i: nat)
    requires i < 16
    ensures Diffuse(x)[i] == SumOver(x, Summands(i), 16)
  {
    RowSum(i, x, 16);
    hide SumBelow, SumOver;
  }

  lemma DiffusionSquaredLow(i: nat)
    requires i < 8
    ensures ComposedBelow(DIFFUSION[i], DIFFUSION, 16) == Unit(i)
  {
    var m := DIFFUSION[i];
    match i
    case 0 => assert ComposedBelow(m, DIFFUSION, 4) == 0x6CA1 && ComposedBelow(m, DIFFUSION, 8) == 0x9301 && ComposedBelow(m, DIFFUSION, 12) == 0x6FF1;
    case 1 => assert ComposedBelow(m, DIFFUSION, 4) == 0x9C52 && ComposedBelow(m, DIFFUSION, 8) == 0x6302 && ComposedBelow(m, DIFFUSION, 12) == 0x9FF2;
    case 2 => assert ComposedBelow(m, DIFFUSION, 4) == 0x93A4 && ComposedBelow(m, DIFFUSION, 8) == 0x6C04 && ComposedBelow(m, DIFFUSION, 12) == 0x9FF4;
    case 3 => assert ComposedBelow(m, DIFFUSION, 4) == 0x6358 && ComposedBelow(m, DIFFUSION, 8) == 0x9C08 && ComposedBelow(m, DIFFUSION, 12) == 0x6FF8;
    case 4 => assert ComposedBelow(m, DIFFUSION, 4) == 0xFF0A && ComposedBelow(m, DIFFUSION, 8) == 0x3910 && ComposedBelow(m, DIFFUSION, 12) == 0xCF1F;
    case 5 => assert ComposedBelow(m, DIFFUSION, 4) == 0xFF05 && ComposedBelow(m, DIFFUSION, 8) == 0x3620 && ComposedBelow(m, DIFFUSION, 12) == 0xCF2F;
    case 6 => assert ComposedBelow(m, DIFFUSION, 4) == 0xFF0A && ComposedBelow(m, DIFFUSION, 8) == 0xC640 && ComposedBelow(m, DIFFUSION, 12) == 0x3F4F;
    case 7 => assert ComposedBelow(m, DIFFUSION, 4) == 0xFF05 && ComposedBelow(m, DIFFUSION, 8) == 0xC980 && ComposedBelow(m, DIFFUSION, 12) == 0x3F8F;
  }

  lemma DiffusionSquaredHigh(i: nat)
    requires 8 <= i < 16
    ensures ComposedBelow(DIFFUSION[i], DIFFUSION, 16) == Unit(i)
  {
    var m := DIFFUSION[i];
    match i
    case 8 => assert ComposedBelow(m, DIFFUSION, 4) == 0xF0FC && ComposedBelow(m, DIFFUSION, 8) == 0x0093 && ComposedBelow(m, DIFFUSION, 12) == 0xA1FF;
    case 9 => assert ComposedBelow(m, DIFFUSION, 4) == 0xF0FC && ComposedBelow(m, DIFFUSION, 8) == 0x0063 && ComposedBelow(m, DIFFUSION, 12) == 0x52FF;
    case 10 => assert ComposedBelow(m, DIFFUSION, 4) == 0xF0F3 && ComposedBelow(m, DIFFUSION, 8) == 0x006C && ComposedBelow(m, DIFFUSION, 12) == 0xA4FF;
    case 11 => assert ComposedBelow(m, DIFFUSION, 4) == 0xF0F3 && ComposedBelow(m, DIFFUSION, 8) == 0x009C && ComposedBelow(m, DIFFUSION, 12) == 0x58FF;
    case 12 => assert ComposedBelow(m, DIFFUSION, 4) == 0x0FF6 && ComposedBelow(m, DIFFUSION, 8) == 0x0039 && ComposedBelow(m, DIFFUSION, 12) == 0x0AC6;
    case 13 => assert ComposedBelow(m, DIFFUSION, 4) == 0x0FF9 && ComposedBelow(m, DIFFUSION, 8) == 0x0036 && ComposedBelow(m, DIFFUSION, 12) == 0x05C9;
    case 14 => assert ComposedBelow(m, DIFFUSION, 4) == 0x0FF9 && ComposedBelow(m, DIFFUSION, 8) == 0x00C6 && ComposedBelow(m, DIFFUSION, 12) == 0x0A39;
    case 15 => assert ComposedBelow(m, DIFFUSION, 4) == 0x0FF6 && ComposedBelow(m, DIFFUSION, 8) == 0x00C9 && ComposedBelow(m, DIFFUSION, 12) == 0x0536;
  }

  // The diffusion layer undoes itself.
  lemma DiffuseTwice(x: Block)
    ensures Diffuse(Diffuse(x)) == x
  {
    forall i | 0 <= i < 16 ensures ComposedBelow(DIFFUSION[i], DIFFUSION, 16) == Unit(i) {
      if i < 8 {
        DiffusionSquaredLow(i);
      } else {
        DiffusionSquaredHigh(i);
      }
    }
    hide ComposedBelow;
    TimesTwice(DIFFUSION, x);
  }

  lemma DiffuseLinear(x: Block, y: Block)
    ensures Diffuse(XorAll(x, y)) == XorAll(Diffuse(x), Diffuse(y))
  {
    TimesLinear(DIFFUSION, x, y);
  }

  // ---------------------------------------------------------------- words of four bytes

  // A word of 32 bits as its bytes, least significant first.
  type Word = w: seq<Byte> | |w| == 4 witness [0, 0, 0, 0]

  // (A B C D) to (B A D C).
  function P1(w: Word): Word { [w[1], w[0], w[3], w[2]] }

  // (A B C D) to (C D A B), half a rotation.
  function P2(w: Word): Word { [w[2], w[3], w[0], w[1]] }

  // Which sums of bytes of some block a word holds.
  datatype Form = Form(m0: bv16, m1: bv16, m2: bv16, m3: bv16)

  ghost predicate Holds(w: Word, f: Form, x: Block) {
    w[0] == Sum(f.m0, x) && w[1] == Sum(f.m1, x) && w[2] == Sum(f.m2, x) && w[3] == Sum(f.m3, x)
  }

  function F1(f: Form): Form { Form(f.m1, f.m0, f.m3, f.m2) }
  function F2(f: Form): Form { Form(f.m2, f.m3, f.m0, f.m1) }
  function FXor(f: Form, g: Form): Form {
    Form(Plus(f.m0, g.m0), Plus(f.m1, g.m1), Plus(f.m2, g.m2), Plus(f.m3, g.m3))
  }

  lemma HoldsP(w: Word, f: Form, x: Block)
    requires Holds(w, f, x)
    ensures Holds(P1(w), F1(f), x) && Holds(P2(w), F2(f), x)
  {
    hide Sum;
  }

  lemma HoldsXor(v: Word, f: Form, w: Word, g: Form, x: Block)
    requires Holds(v, f, x) && Holds(w, g, x)
    ensures Holds(XorAll(v, w), FXor(f, g), x)
  {
    hide Sum, Xor, Plus;
    SumXor(f.m0, g.m0, x);
    SumXor(f.m1, g.m1, x);
    SumXor(f.m2, g.m2, x);
    SumXor(f.m3, g.m3, x);
  }

  // The source's steps on the four words of a block, with the sums each word has come to hold.
  method AffineTransform(x: Block) returns (r: Block)
    ensures r == Diffuse(x)
  {
    hide Sum, Xor, Holds, P1, P2;
    var a: Word, b: Word, c: Word, d: Word := x[..4], x[4..8], x[8..12], x[12..];
    WordsHold(x);
    var ta := b;
    b := a;
    HoldsP(ta, Form(0x0010, 0x0020, 0x0040, 0x0080), x);
    a := P2(ta);
    HoldsP(d, Form(0x1000, 0x2000, 0x4000, 0x8000), x);
    var tb := P2(d);
    HoldsP(c, Form(0x0100, 0x0200, 0x0400, 0x0800), x);
    d := P1(c);
    HoldsP(tb, Form(0x4000, 0x8000, 0x1000, 0x2000), x);
    c := P1(tb);
    HoldsXor(ta, Form(0x0010, 0x0020, 0x0040, 0x0080), d, Form(0x0200, 0x0100, 0x0800, 0x0400), x);
    ta := XorAll(ta, d);
    HoldsP(b, Form(0x0001, 0x0002, 0x0004, 0x0008), x);
    var tc := P2(b);
    HoldsP(ta, Form(0x0210, 0x0120, 0x0840, 0x0480), x);
    HoldsXor(P1(ta), Form(0x0120, 0x0210, 0x0480, 0x0840), tc, Form(0x0004, 0x0008, 0x0001, 0x0002), x);
    HoldsXor(XorAll(P1(ta), tc), Form(0x0124, 0x0218, 0x0481, 0x0842), c, Form(0x8000, 0x4000, 0x2000, 0x1000), x);
    ta := XorAll(XorAll(P1(ta), tc), c);
    HoldsP(d, Form(0x0200, 0x0100, 0x0800, 0x0400), x);
    HoldsXor(tb, Form(0x4000, 0x8000, 0x1000, 0x2000), P2(d), Form(0x0800, 0x0400, 0x0200, 0x0100), x);
    tb := XorAll(tb, P2(d));
    HoldsP(a, Form(0x0040, 0x0080, 0x0010, 0x0020), x);
    HoldsXor(tc, Form(0x0004, 0x0008, 0x0001, 0x0002), P1(a), Form(0x0080, 0x0040, 0x0020, 0x0010), x);
    tc := XorAll(tc, P1(a));
    HoldsXor(ta, Form(0x8124, 0x4218, 0x2481, 0x1842), tb, Form(0x4800, 0x8400, 0x1200, 0x2100), x);
    HoldsXor(b, Form(0x0001, 0x0002, 0x0004, 0x0008), XorAll(ta, tb), Form(0xC924, 0xC618, 0x3681, 0x3942), x);
    b := XorAll(b, XorAll(ta, tb));
    HoldsP(tb, Form(0x4800, 0x8400, 0x1200, 0x2100), x);
    HoldsXor(P2(tb), Form(0x1200, 0x2100, 0x4800, 0x8400), ta, Form(0x8124, 0x4218, 0x2481, 0x1842), x);
    tb := XorAll(P2(tb), ta);
    HoldsP(tb, Form(0x9324, 0x6318, 0x6C81, 0x9C42), x);
    HoldsXor(a, Form(0x0040, 0x0080, 0x0010, 0x0020), P1(tb), Form(0x6318, 0x9324, 0x9C42, 0x6C81), x);
    a := XorAll(a, P1(tb));
    HoldsP(ta, Form(0x8124, 0x4218, 0x2481, 0x1842), x);
    ta := P2(ta);
    HoldsP(ta, Form(0x2481, 0x1842, 0x8124, 0x4218), x);
    HoldsXor(P1(ta), Form(0x1842, 0x2481, 0x4218, 0x8124), tc, Form(0x0084, 0x0048, 0x0021, 0x0012), x);
    HoldsXor(d, Form(0x0200, 0x0100, 0x0800, 0x0400), XorAll(P1(ta), tc), Form(0x18C6, 0x24C9, 0x4239, 0x8136), x);
    d := XorAll(d, XorAll(P1(ta), tc));
    HoldsP(tc, Form(0x0084, 0x0048, 0x0021, 0x0012), x);
    tc := P2(tc);
    HoldsP(tc, Form(0x0021, 0x0012, 0x0084, 0x0048), x);
    HoldsXor(P1(tc), Form(0x0012, 0x0021, 0x0048, 0x0084), ta, Form(0x2481, 0x1842, 0x8124, 0x4218), x);
    HoldsXor(c, Form(0x8000, 0x4000, 0x2000, 0x1000), XorAll(P1(tc), ta), Form(0x2493, 0x1863, 0x816C, 0x429C), x);
    c := XorAll(c, XorAll(P1(tc), ta));
    r := a + b + c + d;
    WordsAreDiffused(x, a, b, c, d);
  }

  lemma WordsHold(x: Block)
    ensures Holds(x[..4], Form(0x0001, 0x0002, 0x0004, 0x0008), x) && Holds(x[4..8], Form(0x0010, 0x0020, 0x0040, 0x0080), x)
    ensures Holds(x[8..12], Form(0x0100, 0x0200, 0x0400, 0x0800), x) && Holds(x[12..], Form(0x1000, 0x2000, 0x4000, 0x8000), x)
  {
    hide Sum;
    forall k | 0 <= k < 16 ensures Sum(Unit(k), x) == x[k] {
      SumUnit(k, x);
    }
    assert Sum(Unit(0), x) == x[0] && Sum(Unit(1), x) == x[1] && Sum(Unit(2), x) == x[2] && Sum(Unit(3), x) == x[3];
    assert Sum(Unit(4), x) == x[4] && Sum(Unit(5), x) == x[5] && Sum(Unit(6), x) == x[6] && Sum(Unit(7), x) == x[7];
    assert Sum(Unit(8), x) == x[8] && Sum(Unit(9), x) == x[9] && Sum(Unit(10), x) == x[10] && Sum(Unit(11), x) == x[11];
    assert Sum(Unit(12), x) == x[12] && Sum(Unit(13), x) == x[13] && Sum(Unit(14), x) == x[14] && Sum(Unit(15), x) == x[15];
  }

  lemma WordsAreDiffused(x: Block, a: Word, b: Word, c: Word, d: Word)
    requires Holds(a, Form(0x6358, 0x93A4, 0x9C52, 0x6CA1), x) && Holds(b, Form(0xC925, 0xC61A, 0x3685, 0x394A), x)
    requires Holds(c, Form(0xA493, 0x5863, 0xA16C, 0x529C), x) && Holds(d, Form(0x1AC6, 0x25C9, 0x4A39, 0x8536), x)
    ensures a + b + c + d == Diffuse(x)
  {
    hide Sum;
  }

  // ---------------------------------------------------------------- substitution layers

  type Table = t: seq<Byte> | |t| == 256 witness seq<Byte>(256, k => 0)
  datatype Tables = Tables(sb1: Table, sb2: Table, is1: Table, is2: Table)

  ghost predicate Undoes(t: Table, u: Table) {
    forall b: Byte :: t[u[b]] == b
  }

  // The four substitution boxes, of which is1 and is2 are the inverses of sb1 and sb2.
  ghost predicate Inverse(t: Tables) {
    Undoes(t.is1, t.sb1) && Undoes(t.sb1, t.is1) && Undoes(t.is2, t.sb2) && Undoes(t.sb2, t.is2)
  }

  // Each byte of a word through its own box.
  function Substitute(x: Block, s0: Table, s1: Table, s2: Table, s3: Table): Block {
    seq<Byte>(16, k requires 0 <= k < 16 =>
      (if k % 4 == 0 then s0 else if k % 4 == 1 then s1 else if k % 4 == 2 then s2 else s3)[x[k]])
  }

  // RFC 5794, section 2.4.2: one kind of layer in odd rounds, its inverse in even ones, where rounds
  // are counted from one.
  function Layer(t: Tables, round: nat, x: Block): Block {
    if round % 2 == 0 then Substitute(x, t.sb1, t.sb2, t.is1, t.is2) else Substitute(x, t.is1, t.is2, t.sb1, t.sb2)
  }

  lemma LayersInverse(t: Tables, round: nat, x: Block)
    requires Inverse(t)
    ensures Layer(t, round + 1, Layer(t, round, x)) == x
  {
    var y := Layer(t, round, x);
    forall k | 0 <= k < 16 ensures Layer(t, round + 1, y)[k] == x[k] {
      assert k % 4 == 0 || k % 4 == 1 || k % 4 == 2 || k % 4 == 3;
    }
  }

  // The source's layer on one word.
  method SubstituteWord(w: Word, s0: Table, s1: Table, s2: Table, s3: Table) returns (r: Word)
    ensures r == [s0[w[0]], s1[w[1]], s2[w[2]], s3[w[3]]]
  {
    var bytes: seq<Byte> := [s0[w[0]], s1[w[1]], s2[w[2]], s3[w[3]]];
    r := bytes;
  }

  method SubstitutionLayer(x: Block, s0: Table, s1: Table, s2: Table, s3: Table) returns (r: Block)
    ensures r == Substitute(x, s0, s1, s2, s3)
  {
    var a: seq<Byte> := SubstituteWord(x[..4], s0, s1, s2, s3);
    var b: seq<Byte> := SubstituteWord(x[4..8], s0, s1, s2, s3);
    var c: seq<Byte> := SubstituteWord(x[8..12], s0, s1, s2, s3);
    var d: seq<Byte> := SubstituteWord(x[12..], s0, s1, s2, s3);
    r := a + b + c + d;
  }

  // ---------------------------------------------------------------- rounds

  // The state before the key of a round is added.
  function Before(t: Tables, rk: seq<Block>, x: Block, round: nat): Block
    requires round <= |rk|
    decreases round, 0
  {
    if round == 0 then x else Diffuse(Substituted(t, rk, x, round - 1))
  }

  // The state after the substitution layer of a round.
  function Substituted(t: Tables, rk: seq<Block>, x: Block, round: nat): Block
    requires round < |rk|
    decreases round, 1
  {
    Layer(t, round, XorAll(Before(t, rk, x, round), rk[round]))
  }

  // RFC 5794, section 2.3.1: the last round has a second key in place of the diffusion layer.
  function Encrypted(t: Tables, rk: seq<Block>, nr: nat, x: Block): Block
    requires 0 < nr < |rk|
  {
    XorAll(Substituted(t, rk, x, nr - 1), rk[nr])
  }

  // ---------------------------------------------------------------- the rounds of RFC 5794

  // Section 2.4.2, type 1: the boxes and their inverses, byte by byte.
  function SL1(t: Tables, x: Block): Block {
    [t.sb1[x[0]], t.sb2[x[1]], t.is1[x[2]], t.is2[x[3]],
     t.sb1[x[4]], t.sb2[x[5]], t.is1[x[6]], t.is2[x[7]],
     t.sb1[x[8]], t.sb2[x[9]], t.is1[x[10]], t.is2[x[11]],
     t.sb1[x[12]], t.sb2[x[13]], t.is1[x[14]], t.is2[x[15]]]
  }

  // Type 2.
  function SL2(t: Tables, x: Block): Block {
    [t.is1[x[0]], t.is2[x[1]], t.sb1[x[2]], t.sb2[x[3]],
     t.is1[x[4]], t.is2[x[5]], t.sb1[x[6]], t.sb2[x[7]],
     t.is1[x[8]], t.is2[x[9]], t.sb1[x[10]], t.sb2[x[11]],
     t.is1[x[12]], t.is2[x[13]], t.sb1[x[14]], t.sb2[x[15]]]
  }

  // Section 2.4.1: odd rounds have layers of type 1, even ones of type 2.
  function Round(t: Tables, number: nat, d: Block, rk: Block): Block {
    if number % 2 == 1 then Diffuse(SL1(t, XorAll(d, rk))) else Diffuse(SL2(t, XorAll(d, rk)))
  }

  // Section 2.3.1: the state after a number of rounds, counted from one.
  function AfterRounds(t: Tables, ek: seq<Block>, p: Block, number: nat): Block
    requires number <= |ek|
  {
    if number == 0 then p else Round(t, number, AfterRounds(t, ek, p, number - 1), ek[number - 1])
  }

  lemma LayersByByte(t: Tables, x: Block)
    ensures SL1(t, x) == Substitute(x, t.sb1, t.sb2, t.is1, t.is2)
    ensures SL2(t, x) == Substitute(x, t.is1, t.is2, t.sb1, t.sb2)
  {
  }

  lemma {:induction false} StatesAgree(t: Tables, rk: seq<Block>, x: Block, number: nat)
    requires number <= |rk|
    ensures Before(t, rk, x, number) == AfterRounds(t, rk, x, number)
  {
    hide Diffuse, XorAll, SL1, SL2, Substitute;
    if number > 0 {
      StatesAgree(t, rk, x, number - 1);
      LayersByByte(t, XorAll(Before(t, rk, x, number - 1), rk[number - 1]));
    }
  }

  // Encryption is the RFC's: all rounds but the last, whose layer of type 2 stands between two keys.
  lemma EncryptedIsStandard(t: Tables, ek: seq<Block>, nr: nat, p: Block)
    requires 0 < nr < |ek| && nr % 2 == 0
    ensures Encrypted(t, ek, nr, p) == XorAll(SL2(t, XorAll(AfterRounds(t, ek, p, nr - 1), ek[nr - 1])), ek[nr])
  {
    hide Diffuse, XorAll, SL1, SL2, Substitute;
    StatesAgree(t, ek, p, nr - 1);
    LayersByByte(t, XorAll(Before(t, ek, p, nr - 1), ek[nr - 1]));
  }

  // ---------------------------------------------------------------- decryption

  // Section 2.4.4: the keys in reverse order, all but the outer ones diffused.
  ghost predicate DecryptionKeys(dk: seq<Block>, rk: seq<Block>, nr: nat) {
    && 0 < nr < |rk| && |dk| == |rk|
    && dk[0] == rk[nr] && dk[nr] == rk[0]
    && forall i :: 0 < i < nr ==> dk[i] == Diffuse(rk[nr - i])
  }

  lemma XorAllSwap(a: Block, b: Block)
    ensures XorAll(XorAll(a, b), b) == a
  {
    forall k | 0 <= k < 16 ensures XorAll(XorAll(a, b), b)[k] == a[k] {
      XorTwice(a[k], b[k]);
    }
  }

  // Decryption round j meets the state of encryption round nr - 1 - j.
  lemma {:induction false} RoundsMirror(t: Tables, rk: seq<Block>, dk: seq<Block>, nr: nat, x: Block, j: nat)
    requires Inverse(t) && DecryptionKeys(dk, rk, nr) && nr % 2 == 0 && j < nr
    ensures XorAll(Before(t, dk, Encrypted(t, rk, nr, x), j), dk[j]) == Substituted(t, rk, x, nr - 1 - j)
  {
    hide Inverse, Layer, Diffuse, XorAll;
    var y := Encrypted(t, rk, nr, x);
    if j == 0 {
      XorAllSwap(Substituted(t, rk, x, nr - 1), rk[nr]);
    } else {
      var r := nr - j;
      RoundsMirror(t, rk, dk, nr, x, j - 1);
      var before, key := Before(t, rk, x, r), rk[r];
      SameLayer(t, r, j - 1, XorAll(before, key));
      assert Substituted(t, dk, y, j - 1) == XorAll(before, key);
      DiffuseLinear(before, key);
      DiffuseTwice(Substituted(t, rk, x, r - 1));
      XorAllSwap(Substituted(t, rk, x, r - 1), Diffuse(key));
    }
  }

  // The layer of decryption round j undoes that of encryption round r when their numbers differ in
  // parity.
  lemma SameLayer(t: Tables, r: nat, j: nat, x: Block)
    requires Inverse(t) && (r + j) % 2 == 1
    ensures Layer(t, j, Layer(t, r, x)) == x
  {
    LayersInverse(t, r, x);
    assert j % 2 == (r + 1) % 2;
  }

  // Encryption under the decryption keys undoes encryption, for any round keys and an even number of
  // rounds.
  lemma DecryptedEncrypted(t: Tables, rk: seq<Block>, dk: seq<Block>, nr: nat, x: Block)
    requires Inverse(t) && DecryptionKeys(dk, rk, nr) && nr % 2 == 0
    ensures Encrypted(t, dk, nr, Encrypted(t, rk, nr, x)) == x
  {
    hide Inverse, Layer, Diffuse, XorAll;
    RoundsMirror(t, rk, dk, nr, x, nr - 1);
    SameLayer(t, 0, nr - 1, XorAll(x, rk[0]));
    XorAllSwap(x, rk[0]);
  }

  // ---------------------------------------------------------------- the cipher in memory

  const MAX_ROUNDS: nat := 16

  class Context {
    var nr: nat
    const rk: array<Block>

    ghost predicate Valid()
      reads this
    {
      rk.Length == MAX_ROUNDS + 1 && 0 < nr <= MAX_ROUNDS && nr % 2 == 0
    }

    // What the encryption key schedule leaves behind: twelve, fourteen or sixteen rounds, and the keys.
    constructor (nr: nat, keys: seq<Block>)
      requires nr in {12, 14, 16} && |keys| == MAX_ROUNDS + 1
      ensures Valid() && this.nr == nr && rk[..] == keys && fresh(rk)
    {
      this.nr := nr;
      rk := new Block[MAX_ROUNDS + 1](i requires 0 <= i < |keys| => keys[i]);
    }

    // The first n + 1 keys in reverse order.
    method FlipKeys()
      requires Valid()
      modifies rk
      ensures forall k :: 0 <= k <= nr ==> rk[k] == old(rk[nr - k])
    {
      var i, j := 0, nr;
      while i < j
        invariant i + j == nr && i <= j + 1
        invariant forall k :: 0 <= k <= nr ==> rk[k] == if k < i || j < k then old(rk[nr - k]) else old(rk[k])
      {
        rk[i], rk[j] := rk[j], rk[i];
        i, j := i + 1, j - 1;
      }
    }

    method DiffuseMiddleKeys()
      requires Valid()
      modifies rk
      ensures rk[0] == old(rk[0]) && rk[nr] == old(rk[nr])
      ensures forall k :: 0 < k < nr ==> rk[k] == Diffuse(old(rk[k]))
    {
      for m := 1 to nr
        invariant forall k :: 0 <= k <= nr ==> rk[k] == if 0 < k < m then Diffuse(old(rk[k])) else old(rk[k])
      {
        rk[m] := AffineTransform(rk[m]);
      }
    }

    // The encryption keys in memory are made decryption keys.
    method MakeDecryptionKeys()
      requires Valid()
      modifies rk
      ensures DecryptionKeys(rk[..], old(rk[..]), nr)
    {
      hide Diffuse;
      ghost var was := rk[..];
      FlipKeys();
      ghost var flipped := rk[..];
      assert forall k :: 0 <= k <= nr ==> flipped[k] == was[nr - k];
      DiffuseMiddleKeys();
      ghost var now := rk[..];
      assert forall k :: 0 < k < nr ==> now[k] == Diffuse(flipped[k]);
    }

    method AddKey(x: Block, i: nat) returns (r: Block)
      requires i < rk.Length
      ensures r == XorAll(x, rk[i])
    {
      r := x;
      for k := 0 to 16
        invariant forall m :: 0 <= m < 16 ==> r[m] == if m < k then Xor(x[m], rk[i][m]) else x[m]
      {
        r := r[k := Xor(r[k], rk[i][k])];
      }
    }

    // Two rounds at a time, as in the source.
    method CryptBlock(t: Tables, input: Block) returns (output: Block)
      requires Valid()
      ensures output == Encrypted(t, rk[..], nr, input)
    {
      hide Diffuse, XorAll, Substitute;
      ghost var keys := rk[..];
      var x := input;
      var i := 0;
      while true
        invariant 0 <= i < nr && i % 2 == 0 && rk[..] == keys
        invariant x == Before(t, keys, input, i)
        decreases nr - i
      {
        x := AddKey(x, i);
        i := i + 1;
        x := SubstitutionLayer(x, t.sb1, t.sb2, t.is1, t.is2);
        assert x == Substituted(t, keys, input, i - 1);
        x := AffineTransform(x);
        x := AddKey(x, i);
        i := i + 1;
        x := SubstitutionLayer(x, t.is1, t.is2, t.sb1, t.sb2);
        assert x == Substituted(t, keys, input, i - 1);
        if i >= nr {
          break;
        }
        x := AffineTransform(x);
      }
      output := AddKey(x, i);
    }
  }
}
