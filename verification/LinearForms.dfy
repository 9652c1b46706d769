// Sums, by exclusive or, of some of the sixteen bytes of a block.  A form is a word of sixteen bits
// that tells which.
module LinearForms {
  import opened Bytes

  // The form of byte k alone.
  function Unit(k: nat): bv16
    requires k < 16
  {
    match k
    case 0 => 0x0001
    case 1 => 0x0002
    case 2 => 0x0004
    case 3 => 0x0008
    case 4 => 0x0010
    case 5 => 0x0020
    case 6 => 0x0040
    case 7 => 0x0080
    case 8 => 0x0100
    case 9 => 0x0200
    case 10 => 0x0400
    case 11 => 0x0800
    case 12 => 0x1000
    case 13 => 0x2000
    case 14 => 0x4000
    case 15 => 0x8000
  }

  predicate Has(m: bv16, k: nat)
    requires k < 16
  {
    m & Unit(k) != 0
  }

  function Plus(m: bv16, n: bv16): bv16 {
    m ^ n
  }

  // With one bit set in u.
  lemma MaskXor(m: bv16, n: bv16, u: bv16)
    requires u & (u - 1) == 0
    ensures (m ^ n) & u != 0 <==> ((m & u != 0) != (n & u != 0))
  {
  }

  lemma UnitIsOneBit(k: nat)
    requires k < 16
    ensures Unit(k) & (Unit(k) - 1) == 0
  {
  }

  lemma HasXor(m: bv16, n: bv16, k: nat)
    requires k < 16
    ensures Has(m ^ n, k) <==> (Has(m, k) != Has(n, k))
  {
    UnitIsOneBit(k);
    hide Unit;
    MaskXor(m, n, Unit(k));
  }

  lemma HasUnit(i: nat, k: nat)
    requires i < 16 && k < 16
    ensures Has(Unit(i), k) <==> i == k
  {
  }

  lemma HasNone(k: nat)
    requires k < 16
    ensures !Has(0, k)
  {
  }

  function Part(m: bv16, x: Block, k: nat): Byte
    requires k < 16
  {
    if Has(m, k) then x[k] else 0
  }

  // The sum of the bytes below k that the form names.
  function SumBelow(m: bv16, x: Block, k: nat): Byte
    requires k <= 16
  {
    if k == 0 then 0 else Xor(SumBelow(m, x, k - 1), Part(m, x, k - 1))
  }

  function Sum(m: bv16, x: Block): Byte {
    SumBelow(m, x, 16)
  }

  lemma {:induction false} SumBelowXor(m: bv16, n: bv16, x: Block, k: nat)
    requires k <= 16
    ensures SumBelow(m ^ n, x, k) == Xor(SumBelow(m, x, k), SumBelow(n, x, k))
  {
    hide Xor, Has;
    XorNothing(0);
    if k > 0 {
      SumBelowXor(m, n, x, k - 1);
      HasXor(m, n, k - 1);
      XorNothing(x[k - 1]);
      XorCross(SumBelow(m, x, k - 1), SumBelow(n, x, k - 1), Part(m, x, k - 1), Part(n, x, k - 1));
    }
  }

  // Adding forms adds what they stand for.
  lemma SumXor(m: bv16, n: bv16, x: Block)
    ensures Sum(Plus(m, n), x) == Xor(Sum(m, x), Sum(n, x))
  {
    SumBelowXor(m, n, x, 16);
  }

  lemma {:induction false} SumBelowUnit(i: nat, x: Block, k: nat)
    requires i < 16 && k <= 16
    ensures SumBelow(Unit(i), x, k) == if i < k then x[i] else 0
  {
    hide Xor, Has, Unit;
    if k > 0 {
      SumBelowUnit(i, x, k - 1);
      HasUnit(i, k - 1);
      XorNothing(if i < k - 1 then x[i] else 0);
      XorNothing(x[k - 1]);
      XorNothing(0);
    }
  }

  lemma SumUnit(i: nat, x: Block)
    requires i < 16
    ensures Sum(Unit(i), x) == x[i]
  {
    SumBelowUnit(i, x, 16);
  }

  lemma {:induction false} SumBelowNone(x: Block, k: nat)
    requires k <= 16
    ensures SumBelow(0, x, k) == 0
  {
    hide Xor, Has;
    if k > 0 {
      SumBelowNone(x, k - 1);
      HasNone(k - 1);
      XorNothing(0);
    }
  }

  // A form is linear in the block too.
  lemma {:induction false} SumBelowLinear(m: bv16, x: Block, y: Block, k: nat)
    requires k <= 16
    ensures SumBelow(m, XorAll(x, y), k) == Xor(SumBelow(m, x, k), SumBelow(m, y, k))
  {
    hide Xor, Has;
    XorNothing(0);
    if k > 0 {
      SumBelowLinear(m, x, y, k - 1);
      assert Part(m, XorAll(x, y), k - 1) == Xor(Part(m, x, k - 1), Part(m, y, k - 1));
      XorCross(SumBelow(m, x, k - 1), SumBelow(m, y, k - 1), Part(m, x, k - 1), Part(m, y, k - 1));
    }
  }

  lemma SumLinear(m: bv16, x: Block, y: Block)
    ensures Sum(m, XorAll(x, y)) == Xor(Sum(m, x), Sum(m, y))
  {
    SumBelowLinear(m, x, y, 16);
  }

  // A square matrix of forms, and its effect on a block.
  type Matrix = r: seq<bv16> | |r| == 16 witness seq<bv16>(16, k => ONE)
  const ONE: bv16 := 1

  function Times(rows: Matrix, x: Block): Block {
    seq<Byte>(16, i requires 0 <= i < 16 => Sum(rows[i], x))
  }

  lemma TimesLinear(rows: Matrix, x: Block, y: Block)
    ensures Times(rows, XorAll(x, y)) == XorAll(Times(rows, x), Times(rows, y))
  {
    hide Sum;
    forall i | 0 <= i < 16 ensures Times(rows, XorAll(x, y))[i] == XorAll(Times(rows, x), Times(rows, y))[i] {
      SumLinear(rows[i], x, y);
    }
  }

  // The form of a form of forms.
  function ComposedBelow(m: bv16, rows: Matrix, k: nat): bv16
    requires k <= 16
  {
    if k == 0 then 0
    else Plus(ComposedBelow(m, rows, k - 1), if Has(m, k - 1) then rows[k - 1] else 0)
  }

  lemma {:induction false} SumOfTimes(m: bv16, rows: Matrix, x: Block, k: nat)
    requires k <= 16
    ensures SumBelow(m, Times(rows, x), k) == Sum(ComposedBelow(m, rows, k), x)
  {
    hide Xor, Has, SumBelow, Plus;
    if k == 0 {
      SumBelowNone(x, 16);
      assert SumBelow(m, Times(rows, x), 0) == 0 by {
        SumOfNothing(m, Times(rows, x));
      }
    } else {
      SumOfTimes(m, rows, x, k - 1);
      SumStep(m, Times(rows, x), k);
      var last: bv16 := if Has(m, k - 1) then rows[k - 1] else 0;
      SumBelowNone(x, 16);
      SumXor(ComposedBelow(m, rows, k - 1), last, x);
    }
  }

  lemma SumOfNothing(m: bv16, x: Block)
    ensures SumBelow(m, x, 0) == 0
  {
  }

  lemma SumStep(m: bv16, x: Block, k: nat)
    requires 0 < k <= 16
    ensures SumBelow(m, x, k) == Xor(SumBelow(m, x, k - 1), Part(m, x, k - 1))
  {
  }

  // A matrix whose square is the unit matrix undoes itself.
  lemma TimesTwice(rows: Matrix, x: Block)
    requires forall i :: 0 <= i < 16 ==> ComposedBelow(rows[i], rows, 16) == Unit(i)
    ensures Times(rows, Times(rows, x)) == x
  {
    hide SumBelow, ComposedBelow, Unit;
    forall i | 0 <= i < 16 ensures Times(rows, Times(rows, x))[i] == x[i] {
      SumOfTimes(rows[i], rows, x, 16);
      SumUnit(i, x);
    }
  }
}
