// Sliding-window exponentiation (HAC 14.85) on numbers in Montgomery form.
module ModularPower {
  import opened Numbers
  import opened Limbs
  import opened Words
  import opened Bits
  import opened Bignum
  import opened Montgomery
  import Division

  // Build-time bound on the window, between 1 and 6.
  type WindowSize = w: nat | 1 <= w <= 6 witness 6
  const WINDOW_SIZE: WindowSize

  // ---------------------------------------------------------------- Montgomery form

  // v is a^k in Montgomery form: reduced, and congruent to a^k * R.
  ghost predicate PowerForm(v: nat, a: nat, k: nat, r: nat, n: nat) {
    n > 0 && v < n && Congruent(v, Pow(a, k) * r, n)
  }

  // The modulus is odd and R is a power of two, so R can be cancelled.
  ghost predicate OddModulus(n: Mpi)
    reads n
  {
    |n.p| > 0 && n.Abs() % 2 == 1
  }

  ghost function Radix(n: Mpi): nat
    reads n
  {
    Pow(BASE, |n.p|)
  }

  lemma RadixIsPower(len: nat)
    ensures Pow(BASE, len) == Pow(2, BI_L * len)
  {
    PowBase(len);
  }

  // A Montgomery product of powers is the power of the sum.
  lemma ProductForm(x: nat, v: nat, w: nat, a: nat, j: nat, k: nat, len: nat, n: nat)
    requires n % 2 == 1 && MontProduct(x, v, w, Pow(BASE, len), n)
    requires PowerForm(v, a, j, Pow(BASE, len), n) && PowerForm(w, a, k, Pow(BASE, len), n)
    ensures PowerForm(x, a, j + k, Pow(BASE, len), n)
  {
    hide Pow, Congruent;
    var r := Pow(BASE, len);
    var p, q := Pow(a, j), Pow(a, k);
    CongruentMul(v, p * r, w, q * r, n);
    CongruentTransitive(x * r, v * w, (p * r) * (q * r), n);
    PowAdd(a, j, k);
    assert (p * r) * (q * r) == ((p * q) * r) * r;
    RadixIsPower(len);
    CancelPowerOfTwo(x, (p * q) * r, BI_L * len, n);
  }

  // Entering Montgomery form: multiplying by R^2 mod N.
  lemma EnterForm(x: nat, v: nat, rr: nat, a: nat, len: nat, n: nat)
    requires n % 2 == 1 && MontProduct(x, v, rr, Pow(BASE, len), n)
    requires Congruent(v, a, n) && Congruent(rr, Pow(BASE, len) * Pow(BASE, len), n)
    ensures PowerForm(x, a, 1, Pow(BASE, len), n)
  {
    FirstPower(a);
    hide Pow, Congruent;
    var r := Pow(BASE, len);
    CongruentMul(v, a, rr, r * r, n);
    CongruentTransitive(x * r, v * rr, a * (r * r), n);
    assert a * (r * r) == (a * r) * r;
    RadixIsPower(len);
    CancelPowerOfTwo(x, a * r, BI_L * len, n);
  }

  lemma FirstPower(a: nat)
    ensures Pow(a, 1) == a && Pow(a, 0) == 1
  {
  }

  // Reducing R^2 once gives the form of a^0.
  lemma UnitForm(x: nat, rr: nat, a: nat, len: nat, n: nat)
    requires n % 2 == 1 && MontProduct(x, rr, 1, Pow(BASE, len), n)
    requires Congruent(rr, Pow(BASE, len) * Pow(BASE, len), n)
    ensures PowerForm(x, a, 0, Pow(BASE, len), n)
  {
    FirstPower(a);
    hide Pow, Congruent;
    var r := Pow(BASE, len);
    CongruentTransitive(x * r, rr * 1, r * r, n);
    RadixIsPower(len);
    CancelPowerOfTwo(x, r, BI_L * len, n);
  }

  // Leaving Montgomery form.
  lemma LeaveForm(x: nat, v: nat, a: nat, k: nat, len: nat, n: nat)
    requires n % 2 == 1 && MontProduct(x, v, 1, Pow(BASE, len), n)
    requires PowerForm(v, a, k, Pow(BASE, len), n)
    ensures x == Pow(a, k) % n
  {
    hide Pow, Congruent;
    var r := Pow(BASE, len);
    CongruentTransitive(x * r, v * 1, Pow(a, k) * r, n);
    RadixIsPower(len);
    CancelPowerOfTwo(x, Pow(a, k), BI_L * len, n);
    CongruentResidue(x, Pow(a, k), n);
  }

  // ---------------------------------------------------------------- the working set

  // What every multiplication of the loop needs of the accumulator, the modulus and the scratch number.
  ghost predicate Working(x: Mpi, n: Mpi, mm: Limb, t: Mpi)
    reads x, n, t
  {
    && x != n && x != t && n != t
    && OddModulus(n)
    && |x.p| >= |n.p| + 1 && |t.p| >= 2 * |n.p| + 2
    && (mm * n.p[0] + 1) % BASE == 0
  }

  // x := x * b in Montgomery form, also for b == x.
  method MulPower(x: Mpi, b: Mpi, n: Mpi, mm: Limb, t: Mpi, ghost a: nat, ghost j: nat, ghost k: nat) returns (ret: Status)
    requires Working(x, n, mm, t) && b != t && |b.p| > 0
    requires PowerForm(x.Abs(), a, j, Radix(n), n.Abs()) && PowerForm(b.Abs(), a, k, Radix(n), n.Abs())
    modifies x`p, t`p
    ensures Working(x, n, mm, t) && ret.Ok?
    ensures PowerForm(x.Abs(), a, j + k, Radix(n), n.Abs())
  {
    hide Val, Pow, Congruent;
    ghost var v, w := x.Abs(), b.Abs();
    ValBound(n.p);
    ret := MontMul(x, b, n, mm, t);
    ProductForm(x.Abs(), v, w, a, j, k, |n.p|, n.Abs());
  }

  // The form of the powers kept in the table: W[2^(wsize-1)], ..., W[2^wsize - 1].
  ghost predicate Table(ws: seq<Mpi>, first: nat, a: nat, n: Mpi)
    reads ws, n
  {
    forall i :: 0 <= i < |ws| ==> |ws[i].p| > 0 && PowerForm(ws[i].Abs(), a, first + i, Radix(n), n.Abs())
  }

  lemma TwicePower(k: nat)
    ensures Pow(2, k + 1) == Pow(2, k) + Pow(2, k)
  {
  }

  // Square the accumulator a number of times.
  method SquareTimes(x: Mpi, n: Mpi, mm: Limb, t: Mpi, count: nat, ghost a: nat, ghost q: nat) returns (ret: Status)
    requires Working(x, n, mm, t) && PowerForm(x.Abs(), a, q, Radix(n), n.Abs())
    modifies x`p, t`p
    ensures Working(x, n, mm, t) && ret.Ok?
    ensures PowerForm(x.Abs(), a, q * Pow(2, count), Radix(n), n.Abs())
  {
    hide Val, Pow, Congruent, PowerForm;
    var i: nat := 0;
    FirstPower(2);
    while i < count
      invariant i <= count && Working(x, n, mm, t)
      invariant PowerForm(x.Abs(), a, q * Pow(2, i), Radix(n), n.Abs())
    {
      TwicePower(i);
      Distribute(q, Pow(2, i), Pow(2, i));
      ret := MulPower(x, x, n, mm, t, a, q * Pow(2, i), q * Pow(2, i));
      i := i + 1;
    }
    ret := Ok;
  }

  // A table entry: a fresh copy of `from`, one limb longer than the modulus at least.
  method NewEntry(from: Mpi, n: Mpi) returns (ret: Status, w: Mpi)
    requires |from.p| > 0
    ensures fresh(w)
    ensures ret.Fail? ==> ret.code == AllocFailed
    ensures ret.Ok? ==> |w.p| >= |n.p| + 1 && w.Abs() == from.Abs()
  {
    w := new Mpi();
    ret := w.Grow(|n.p| + 1);
    if ret.IsFailure() { return; }
    ret := w.Copy(from);
  }

  // W[i] = W[i - 1] * W[1].
  method NextEntry(prev: Mpi, w1: Mpi, n: Mpi, mm: Limb, t: Mpi, ghost a: nat, ghost k: nat) returns (ret: Status, w: Mpi)
    requires Working(w1, n, mm, t) && PowerForm(w1.Abs(), a, 1, Radix(n), n.Abs())
    requires prev != t && |prev.p| > 0 && PowerForm(prev.Abs(), a, k, Radix(n), n.Abs())
    modifies t`p
    ensures fresh(w) && Working(w1, n, mm, t)
    ensures ret.Fail? ==> ret.code == AllocFailed
    ensures ret.Ok? ==> |w.p| > 0 && PowerForm(w.Abs(), a, k + 1, Radix(n), n.Abs())
  {
    hide Val, Pow, Congruent, PowerForm;
    ret, w := NewEntry(prev, n);
    if ret.IsFailure() { return; }
    ret := MulPower(w, w1, n, mm, t, a, k, 1);
  }

  // W[2^(wsize-1)] by repeated squaring of W[1], then every further entry by one multiplication.
  method BuildTable(w1: Mpi, n: Mpi, mm: Limb, t: Mpi, wsize: nat, ghost a: nat) returns (ret: Status, ws: seq<Mpi>)
    requires wsize > 1
    requires Working(w1, n, mm, t) && PowerForm(w1.Abs(), a, 1, Radix(n), n.Abs())
    modifies t`p
    ensures ret.Fail? ==> ret.code == AllocFailed
    ensures Working(w1, n, mm, t)
    ensures forall i :: 0 <= i < |ws| ==> fresh(ws[i])
    ensures ret.Ok? ==> |ws| == Pow(2, wsize - 1) && Table(ws, Pow(2, wsize - 1), a, n)
  {
    hide Val, Pow, Congruent, PowerForm;
    ws := [];
    var first := Pow(2, wsize - 1);
    var last := Pow(2, wsize);
    TwicePower(wsize - 1);
    var w;
    ret, w := NewEntry(w1, n);
    if ret.IsFailure() { return; }
    ret := SquareTimes(w, n, mm, t, wsize - 1, a, 1);
    ws := [w];
    while first + |ws| < last
      invariant 1 <= |ws| && first + |ws| <= last && ret.Ok?
      invariant Working(w1, n, mm, t)
      invariant forall k :: 0 <= k < |ws| ==> fresh(ws[k]) && ws[k] != t
      invariant Table(ws, first, a, n)
      decreases last - |ws|
    {
      var next;
      ret, next := NextEntry(ws[|ws| - 1], w1, n, mm, t, a, first + |ws| - 1);
      if ret.IsFailure() { return; }
      ws := ws + [next];
    }
  }

  // ---------------------------------------------------------------- the window state machine

  // The bits read so far are q followed by the nbits pending bits v.
  ghost predicate Consumed(prefix: nat, q: nat, nbits: nat, v: nat) {
    prefix == q * Pow(2, nbits) + v && v < Pow(2, nbits)
  }

  // 0: only zeros seen; 1: between windows; 2: inside a window, which starts with a one bit.
  // wbits holds the pending bits left-aligned in wsize bits.
  ghost predicate WindowState(state: nat, nbits: nat, wbits: nat, wsize: nat, q: nat, v: nat) {
    && state <= 2 && nbits < wsize
    && (state == 0 ==> q == 0)
    && (state != 2 ==> nbits == 0 && v == 0)
    && (state == 2 ==> nbits > 0 && Pow(2, nbits - 1) <= v)
    && wbits == v * Pow(2, wsize - nbits)
  }

  // A bit joins the pending window.
  lemma AppendBit(prefix: nat, q: nat, nbits: nat, v: nat, bit: nat, wbits: nat, wsize: nat, state: nat)
    requires Consumed(prefix, q, nbits, v) && WindowState(state, nbits, wbits, wsize, q, v)
    requires bit <= 1 && (bit == 1 || state == 2)
    ensures Consumed(2 * prefix + bit, q, nbits + 1, 2 * v + bit)
    ensures Pow(2, nbits) <= 2 * v + bit
    ensures nbits + 1 < wsize ==>
              WindowState(2, nbits + 1, wbits + bit * Pow(2, wsize - nbits - 1), wsize, q, 2 * v + bit)
    ensures wbits + bit * Pow(2, wsize - nbits - 1) == (2 * v + bit) * Pow(2, wsize - nbits - 1)
    ensures wbits % Pow(2, wsize - nbits) == 0 && 0 <= bit * Pow(2, wsize - nbits - 1) < Pow(2, wsize - nbits)
  {
    hide Pow;
    FirstPower(2);
    TwicePower(nbits);
    TwicePower(wsize - nbits - 1);
    if nbits > 0 { TwicePower(nbits - 1); }
    AppendToPrefix(prefix, q, Pow(2, nbits), v, bit);
    AppendToWindow(wbits, v, bit, Pow(2, wsize - nbits - 1));
  }

  // Outside a window nothing is pending: a zero bit doubles what has been read.
  lemma ZeroBit(prefix: nat, q: nat, nbits: nat, v: nat, wbits: nat, wsize: nat, state: nat)
    requires Consumed(prefix, q, nbits, v) && WindowState(state, nbits, wbits, wsize, q, v) && state != 2
    ensures Consumed(2 * prefix, q + q, nbits, v) && WindowState(state, nbits, wbits, wsize, q + q, v)
    ensures state == 0 ==> q + q == q
  {
    FirstPower(2);
  }

  // A full window holds its bits unshifted, and flushing it leaves nothing pending.
  lemma FullWindow(prefix: nat, q: nat, wsize: nat, v: nat, wbits: nat)
    requires wsize > 0 && Consumed(prefix, q, wsize, v) && wbits == v * Pow(2, 0)
    ensures wbits == v < Pow(2, wsize)
    ensures Consumed(prefix, q * Pow(2, wsize) + wbits, 0, 0)
    ensures WindowState(1, 0, 0, wsize, q * Pow(2, wsize) + wbits, 0)
  {
    hide Pow;
    FirstPower(2);
    assert 0 * Pow(2, wsize) == 0;
  }

  lemma AppendToPrefix(prefix: nat, q: nat, u: nat, v: nat, bit: nat)
    requires prefix == q * u + v && v < u && bit <= 1
    ensures 2 * prefix + bit == q * (u + u) + (2 * v + bit) && 2 * v + bit < u + u
  {
    Distribute(q, u, u);
  }

  lemma AppendToWindow(wbits: nat, v: nat, bit: nat, u: nat)
    requires u > 0 && bit <= 1 && wbits == v * (u + u)
    ensures wbits + bit * u == (2 * v + bit) * u
    ensures wbits % (u + u) == 0 && 0 <= bit * u < u + u
  {
    Distribute(v, u, u);
    assert bit * u == if bit == 0 then 0 else u;
    assert (2 * v + bit) * u == v * u + v * u + bit * u;
    DivModUnique(wbits, u + u, v, 0);
  }

  // Reading bit bufsize of limb nblimbs extends the prefix of the exponent by that bit.
  lemma ReadBit(p: seq<Limb>, k: nat, j: nat)
    requires k < |p| && j < BI_L
    ensures Val(p) / Pow(2, BI_L * k + j) == 2 * (Val(p) / Pow(2, BI_L * k + j + 1)) + BitAt(p[k], j)
  {
    hide Val;
    LimbBit(p, k, j);
    var r := BI_L * k + j;
    TwicePower(r);
    DivDiv(Val(p), Pow(2, r), 2);
  }

  lemma NothingRead(p: seq<Limb>)
    ensures Val(p) / Pow(2, BI_L * |p|) == 0
  {
    hide Val, Pow;
    ValBound(p);
    PowBase(|p|);
    DivModUnique(Val(p), Pow(2, BI_L * |p|), 0, Val(p));
  }

  lemma AllRead(p: seq<Limb>)
    ensures Val(p) / Pow(2, BI_L * 0 + 0) == Val(p)
  {
  }

  lemma NextLimb(k: nat)
    requires k > 0
    ensures BI_L * k == BI_L * (k - 1) + BI_L
  {
  }

  // The table entry selected by the full window.
  method FlushWindow(x: Mpi, n: Mpi, mm: Limb, t: Mpi, w1: Mpi, ws: seq<Mpi>, wsize: nat, wbits: nat, ghost a: nat, ghost q: nat)
    requires wsize > 0 && Working(x, n, mm, t) && Entries(w1, ws, wsize, a, n) && w1 != t && t !in ws && w1 != x && x !in ws
    requires Pow(2, wsize - 1) <= wbits < Pow(2, wsize)
    requires PowerForm(x.Abs(), a, q, Radix(n), n.Abs())
    modifies x`p, t`p
    ensures Working(x, n, mm, t)
    ensures PowerForm(x.Abs(), a, q * Pow(2, wsize) + wbits, Radix(n), n.Abs())
  {
    hide Val, Pow, Congruent, PowerForm;
    FirstPower(2);
    TwicePower(wsize - 1);
    var first := Pow(2, wsize - 1);
    var entry := if wsize == 1 then w1 else ws[wbits - first];
    var ret := SquareTimes(x, n, mm, t, wsize, a, q);
    ret := MulPower(x, entry, n, mm, t, a, q * Pow(2, wsize), wbits);
  }

  // W[1] and the upper half of the table.
  ghost predicate Entries(w1: Mpi, ws: seq<Mpi>, wsize: nat, a: nat, n: Mpi)
    reads w1, ws, n
  {
    && wsize > 0
    && |w1.p| > 0 && PowerForm(w1.Abs(), a, 1, Radix(n), n.Abs())
    && (wsize > 1 ==> |ws| == Pow(2, wsize - 1) && Table(ws, Pow(2, wsize - 1), a, n))
  }

  // Read every bit of the exponent, highest first. What is left pending at the end is returned.
  method ScanExponent(x: Mpi, e: Mpi, n: Mpi, mm: Limb, t: Mpi, w1: Mpi, ws: seq<Mpi>, wsize: nat, ghost a: nat)
    returns (nbits: nat, wbits: nat, ghost q: nat, ghost v: nat)
    requires Working(x, n, mm, t) && Entries(w1, ws, wsize, a, n)
    requires w1 != t && t !in ws && w1 != x && x !in ws && e != x && e != t
    requires PowerForm(x.Abs(), a, 0, Radix(n), n.Abs())
    modifies x`p, t`p
    ensures Working(x, n, mm, t) && nbits < wsize
    ensures PowerForm(x.Abs(), a, q, Radix(n), n.Abs())
    ensures Consumed(e.Abs(), q, nbits, v) && wbits == v * Pow(2, wsize - nbits)
  {
    hide Val, Pow, PowerForm, BitAt, Consumed, WindowState;
    var nblimbs: nat := |e.p|;
    var bufsize: nat := 0;
    var state: nat := 0;
    nbits, wbits, q, v := 0, 0, 0, 0;
    NothingRead(e.p);
    NothingPending(wsize);
    while true
      invariant nblimbs <= |e.p| && bufsize < BI_L && (nblimbs == |e.p| ==> bufsize == 0) && state <= 2
      invariant Working(x, n, mm, t) && Entries(w1, ws, wsize, a, n)
      invariant WindowState(state, nbits, wbits, wsize, q, v)
      invariant Consumed(Val(e.p) / Pow(2, BI_L * nblimbs + bufsize), q, nbits, v)
      invariant PowerForm(x.Abs(), a, q, Radix(n), n.Abs())
      decreases nblimbs, bufsize
    {
      if bufsize == 0 {
        if nblimbs == 0 {
          break;
        }
        NextLimb(nblimbs);
        nblimbs := nblimbs - 1;
        bufsize := BI_L;
      }
      ghost var prefix := Val(e.p) / Pow(2, BI_L * nblimbs + bufsize);
      bufsize := bufsize - 1;
      var ei := BitAt(e.p[nblimbs], bufsize);
      ReadBit(e.p, nblimbs, bufsize);
      if ei == 0 && state == 0 {
        ZeroBit(prefix, q, nbits, v, wbits, wsize, state);
        continue;
      }
      if ei == 0 && state == 1 {
        ZeroBit(prefix, q, nbits, v, wbits, wsize, state);
        var ret := MulPower(x, x, n, mm, t, a, q, q);
        q := q + q;
        continue;
      }
      state, nbits, wbits, q, v := TakeBit(x, n, mm, t, w1, ws, wsize, state, nbits, wbits, ei, a, prefix, q, v);
    }
    AllRead(e.p);
    PendingFewer(state, nbits, wbits, wsize, q, v);
  }

  // A bit joins the window, and a window that is full is multiplied in.
  method TakeBit(x: Mpi, n: Mpi, mm: Limb, t: Mpi, w1: Mpi, ws: seq<Mpi>, wsize: nat, state0: nat, nbits0: nat, wbits0: nat,
                 ei: nat, ghost a: nat, ghost prefix: nat, ghost q0: nat, ghost v0: nat)
    returns (state: nat, nbits: nat, wbits: nat, ghost q: nat, ghost v: nat)
    requires Working(x, n, mm, t) && Entries(w1, ws, wsize, a, n) && w1 != t && t !in ws && w1 != x && x !in ws
    requires WindowState(state0, nbits0, wbits0, wsize, q0, v0) && Consumed(prefix, q0, nbits0, v0)
    requires ei <= 1 && (ei == 1 || state0 == 2)
    requires PowerForm(x.Abs(), a, q0, Radix(n), n.Abs())
    modifies x`p, t`p
    ensures Working(x, n, mm, t)
    ensures WindowState(state, nbits, wbits, wsize, q, v) && Consumed(2 * prefix + ei, q, nbits, v) && state <= 2
    ensures PowerForm(x.Abs(), a, q, Radix(n), n.Abs())
  {
    hide Val, Pow, PowerForm, Consumed, WindowState, Entries, Working;
    AppendBit(prefix, q0, nbits0, v0, ei, wbits0, wsize, state0);
    PendingFewer(state0, nbits0, wbits0, wsize, q0, v0);
    state := 2;
    nbits := nbits0 + 1;
    q, v := q0, 2 * v0 + ei;
    wbits := wbits0 + ei * Pow(2, wsize - nbits);
    if nbits == wsize {
      FullWindow(2 * prefix + ei, q, wsize, v, wbits);
      FlushWindow(x, n, mm, t, w1, ws, wsize, wbits, a, q);
      q := q * Pow(2, wsize) + wbits;
      state, nbits, wbits, v := 1, 0, 0, 0;
    }
  }

  lemma NothingPending(wsize: nat)
    requires wsize > 0
    ensures WindowState(0, 0, 0, wsize, 0, 0) && Consumed(0, 0, 0, 0)
  {
  }

  lemma PendingFewer(state: nat, nbits: nat, wbits: nat, wsize: nat, q: nat, v: nat)
    requires WindowState(state, nbits, wbits, wsize, q, v)
    ensures nbits < wsize && wbits == v * Pow(2, wsize - nbits)
  {
  }

  // ---------------------------------------------------------------- the bits left over

  // Bit wsize of the shifted window is the next pending bit.
  lemma PendingBit(v: nat, wbits: nat, wsize: nat, nbits: nat, i: nat)
    requires i < nbits <= wsize && wbits == v * Pow(2, wsize - nbits + i)
    ensures 2 * wbits == v * Pow(2, wsize - nbits + i + 1)
    ensures BitAt(2 * wbits, wsize) == BitAt(v, nbits - i - 1)
  {
    hide Pow;
    var s := nbits - i - 1;
    TwicePower(wsize - nbits + i);
    Distribute(v, Pow(2, wsize - nbits + i), Pow(2, wsize - nbits + i));
    PowAdd(2, wsize - s, s);
    assert 2 * wbits == v * Pow(2, wsize - s);
    DivByMultiple(v, Pow(2, wsize - s), Pow(2, s));
  }

  lemma DivByMultiple(v: nat, u: nat, w: nat)
    requires u > 0 && w > 0
    ensures u * w > 0 && (v * u) / (u * w) == v / w
  {
    var q, r := v / w, v % w;
    assert v == q * w + r;
    assert v * u == q * (u * w) + r * u;
    MulStrict(u, r, w);
    assert r * u >= 0;
    DivModUnique(v * u, u * w, q, r * u);
  }

  // The leading i of nbits pending bits.
  ghost function Leading(v: nat, nbits: nat, i: nat): nat
    requires i <= nbits
  {
    v / Pow(2, nbits - i)
  }

  lemma LeadingNext(v: nat, nbits: nat, i: nat)
    requires i < nbits
    ensures Leading(v, nbits, i + 1) == 2 * Leading(v, nbits, i) + BitAt(v, nbits - i - 1)
  {
    TwicePower(nbits - i - 1);
    DivDiv(v, Pow(2, nbits - i - 1), 2);
  }

  lemma LeadingEnds(v: nat, nbits: nat)
    requires v < Pow(2, nbits)
    ensures Leading(v, nbits, 0) == 0 && Leading(v, nbits, nbits) == v
  {
    FirstPower(2);
    DivModUnique(v, Pow(2, nbits), 0, v);
  }

  lemma NextExponent(q: nat, i: nat, lead: nat, bit: nat)
    ensures (q * Pow(2, i) + lead) + (q * Pow(2, i) + lead) + bit == q * Pow(2, i + 1) + (2 * lead + bit)
  {
    TwicePower(i);
    Distribute(q, Pow(2, i), Pow(2, i));
  }

  // Process the remaining bits one at a time.
  method FinishWindow(x: Mpi, n: Mpi, mm: Limb, t: Mpi, w1: Mpi, wsize: nat, nbits: nat, wbits: nat, ghost a: nat, ghost q: nat, ghost v: nat)
    requires Working(x, n, mm, t) && |w1.p| > 0 && PowerForm(w1.Abs(), a, 1, Radix(n), n.Abs())
    requires w1 != t && w1 != x && nbits <= wsize
    requires v < Pow(2, nbits) && wbits == v * Pow(2, wsize - nbits)
    requires PowerForm(x.Abs(), a, q, Radix(n), n.Abs())
    modifies x`p, t`p
    ensures Working(x, n, mm, t)
    ensures PowerForm(x.Abs(), a, q * Pow(2, nbits) + v, Radix(n), n.Abs())
  {
    hide Val, Pow, Congruent, PowerForm, BitAt, Leading;
    var w := wbits;
    var i: nat := 0;
    FirstPower(2);
    LeadingEnds(v, nbits);
    while i < nbits
      invariant i <= nbits && Working(x, n, mm, t)
      invariant w == v * Pow(2, wsize - nbits + i)
      invariant PowerForm(x.Abs(), a, q * Pow(2, i) + Leading(v, nbits, i), Radix(n), n.Abs())
    {
      ghost var k := q * Pow(2, i) + Leading(v, nbits, i);
      PendingBit(v, w, wsize, nbits, i);
      LeadingNext(v, nbits, i);
      NextExponent(q, i, Leading(v, nbits, i), BitAt(v, nbits - i - 1));
      var ret := MulPower(x, x, n, mm, t, a, k, k);
      w := 2 * w;
      if BitAt(w, wsize) != 0 {
        ret := MulPower(x, w1, n, mm, t, a, k + k, 1);
      }
      i := i + 1;
    }
  }

  // ---------------------------------------------------------------- the whole operation

  function IntPow(b: int, e: nat): int {
    if e == 0 then 1 else b * IntPow(b, e - 1)
  }

  function Signed(neg: bool, m: nat): int {
    if neg then -(m as int) else m
  }

  // What the code returns for a base of sign-flag `neg` and magnitude m.
  function ExpResult(neg: bool, m: nat, e: nat, n: nat): nat
    requires n > 0
  {
    if neg && e % 2 == 1 then n - Pow(m, e) % n else Pow(m, e) % n
  }

  lemma {:induction false} PowerSign(neg: bool, m: nat, e: nat)
    ensures IntPow(Signed(neg, m), e) == if neg && e % 2 == 1 then -(Pow(m, e) as int) else Pow(m, e)
  {
    if e > 0 {
      PowerSign(neg, m, e - 1);
    }
  }

  // The result is the residue of the signed power exactly unless the base is flagged negative, the
  // exponent is odd and the modulus divides the power; then the code returns the modulus itself.
  lemma ResultIsResidue(neg: bool, m: nat, e: nat, n: nat)
    requires n > 0
    ensures ExpResult(neg, m, e, n) == IntPow(Signed(neg, m), e) % n
       <==> !(neg && e % 2 == 1 && Pow(m, e) % n == 0)
    ensures neg && e % 2 == 1 && Pow(m, e) % n == 0 ==> ExpResult(neg, m, e, n) == n
    ensures Congruent(ExpResult(neg, m, e, n), IntPow(Signed(neg, m), e), n)
  {
    hide IntPow, Pow;
    PowerSign(neg, m, e);
    var p := Pow(m, e);
    var q, r := p / n, p % n;
    DivModSplit(p, n);
    if neg && e % 2 == 1 {
      SignedProduct(q, n);
      if r == 0 {
        DivModUnique(-(p as int), n, -q, 0);
        CongruentIntro(n, -(p as int), n, q + 1);
      } else {
        Distribute(n, q, 1);
        DivModUnique(-(p as int), n, -(q + 1), n - r);
        CongruentIntro(n - r, -(p as int), n, q + 1);
      }
    } else {
      CongruentMod(p, n);
    }
  }

  lemma SignedProduct(q: int, n: int)
    ensures (-q) * n == -(n * q) && (q + 1) * n == n * q + n && (-(q + 1)) * n == -(n * q) - n
  {
  }

  // Such an input: (-3)^1 modulo 3 comes back as 3, not 0.
  lemma NegativeBaseExample()
    ensures ExpResult(true, 3, 1, 3) == 3 && IntPow(-3, 1) % 3 == 0
  {
    assert Pow(3, 1) == 3 * Pow(3, 0);
  }

  // The window size for a given exponent length.
  function WindowFor(bits: nat): (w: nat)
    ensures 1 <= w <= WINDOW_SIZE
  {
    var w := if bits > 671 then 6 else if bits > 239 then 5 else if bits > 79 then 4 else if bits > 23 then 3 else 1;
    if w > WINDOW_SIZE then WINDOW_SIZE else w
  }

  // The cached number R^2 mod N of a previous call.
  ghost predicate CachedRR(rr: Mpi, n: Mpi)
    requires n.Abs() > 0
    reads rr, n
  {
    |rr.p| > 0 && rr.Value() == (Radix(n) * Radix(n)) % n.Abs()
  }

  // R^2 mod N by shifting and reducing.
  method ComputeRR(n: Mpi) returns (ret: Status, rr: Mpi)
    requires OddModulus(n) && n.s == 1
    ensures fresh(rr)
    ensures ret.Fail? ==> ret.code == AllocFailed
    ensures ret.Ok? ==> CachedRR(rr, n)
  {
    hide Val, Pow;
    rr := new Mpi();
    SmallWords();
    SignTimes(1, n.Abs());
    ret := rr.Lset(1);
    if ret.IsFailure() { return; }
    SignTimes(1, rr.Abs());
    ret := rr.ShiftL(|n.p| * 2 * BI_L);
    if ret.IsFailure() { return; }
    SignTimes(1, rr.Abs());
    SquareRadix(|n.p|);
    ret := Division.ModMpi(rr, rr, n);
  }

  lemma SquareRadix(len: nat)
    ensures Pow(2, len * 2 * BI_L) == Pow(BASE, len) * Pow(BASE, len)
  {
    PowBase(len);
    PowAdd(2, BI_L * len, BI_L * len);
    assert len * 2 * BI_L == BI_L * len + BI_L * len;
  }

  // W[1] = A * R mod N, from A or its residue.
  method LoadBase(w1: Mpi, a: Mpi, rr: Mpi, n: Mpi, mm: Limb, t: Mpi) returns (ret: Status)
    requires Working(w1, n, mm, t) && w1 != a && w1 != rr && rr != t && a != t && n.s == 1
    requires CachedRR(rr, n) && a.Value() == a.Abs() && |a.p| > 0
    modifies w1, t`p
    ensures ret.Fail? ==> ret.code == AllocFailed
    ensures ret.Ok? ==> Working(w1, n, mm, t) && PowerForm(w1.Abs(), a.Abs(), 1, Radix(n), n.Abs())
  {
    hide Val, Pow, Congruent;
    ghost var m := n.Abs();
    SignTimes(1, m);
    CongruentMod(a.Abs(), m);
    CongruentIntro(a.Abs(), a.Abs(), m, 0);
    RRFacts(rr.s, rr.p, Radix(n), m);
    ValBound(n.p);
    var order := a.Cmp(n);
    if order >= 0 {
      :- Division.ModMpi(w1, a, n);
    } else {
      :- w1.Copy(a);
    }
    ValOfValue(w1.s, w1.p);
    ghost var v := w1.Abs();
    assert v < m && Congruent(v, a.Abs(), m);
    ret := MontMul(w1, rr, n, mm, t);
    EnterForm(w1.Abs(), v, rr.Abs(), a.Abs(), |n.p|, m);
  }

  lemma RRFacts(s: Sign, p: seq<Limb>, r: nat, n: nat)
    requires n > 0 && s * Val(p) == (r * r) % n
    ensures Val(p) == (r * r) % n < n && Congruent(Val(p), r * r, n)
  {
    hide Val;
    ValOfValue(s, p);
    CongruentMod(r * r, n);
  }

  // X = R mod N, the form of the power zero.
  method LoadUnit(x: Mpi, rr: Mpi, n: Mpi, mm: Limb, t: Mpi, ghost a: nat) returns (ret: Status)
    requires Working(x, n, mm, t) && x != rr && rr != t && CachedRR(rr, n)
    modifies x, t`p
    ensures ret.Fail? ==> ret.code == AllocFailed
    ensures ret.Ok? ==> Working(x, n, mm, t) && PowerForm(x.Abs(), a, 0, Radix(n), n.Abs())
    ensures ret.Ok? ==> x.s == rr.s
  {
    hide Val, Pow, Congruent;
    RRFacts(rr.s, rr.p, Radix(n), n.Abs());
    ValBound(n.p);
    :- x.Copy(rr);
    ret := MontRed(x, n, mm, t);
    UnitForm(x.Abs(), rr.Abs(), a, |n.p|, n.Abs());
  }

  // R^2 mod N is zero only for N = 1, and then every result is zero: the sign taken over from RR is harmless.
  lemma SignHarmless(s: Sign, rr: nat, x: nat, len: nat, n: nat)
    requires n % 2 == 1 && s * rr == (Pow(BASE, len) * Pow(BASE, len)) % n && x < n
    ensures s * x == x
  {
    hide Pow, Congruent;
    SignTimes(s, rr);
    SignTimes(s, x);
    if s == -1 {
      var r := Pow(BASE, len);
      assert (r * r) % n == 0;
      SquareRadix(len);
      DivModSplit(r * r, n);
      CongruentIntro(1 * (r * r), 0 * (r * r), n, (r * r) / n);
      CancelPowerOfTwo(1, 0, len * 2 * BI_L, n);
      var k := CongruentWitness(1, 0, n);
      OnlyOne(k, n);
    }
  }

  lemma OnlyOne(k: int, n: nat)
    requires k * n == 1
    ensures n == 1
  {
    DividesIntro(n, 1, k);
    if n > 1 { DivModUnique(1, n, 0, 1); }
  }

  // The exponentiation proper, on a non-negative base.
  method PowerLoop(x: Mpi, a: Mpi, e: Mpi, n: Mpi, rr: Mpi, mm: Limb, w1: Mpi, t: Mpi, wsize: nat) returns (ret: Status)
    requires x != n && x != t && n != t && x != w1 && w1 != n && w1 != t && w1 != a && w1 != rr && w1 != e
    requires x != e && t != e && t != a && rr != x && rr != t && wsize > 0
    requires Working(w1, n, mm, t) && |x.p| >= |n.p| + 1 && n.s == 1 && CachedRR(rr, n)
    requires a.Value() == a.Abs() && |a.p| > 0
    modifies x, w1, t
    ensures ret.Fail? ==> ret.code == AllocFailed
    ensures ret.Ok? ==> x.Value() == Pow(old(a.Abs()), e.Abs()) % n.Abs()
  {
    hide Val, Pow, Congruent, PowerForm, Consumed, MontProduct;
    ghost var m := a.Abs();
    :- LoadBase(w1, a, rr, n, mm, t);
    :- LoadUnit(x, rr, n, mm, t, m);
    var ws := [];
    if wsize > 1 {
      ret, ws := BuildTable(w1, n, mm, t, wsize, m);
      if ret.IsFailure() { return; }
    }
    var nbits, wbits;
    ghost var q, v;
    nbits, wbits, q, v := ScanExponent(x, e, n, mm, t, w1, ws, wsize, m);
    PendingBound(e.Abs(), q, nbits, v);
    FinishWindow(x, n, mm, t, w1, wsize, nbits, wbits, m, q, v);
    ghost var form := x.Abs();
    FormReduced(form, m, e.Abs(), Radix(n), n.Abs());
    ValBound(n.p);
    ret := MontRed(x, n, mm, t);
    LeaveForm(x.Abs(), form, m, e.Abs(), |n.p|, n.Abs());
    FormReduced(form, m, e.Abs(), Radix(n), n.Abs());
    SignHarmless(rr.s, rr.Abs(), x.Abs(), |n.p|, n.Abs());
  }

  lemma PendingBound(e: nat, q: nat, nbits: nat, v: nat)
    requires Consumed(e, q, nbits, v)
    ensures v < Pow(2, nbits) && q * Pow(2, nbits) + v == e
  {
  }

  lemma FormReduced(v: nat, a: nat, k: nat, r: nat, n: nat)
    requires PowerForm(v, a, k, r, n)
    ensures v < n
  {
  }

  // R^2 mod N, from the caller's cache when it holds one, filling an empty cache otherwise.
  method LoadRR(n: Mpi, cache: Mpi?) returns (ret: Status, rr: Mpi)
    requires OddModulus(n) && n.s == 1 && cache != n
    requires cache != null && |cache.p| > 0 ==> CachedRR(cache, n)
    modifies cache
    ensures fresh(rr)
    ensures ret.Fail? ==> ret.code == AllocFailed
    ensures ret.Ok? ==> CachedRR(rr, n) && (cache != null ==> CachedRR(cache, n))
  {
    hide Val, Pow;
    if cache == null || |cache.p| == 0 {
      ret, rr := ComputeRR(n);
      if ret.IsFailure() { return; }
      if cache != null {
        cache.s, cache.p := rr.s, rr.p;
      }
    } else {
      rr := new Mpi();
      rr.s, rr.p := cache.s, cache.p;
      ret := Ok;
    }
  }

  // An odd positive modulus and an exponent that is not negative.
  ghost predicate InRange(e: Mpi, n: Mpi)
    reads e, n
  {
    n.Value() > 0 && n.Value() % 2 == 1 && e.Value() >= 0
  }

  // X = A^E mod N. If the operands are in range, a base other than the result needs a limb, the result
  // can overwrite the base but neither exponent nor modulus, and a non-empty cache has to hold R^2 mod N
  // for this modulus; it does afterwards.
  method ExpMod(x: Mpi, a: Mpi, e: Mpi, n: Mpi, cache: Mpi?) returns (ret: Status)
    requires InRange(e, n) ==> x != e && x != n && (x == a || |a.p| > 0)
    requires InRange(e, n) && cache != null ==>
               cache != x && cache != n && cache != e && cache != a && (|cache.p| > 0 ==> CachedRR(cache, n))
    modifies x, cache
    ensures old(!InRange(e, n)) <==> ret == Fail(BadInputData)
    ensures ret.Fail? ==> ret.code == BadInputData || ret.code == AllocFailed
    ensures ret.Ok? ==> InRange(e, n)
    ensures ret.Ok? ==> x.Value() == ExpResult(old(a.s) == -1, old(a.Abs()), e.Value(), n.Value())
    ensures ret.Ok? && cache != null ==> CachedRR(cache, n)
  {
    hide Val, Pow, ExpResult;
    :- CheckOperands(e, n);
    ghost var m := a.Abs();
    var neg := a.s == -1;
    var mm := MontgInit(n);
    var bits := e.BitLen();
    var wsize := WindowFor(bits);
    var w1, t, base, rr;
    ret, w1, t, base := Temporaries(x, a, n);
    if ret.IsFailure() { return; }
    ret, rr := LoadRR(n, cache);
    if ret.IsFailure() { return; }
    :- PowerLoop(x, base, e, n, rr, mm, w1, t, wsize);
    :- CorrectSign(x, e, n, neg, m);
    return Ok;
  }

  // Room in X, W[1] and T, and the magnitude of a negative base.
  method Temporaries(x: Mpi, a: Mpi, n: Mpi) returns (ret: Status, w1: Mpi, t: Mpi, base: Mpi)
    requires x != n && (x == a || |a.p| > 0)
    modifies x
    ensures fresh(w1) && fresh(t) && w1 != t && (base == a || (fresh(base) && base != w1 && base != t))
    ensures ret.Fail? ==> ret.code == AllocFailed
    ensures ret.Ok? ==> |x.p| >= |n.p| + 1 && |w1.p| >= |n.p| + 1 && |t.p| >= 2 * |n.p| + 2
    ensures ret.Ok? ==> |base.p| > 0 && base.Value() == base.Abs() == old(a.Abs())
  {
    hide Val, Pow;
    w1 := new Mpi();
    t := new Mpi();
    base := a;
    ret := x.Grow(|n.p| + 1);
    if ret.IsFailure() { return; }
    ret := w1.Grow(|n.p| + 1);
    if ret.IsFailure() { return; }
    ret := t.Grow((|n.p| + 1) * 2);
    if ret.IsFailure() { return; }
    if a.s == -1 {
      base := new Mpi();
      ret := base.Copy(a);
      if ret.IsFailure() { return; }
      base.s := 1;
    }
    SignTimes(1, base.Abs());
  }

  // The checks made before anything is allocated.
  method CheckOperands(e: Mpi, n: Mpi) returns (ret: Status)
    ensures ret == if InRange(e, n) then Ok else Fail(BadInputData)
    ensures ret.Ok? ==> OddModulus(n) && n.s == 1 && n.p[0] % 2 == 1 && n.Value() == n.Abs() && e.Value() == e.Abs()
  {
    hide Val, Pow;
    SmallWords();
    SignTimes(n.s, n.Abs());
    SignTimes(e.s, e.Abs());
    var sign := n.CmpInt(0);
    if sign <= 0 {
      return Fail(BadInputData);
    }
    NotEmpty(n.s, n.p);
    ValParity(n.p);
    if n.p[0] % 2 == 0 {
      return Fail(BadInputData);
    }
    sign := e.CmpInt(0);
    if sign < 0 {
      return Fail(BadInputData);
    }
    ValOfValue(e.s, e.p);
    return Ok;
  }

  // The correction for a negative base: N - X when the exponent is odd.
  method CorrectSign(x: Mpi, e: Mpi, n: Mpi, neg: bool, ghost m: nat) returns (ret: Status)
    requires x != e && x != n && n.Abs() > 0 && n.Value() == n.Abs()
    requires x.Value() == Pow(m, e.Abs()) % n.Abs()
    modifies x
    ensures ret.Fail? ==> ret.code == AllocFailed
    ensures ret.Ok? ==> x.Value() == ExpResult(neg, m, e.Abs(), n.Abs())
  {
    hide Val, Pow;
    OddExponent(e.p);
    if neg && |e.p| != 0 && e.p[0] % 2 != 0 {
      ValOfValue(x.s, x.p);
      x.s := -1;
      SignTimes(-1, x.Abs());
      :- x.Add(n, x);
    }
    return Ok;
  }

  lemma NotEmpty(s: Sign, p: seq<Limb>)
    requires s * Val(p) > 0
    ensures |p| > 0 && s == 1
  {
    SignTimes(s, Val(p));
  }

  lemma OddExponent(p: seq<Limb>)
    ensures Val(p) % 2 == 1 <==> |p| != 0 && p[0] % 2 != 0
  {
    if |p| > 0 { ValParity(p); }
  }
}
