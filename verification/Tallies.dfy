// Adding up, over a multiset of items, what each item contributes.
module Tallies {

  ghost function Tally<F, T>(m: multiset<F>, g: F -> multiset<T>): multiset<T>
    decreases |m|
  {
    if m == multiset{} then multiset{}
    else
      var f :| f in m;
      g(f) + Tally(m - multiset{f}, g)
  }

  lemma {:induction false} TallyAdd<F, T>(m: multiset<F>, f: F, g: F -> multiset<T>)
    ensures Tally(m + multiset{f}, g) == Tally(m, g) + g(f)
    decreases |m|
  {
    var sum := m + multiset{f};
    var x :| x in sum && Tally(sum, g) == g(x) + Tally(sum - multiset{x}, g);
    hide Tally;
    TakeOne(m, f, x);
    if x != f {
      var rest := m - multiset{x};
      TallyAdd(rest, f, g);
      TallyAdd(rest, x, g);
      Exchange(g(x), Tally(rest, g), g(f));
    }
  }

  lemma Exchange<T>(a: multiset<T>, b: multiset<T>, c: multiset<T>)
    ensures a + (b + c) == b + a + c
  {
  }

  lemma TakeOne<F>(m: multiset<F>, f: F, x: F)
    requires x in m + multiset{f}
    ensures x == f ==> m + multiset{f} - multiset{x} == m
    ensures x != f ==> |m - multiset{x}| < |m|
    ensures x != f ==> m + multiset{f} - multiset{x} == m - multiset{x} + multiset{f} && m == m - multiset{x} + multiset{x}
  {
  }

  lemma TallyRemove<F, T>(m: multiset<F>, f: F, g: F -> multiset<T>)
    requires f in m
    ensures Tally(m, g) == Tally(m - multiset{f}, g) + g(f)
  {
    TallyAdd(m - multiset{f}, f, g);
    assert m - multiset{f} + multiset{f} == m;
  }

  lemma {:induction false} TallySource<F, T>(m: multiset<F>, g: F -> multiset<T>, x: T)
    requires x in Tally(m, g)
    ensures exists f :: f in m && x in g(f)
    decreases |m|
  {
    var f :| f in m && Tally(m, g) == g(f) + Tally(m - multiset{f}, g);
    if x !in g(f) {
      TallySource(m - multiset{f}, g, x);
      var h :| h in m - multiset{f} && x in g(h);
      assert h in m;
    }
  }

  lemma EmptyTally<F, T>(g: F -> multiset<T>)
    ensures Tally(multiset{}, g) == multiset{}
  {
  }

  lemma {:induction false} TallyUnion<F, T>(a: multiset<F>, b: multiset<F>, g: F -> multiset<T>)
    ensures Tally(a + b, g) == Tally(a, g) + Tally(b, g)
    decreases |b|
  {
    hide Tally;
    if b == multiset{} {
      assert a + b == a;
      EmptyTally(g);
    } else {
      var f :| f in b;
      var rest := b - multiset{f};
      assert b == rest + multiset{f};
      assert a + b == (a + rest) + multiset{f};
      TallyUnion(a, rest, g);
      TallyAdd(a + rest, f, g);
      TallyAdd(rest, f, g);
    }
  }
}
