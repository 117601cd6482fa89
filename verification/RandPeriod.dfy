/** The generator goes through all 2^48 states before it repeats one, whatever it starts from. */
module RandPeriod {
  import opened Rand

  const A: nat := 0x5DEECE66D
  const Half: nat := 0x2EF767336             // (A - 1) / 2, an even number

  function Pow(b: nat, n: nat): nat { if n == 0 then 1 else b * Pow(b, n - 1) }

  /** 1 + A + ... + A^(n-1). */
  function Sum(n: nat): nat { if n == 0 then 0 else A * Sum(n - 1) + 1 }

  ghost predicate Divides(d: nat, x: nat) { exists q: nat :: x == d * q }

  // ------------------------------------------------------------------------ geometric sums

  lemma {:induction false} Geometric(n: nat)
    ensures Pow(A, n) == (A - 1) * Sum(n) + 1
  {
    if n > 0 { Geometric(n - 1); }
  }

  lemma {:induction false} SumSplit(m: nat, n: nat)
    ensures Sum(m + n) == Pow(A, m) * Sum(n) + Sum(m)
  {
    if n == 0 {
      assert m + n == m && Sum(n) == 0;
    } else {
      SumSplit(m, n - 1);
      Geometric(m);
      var p, s := Pow(A, m), Sum(n - 1);
      assert Sum(m + n) == A * (p * s + Sum(m)) + 1;
      assert p * (A * s + 1) == A * (p * s) + p by { Distribute(p, A, s); }
      assert A * (p * s + Sum(m)) == A * (p * s) + A * Sum(m);
    }
  }

  lemma Distribute(p: nat, a: nat, s: nat)
    ensures p * (a * s + 1) == a * (p * s) + p
  {
    calc {
      p * (a * s + 1);
      p * (a * s) + p;
      (p * a) * s + p;
      (a * p) * s + p;
      a * (p * s) + p;
    }
  }

  /** Twice as many terms: the sum is multiplied by twice an odd number. */
  lemma SumDouble(m: nat)
    ensures Sum(2 * m) == 2 * (Sum(m) * (Half * Sum(m) + 1)) && (Half * Sum(m) + 1) % 2 == 1
  {
    hide Sum, Pow;
    SumSplit(m, m);
    Geometric(m);
    assert m + m == 2 * m;
    TwiceOdd(Pow(A, m), Sum(m));
  }

  lemma TwiceOdd(p: nat, s: nat)
    requires p == (A - 1) * s + 1
    ensures p * s + s == 2 * (s * (Half * s + 1)) && (Half * s + 1) % 2 == 1
  {
    var o := Half * s + 1;
    assert p + 1 == 2 * o;
    assert p * s + s == (p + 1) * s == 2 * (s * o);
    assert o == 2 * ((Half / 2) * s) + 1;
  }

  lemma OddStep(x: nat, y: nat, m: nat)
    requires y % 2 == m % 2
    ensures (2 * x + y + 1) % 2 == (m + 1) % 2
  {
  }

  lemma {:induction false} SumParity(n: nat)
    ensures Sum(n) % 2 == n % 2
  {
    if n > 0 {
      SumParity(n - 1);
      OddStep(Half * Sum(n - 1), Sum(n - 1), n - 1);
      assert Sum(n) == 2 * (Half * Sum(n - 1)) + Sum(n - 1) + 1;
    }
  }

  // ----------------------------------------------------------------------- powers of two

  lemma MultipleDivides(d: nat, s: nat, o: nat)
    ensures Divides(d, s) ==> Divides(d, s * o)
  {
    if Divides(d, s) {
      var q: nat :| s == d * q;
      Associate(d, q, o);
      assert s * o == d * (q * o);
    }
  }

  lemma Associate(x: nat, y: nat, z: nat)
    ensures (x * y) * z == x * (y * z)
  {
  }

  lemma OneDivides(s: nat)
    ensures Divides(Pow(2, 0), s)
  {
    assert s == 1 * s;
  }

  /** An odd factor is of no help to a power of two. */
  lemma {:induction false} OddFactor(k: nat, s: nat, o: nat)
    requires o % 2 == 1
    ensures Divides(Pow(2, k), s * o) <==> Divides(Pow(2, k), s)
  {
    hide Divides, Pow;
    MultipleDivides(Pow(2, k), s, o);
    if Divides(Pow(2, k), s * o) {
      if k == 0 {
        OneDivides(s);
      } else {
        HalfDivides(k, s, o);
        OddFactor(k - 1, s / 2, o);
        Doubled(k, s / 2);
      }
    }
  }

  lemma HalfDivides(k: nat, s: nat, o: nat)
    requires k > 0 && o % 2 == 1 && Divides(Pow(2, k), s * o)
    ensures s % 2 == 0 && Divides(Pow(2, k - 1), (s / 2) * o)
  {
    var q: nat :| s * o == Pow(2, k) * q;
    var r := Pow(2, k - 1) * q;
    assert Pow(2, k) * q == 2 * r by { TwiceProduct(Pow(2, k - 1), q); }
    EvenFactor(s, o, r);
    var h := s / 2;
    assert s * o == 2 * (h * o) by { assert s == 2 * h; }
  }

  lemma EvenFactor(s: nat, o: nat, h: nat)
    requires o % 2 == 1 && s * o == 2 * h
    ensures s % 2 == 0
  {
    var i := o / 2;
    OddProduct(s, i);
    assert o == 2 * i + 1;
    assert s == 2 * (h - s * i);
  }

  lemma OddProduct(s: nat, i: nat)
    ensures s * (2 * i + 1) == 2 * (s * i) + s
  {
  }

  lemma TwiceProduct(p: nat, q: nat)
    ensures (2 * p) * q == 2 * (p * q)
  {
  }

  lemma Doubled(k: nat, h: nat)
    requires k > 0
    ensures Divides(Pow(2, k), 2 * h) <==> Divides(Pow(2, k - 1), h)
  {
    var p, r := Pow(2, k - 1), Pow(2, k);
    assert r == 2 * p;
    hide Pow;
    if Divides(p, h) {
      var q: nat :| h == p * q;
      TwiceProduct(p, q);
      assert 2 * h == r * q;
    }
    if Divides(r, 2 * h) {
      var q: nat :| 2 * h == r * q;
      TwiceProduct(p, q);
      assert h == p * q;
    }
  }

  /** The sum of `n` terms holds exactly the powers of two that `n` holds. */
  lemma {:induction false} SumValuation(k: nat, n: nat)
    ensures Divides(Pow(2, k), Sum(n)) <==> Divides(Pow(2, k), n)
    decreases n
  {
    if k == 0 {
      OneDivides(Sum(n));
      OneDivides(n);
    } else if n == 0 {
      assert 0 == Pow(2, k) * 0;
    } else if n % 2 == 1 {
      SumParity(n);
      OddNot(k, n);
      OddNot(k, Sum(n));
    } else {
      var m := n / 2;
      SumDouble(m);
      var o := Half * Sum(m) + 1;
      Doubled(k, Sum(m) * o);
      OddFactor(k - 1, Sum(m), o);
      SumValuation(k - 1, m);
      Doubled(k, m);
    }
  }

  lemma OddNot(k: nat, n: nat)
    requires k > 0 && n % 2 == 1
    ensures !Divides(Pow(2, k), n)
  {
    forall q: nat ensures n != Pow(2, k) * q { EvenMultiple(k, q); }
  }

  lemma EvenMultiple(k: nat, q: nat)
    requires k > 0
    ensures Pow(2, k) * q % 2 == 0
  {
    TwiceProduct(Pow(2, k - 1), q);
  }

  // ------------------------------------------------------------------------------- period

  lemma ModStep(y: nat)
    ensures Lcg(y % Two48) == Lcg(y)
  {
    var q, r := y / Two48, y % Two48;
    assert y == Two48 * q + r;
    assert A * y + 0xB == (A * r + 0xB) + Two48 * (A * q);
    AddMultiple(A * r + 0xB, A * q);
  }

  lemma AddMultiple(r: nat, q: nat)
    ensures (r + Two48 * q) % Two48 == r % Two48
  {
  }

  /** The state after `n` steps, without the reductions in between. */
  lemma {:induction false} Closed(x: nat, n: nat)
    requires x < Two48
    ensures Iterate(x, n) == (x + Sum(n) * ((A - 1) * x + 0xB)) % Two48
  {
    if n > 0 {
      Closed(x, n - 1);
      var s, d := Sum(n - 1), (A - 1) * x + 0xB;
      ModStep(x + s * d);
      assert A * (x + s * d) + 0xB == x + (A * s + 1) * d by { OneMore(x, s, d); }
    }
  }

  lemma OneMore(x: nat, s: nat, d: nat)
    requires d == (A - 1) * x + 0xB
    ensures A * (x + s * d) + 0xB == x + (A * s + 1) * d
  {
    assert (A * s + 1) * d == A * (s * d) + d;
  }

  lemma Returns(x: nat, t: nat)
    requires x < Two48
    ensures (x + t) % Two48 == x <==> Divides(Two48, t)
  {
    if Divides(Two48, t) { var q: nat :| t == Two48 * q; }
    if (x + t) % Two48 == x { assert t == Two48 * ((x + t) / Two48); }
  }

  lemma TwoToThe48()
    ensures Pow(2, 48) == Two48
  {
    assert Pow(2, 8) == 0x100;
    assert Pow(2, 16) == 0x100 * Pow(2, 8);
    assert Pow(2, 24) == 0x100 * Pow(2, 16);
    assert Pow(2, 32) == 0x100 * Pow(2, 24);
    assert Pow(2, 40) == 0x100 * Pow(2, 32);
    assert Pow(2, 48) == 0x100 * Pow(2, 40);
  }

  lemma OddIncrement(x: nat)
    ensures ((A - 1) * x + 0xB) % 2 == 1
  {
    assert (A - 1) * x + 0xB == 2 * (Half * x + 5) + 1;
  }

  /** From any state, the state comes back after `n` steps exactly when 2^48 divides `n`. */
  lemma Period(x: nat, n: nat)
    requires x < Two48
    ensures Iterate(x, n) == x <==> n % Two48 == 0
  {
    hide Pow, Sum, Divides, Iterate, Lcg;
    var s, d := Sum(n), (A - 1) * x + 0xB;
    Closed(x, n);
    Returns(x, s * d);
    OddIncrement(x);
    TwoToThe48();
    OddFactor(48, s, d);
    SumValuation(48, n);
    Returns(0, n);
  }

  lemma {:induction false} IterateAdd(x: nat, i: nat, n: nat)
    ensures Iterate(x, i + n) == Iterate(Iterate(x, i), n)
  {
    if n > 0 { IterateAdd(x, i, n - 1); }
  }

  /** Two of the states that follow a seed are equal only a multiple of 2^48 steps apart. */
  lemma StatesDistinct(x: nat, i: nat, j: nat)
    requires x < Two48 && i <= j
    ensures Iterate(x, i) == Iterate(x, j) <==> (j - i) % Two48 == 0
  {
    IterateAdd(x, i, j - i);
    assert Iterate(x, i) < Two48;
    Period(Iterate(x, i), j - i);
  }
}
