/** The 48-bit linear congruential generator, kept in three 16-bit limbs. */
module Rand {

  const Two16: nat := 0x1_0000
  const Two32: nat := 0x1_0000_0000
  const Two48: nat := 0x1_0000_0000_0000

  // the multiplier 0x5DEECE66D in limbs, and the addend
  const A0: nat := 0xE66D
  const A1: nat := 0xDEEC
  const A2: nat := 0x5
  const C: nat := 0xB
  const X0: nat := 0x330E

  // ---------------------------------------------------------------- the macros of the source

  /** Conversion to `int32_t`. */
  function Int32(x: int): int { if x % Two32 < 0x8000_0000 then x % Two32 else x % Two32 - Two32 }

  /** `LOW`: the low 16 bits of the value as an `unsigned`. */
  function Low(x: int): nat { x % Two32 % Two16 }

  /** `HIGH`; the shift of a negative number rounds down, as Euclidean division does here. */
  function High(x: int): nat { Low(x / Two16) }

  /** `MUL`: the product passes through an `int32_t`. */
  function Mul(x: nat, y: nat): (nat, nat) { var l := Int32(x * y); (Low(l), High(l)) }

  function Carry(x: nat, y: nat): nat { if Int32(x) + y > 0xFFFF then 1 else 0 }

  /** Addition of `uint32_t`. */
  function Add32(x: nat, y: nat): nat { (x + y) % Two32 }

  function Mul32(x: nat, y: nat): nat { x * y % Two32 }

  lemma Int32Bits(x: nat)
    requires x < Two32
    ensures Int32(x) % Two32 == x && Low(Int32(x)) == x % Two16 && High(Int32(x)) == x / Two16
  {
    if x >= 0x8000_0000 {
      var y := x - Two32;
      assert y / Two16 == x / Two16 - Two16;
      assert y % Two32 == x;
      assert (y / Two16) % Two32 % Two16 == (x / Two16) % Two16;
    }
  }

  /** The sign plays no part: the two limbs are those of the exact product. */
  lemma MulExact(x: nat, y: nat)
    requires x < Two16 && y < Two16
    ensures var (lo, hi) := Mul(x, y); lo < Two16 && hi < Two16 && lo + Two16 * hi == x * y
  {
    assert x * y <= 0xFFFF * 0xFFFF by { LessProduct(x, y, 0xFFFF, 0xFFFF); }
    Int32Bits(x * y);
  }

  lemma LessProduct(x: nat, y: nat, m: nat, n: nat)
    requires x <= m && y <= n
    ensures x * y <= m * n
  {
    assert m * n - x * y == (m - x) * n + x * (n - y);
  }

  lemma AddCarry(x: nat, y: nat)
    requires x < Two16 && y < Two16
    ensures Low(Add32(x, y)) < Two16 && Low(Add32(x, y)) + Two16 * Carry(x, y) == x + y
  {
  }

  // ------------------------------------------------------------------- the 48-bit generator

  /** One step of the generator that POSIX describes. */
  function Lcg(x: nat): (y: nat)
    ensures y < Two48
  {
    (0x5DEECE66D * x + 0xB) % Two48
  }

  function Iterate(x: nat, n: nat): nat { if n == 0 then x else Lcg(Iterate(x, n - 1)) }

  function Joined(x0: nat, x1: nat, x2: nat): nat { x0 + Two16 * x1 + Two32 * x2 }

  /** What the limbs leave out are multiples of 2^48. */
  lemma LimbProduct(x0: nat, x1: nat, x2: nat)
    ensures 0x5DEECE66D * Joined(x0, x1, x2) + C
         == (A0 * x0 + C) + Two16 * (A0 * x1 + A1 * x0) + Two32 * (A0 * x2 + A1 * x1 + A2 * x0)
            + Two48 * (A1 * x2 + A2 * x1 + Two16 * A2 * x2)
  {
  }

  lemma Reduce(x: nat, y0: nat, y1: nat, t: nat, m: nat)
    requires y0 < Two16 && y1 < Two16 && x == y0 + Two16 * y1 + Two32 * t + Two48 * m
    ensures x % Two48 == Joined(y0, y1, t % Two16)
  {
    var k := t / Two16 + m;
    assert x == Joined(y0, y1, t % Two16) + Two48 * k;
    assert Joined(y0, y1, t % Two16) < Two48;
  }

  lemma CarryBit(x: nat, y: nat)
    ensures Carry(x, y) <= 1
  {
  }

  lemma LowLow(x: nat)
    requires x < Two16
    ensures Low(x) == x
  {
  }

  /** Sums and products that wrap at 2^32 lose a multiple of 2^16. */
  lemma Wrap(x: nat, y: nat) returns (k: nat)
    ensures Add32(x, y) + Two16 * k == x + y
  {
    k := Two16 * ((x + y) / Two32);
  }

  lemma WrapMul(x: nat, y: nat) returns (k: nat)
    ensures Mul32(x, y) + Two16 * k == x * y
  {
    k := Two16 * (x * y / Two32);
  }

  lemma LowMod(x: nat, k: nat)
    ensures Low(x) == (x + Two16 * k) % Two16
  {
    assert x == Two16 * (Two16 * (x / Two32)) + x % Two32;
  }

  lemma UpperLimb(c: nat, d: nat, e: nat, q: nat, r: nat, a0: nat, x2: nat, a1: nat, x1: nat, a2: nat, x0: nat)
    ensures var s := Add32(Add32(Add32(Add32(c, d), e), q), r);
            Low(Add32(Add32(Add32(s, Mul32(a0, x2)), Mul32(a1, x1)), Mul32(a2, x0)))
            == (c + d + e + q + r + a0 * x2 + a1 * x1 + a2 * x0) % Two16
  {
    hide Low, Add32, Mul32;
    var m0, m1, m2 := Mul32(a0, x2), Mul32(a1, x1), Mul32(a2, x0);
    var k0 := WrapMul(a0, x2);
    var k1 := WrapMul(a1, x1);
    var k2 := WrapMul(a2, x0);
    var j0 := Wrap(c, d);
    var s1 := Add32(c, d);
    var j1 := Wrap(s1, e);
    var s2 := Add32(s1, e);
    var j2 := Wrap(s2, q);
    var s3 := Add32(s2, q);
    var j3 := Wrap(s3, r);
    var s4 := Add32(s3, r);
    var j4 := Wrap(s4, m0);
    var s5 := Add32(s4, m0);
    var j5 := Wrap(s5, m1);
    var s6 := Add32(s5, m1);
    var j6 := Wrap(s6, m2);
    LowMod(Add32(s6, m2), k0 + k1 + k2 + j0 + j1 + j2 + j3 + j4 + j5 + j6);
  }

  /** The limbs and carries add up to the product. */
  lemma NextExact(x0: nat, x1: nat, x2: nat, p0: nat, p1: nat, k0: nat, s0: nat, k1: nat, s1: nat,
                  q0: nat, q1: nat, k2: nat, s2: nat, r0: nat, r1: nat, k3: nat, s3: nat, t: nat)
    requires p0 + Two16 * p1 == A0 * x0 && s0 + Two16 * k0 == p0 + C && s1 + Two16 * k1 == p1 + k0
    requires q0 + Two16 * q1 == A0 * x1 && s2 + Two16 * k2 == s1 + q0
    requires r0 + Two16 * r1 == A1 * x0 && s3 + Two16 * k3 == s2 + r0
    requires t == k2 + k1 + k3 + q1 + r1 + A0 * x2 + A1 * x1 + A2 * x0
    requires s0 < Two16 && s3 < Two16
    ensures Joined(s0, s3, t % Two16) == Lcg(Joined(x0, x1, x2))
  {
    LimbProduct(x0, x1, x2);
    Reduce(0x5DEECE66D * Joined(x0, x1, x2) + C, s0, s3, t, A1 * x2 + A2 * x1 + Two16 * A2 * x2);
  }

  lemma Shifted(x0: nat, x1: nat, x2: nat)
    requires x0 < Two16 && x1 < Two16 && x2 < Two16
    ensures Int32(Add32(x2 * 0x8000, x1 / 2)) == Joined(x0, x1, x2) / 0x2_0000 < 0x8000_0000
  {
    var r := x2 * 0x8000 + x1 / 2;
    assert Joined(x0, x1, x2) == 0x2_0000 * r + (x0 + Two16 * (x1 % 2));
    assert r < 0x8000_0000;
  }

  lemma SeedLimbs(seed: int)
    ensures Low(seed) + Two16 * High(seed) == seed % Two32
    ensures Low(seed) < Two16 && High(seed) < Two16
  {
    var n, m := seed / Two32, seed % Two32;
    assert seed == Two32 * n + m;
    assert seed / Two16 == Two16 * n + m / Two16;
    assert m / Two16 < Two16;
    Upper(n, m / Two16);
  }

  lemma Upper(n: int, u: nat)
    requires u < Two16
    ensures Low(Two16 * n + u) == u
  {
    var k, l := n / Two16, n % Two16;
    assert Two16 * n + u == Two32 * k + (Two16 * l + u);
    assert (Two16 * n + u) % Two32 == Two16 * l + u;
  }

  class Generator {
    var x0: nat
    var x1: nat
    var x2: nat

    ghost predicate Valid() reads this { x0 < Two16 && x1 < Two16 && x2 < Two16 }

    ghost function Value(): (x: nat)
      requires Valid()
      reads this
      ensures x < Two48
    {
      Joined(x0, x1, x2)
    }

    constructor ()
      ensures Valid() && Value() == 0x1234_ABCD_330E
    {
      x0, x1, x2 := X0, 0xABCD, 0x1234;
    }

    method Next()
      requires Valid()
      modifies this
      ensures Valid() && Value() == Lcg(old(Value()))
    {
      hide Low, High, Mul, Carry, Add32, Mul32, Int32, Lcg, Joined;
      var (p0, p1) := Mul(A0, x0);
      MulExact(A0, x0);
      var carry0 := Carry(p0, C);
      AddCarry(p0, C);
      var s0 := Low(Add32(p0, C));
      var carry1 := Carry(p1, carry0);
      CarryBit(p0, C);
      AddCarry(p1, carry0);
      var s1 := Low(Add32(p1, carry0));
      var (q0, q1) := Mul(A0, x1);
      MulExact(A0, x1);
      var carry2 := Carry(s1, q0);
      AddCarry(s1, q0);
      var s2 := Low(Add32(s1, q0));
      var (r0, r1) := Mul(A1, x0);
      MulExact(A1, x0);
      AddCarry(s2, r0);
      var upper := Add32(Add32(Add32(Add32(carry2, carry1), Carry(s2, r0)), q1), r1);
      upper := Add32(Add32(Add32(upper, Mul32(A0, x2)), Mul32(A1, x1)), Mul32(A2, x0));
      UpperLimb(carry2, carry1, Carry(s2, r0), q1, r1, A0, x2, A1, x1, A2, x0);
      ghost var t := carry2 + carry1 + Carry(s2, r0) + q1 + r1 + A0 * x2 + A1 * x1 + A2 * x0;
      LowLow(s0);
      NextExact(x0, x1, x2, p0, p1, carry0, s0, carry1, s1, q0, q1, carry2, s2, r0, r1, Carry(s2, r0),
                Low(Add32(s2, r0)), t);
      x2 := Low(upper);
      x1 := Low(Add32(s2, r0));
      x0 := Low(s0);
    }

    /** The next state without its low 17 bits. */
    method Lrand48() returns (r: int)
      requires Valid()
      modifies this
      ensures Valid() && Value() == Lcg(old(Value()))
      ensures r == Value() / 0x2_0000 && 0 <= r < 0x8000_0000
    {
      Next();
      hide Int32, Add32, Lcg, Joined;
      Shifted(x0, x1, x2);
      r := Int32(Add32(x2 * 0x8000, x1 / 2));
    }

    /** The 32 bits of the seed become the upper limbs. */
    method Srand48(seed: int)
      requires -0x8000_0000 <= seed < 0x8000_0000
      modifies this
      ensures Valid() && Value() == X0 + Two16 * (seed % Two32)
    {
      hide Low, High;
      SeedLimbs(seed);
      x0, x1, x2 := X0, Low(seed), High(seed);
    }

    /** The numbers that `n` calls give after seeding. */
    method Draw(seed: int, n: nat) returns (out: seq<int>)
      requires -0x8000_0000 <= seed < 0x8000_0000
      modifies this
      ensures |out| == n
      ensures forall k :: 0 <= k < n ==>
              out[k] == Iterate(X0 + Two16 * (seed % Two32), k + 1) / 0x2_0000 && 0 <= out[k] < 0x8000_0000
    {
      Srand48(seed);
      ghost var start := Value();
      out := [];
      while |out| < n
        invariant |out| <= n && Valid() && Value() == Iterate(start, |out|)
        invariant forall k :: 0 <= k < |out| ==> out[k] == Iterate(start, k + 1) / 0x2_0000 && 0 <= out[k] < 0x8000_0000
        decreases n - |out|
      {
        var r := Lrand48();
        out := out + [r];
      }
    }
  }
}
