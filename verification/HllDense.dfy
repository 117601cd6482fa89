/** Register values as integers and as bit patterns. */
module HllWord {

  lemma Inc(x: bv8)
    requires x < 63
    ensures (x + 1) as int == x as int + 1
  {
  }

  lemma {:induction false} Pattern(v: nat) returns (x: bv8)
    requires v < 64
    ensures x as int == v && x < 64
  {
    if v == 0 { x := 0; } else { x := Pattern(v - 1); Inc(x); x := x + 1; }
  }

  /** A register value survives the conversion to a byte. */
  lemma AsRegister(v: nat)
    requires v < 64
    ensures (v as bv8) as int == v && v as bv8 < 64
  {
    var x := Pattern(v);
    assert (x as int) as bv8 == x;
  }

  lemma SixBits(x: bv8)
    ensures (x & 63) as int < 64
  {
    assert x & 63 < 64;
  }
}

/** The packed 6-bit registers of the dense HyperLogLog representation. */
module HllDense {
  import W = HllWord

  const HLL_REGISTERS := 16384

  /** The packed registers and the string terminator behind them, which the macros may read
      and rewrite, unchanged, when they access the last register. */
  const DENSE_BYTES := 12289

  /** `HLL_DENSE_GET_REGISTER` on the two bytes it reads, with `fb` the first bit. */
  function GetBits(b0: bv8, b1: bv8, fb: nat): bv8
    requires fb < 8
  {
    ((b0 >> fb) | (b1 << (8 - fb))) & 63
  }

  /** `HLL_DENSE_SET_REGISTER` on the first byte. */
  function SetFirst(b0: bv8, fb: nat, v: bv8): bv8
    requires fb < 8
  {
    (b0 & !(63 << fb)) | (v << fb)
  }

  /** `HLL_DENSE_SET_REGISTER` on the second byte. */
  function SetSecond(b1: bv8, fb: nat, v: bv8): bv8
    requires fb < 8
  {
    (b1 & !(63 >> (8 - fb))) | (v >> (8 - fb))
  }

  predicate IsDense(p: seq<bv8>) {
    |p| == DENSE_BYTES
  }

  function Get(p: seq<bv8>, r: nat): bv8
    requires IsDense(p) && r < HLL_REGISTERS
  {
    GetBits(p[r * 6 / 8], p[r * 6 / 8 + 1], r * 6 % 8)
  }

  function Set(p: seq<bv8>, r: nat, v: bv8): (q: seq<bv8>)
    requires IsDense(p) && r < HLL_REGISTERS
    ensures IsDense(q)
  {
    var b, fb := r * 6 / 8, r * 6 % 8;
    p[b := SetFirst(p[b], fb, v)][b + 1 := SetSecond(p[b + 1], fb, v)]
  }

  // Registers 4q, ..., 4q + 3 occupy exactly the bytes 3q, 3q + 1 and 3q + 2.

  /** Register `i` of a group of four, as the unrolled sum reads it. */
  function GetInGroup(i: nat, a: bv8, b: bv8, c: bv8): bv8
    requires i < 4
  {
    if i == 0 then a & 63
    else if i == 1 then ((a >> 6) | (b << 2)) & 63
    else if i == 2 then ((b >> 4) | (c << 4)) & 63
    else (c >> 2) & 63
  }

  function SetInGroup(i: nat, a: bv8, b: bv8, c: bv8, v: bv8): (bv8, bv8, bv8)
    requires i < 4
  {
    if i == 0 then ((a & 0xC0) | v, b, c)
    else if i == 1 then ((a & 0x3F) | (v << 6), (b & 0xF0) | (v >> 2), c)
    else if i == 2 then (a, (b & 0x0F) | (v << 4), (c & 0xFC) | (v >> 4))
    else (a, b, (c & 0x03) | (v << 2))
  }

  lemma Layout(q: nat, i: nat)
    requires i < 4
    ensures (4 * q + i) * 6 / 8 == 3 * q + (if i < 2 then 0 else i - 1)
    ensures (4 * q + i) * 6 % 8 == if i == 0 then 0 else 8 - 2 * i
  {
    assert (4 * q + i) * 6 == 8 * (3 * q) + 6 * i;
  }

  lemma GetBitsAt(x: bv8, y: bv8)
    ensures GetBits(x, y, 0) == x & 63 && GetBits(x, y, 2) == (x >> 2) & 63
    ensures GetBits(x, y, 4) == ((x >> 4) | (y << 4)) & 63
    ensures GetBits(x, y, 6) == ((x >> 6) | (y << 2)) & 63
  {
  }

  lemma GetByGroup(p: seq<bv8>, q: nat, i: nat)
    requires IsDense(p) && i < 4 && 4 * q + i < HLL_REGISTERS
    ensures Get(p, 4 * q + i) == GetInGroup(i, p[3 * q], p[3 * q + 1], p[3 * q + 2])
  {
    hide GetBits;
    Layout(q, i);
    var b := (4 * q + i) * 6 / 8;
    GetBitsAt(p[b], p[b + 1]);
  }

  lemma SetByGroup(p: seq<bv8>, q: nat, i: nat, v: bv8)
    requires IsDense(p) && i < 4 && 4 * q + i < HLL_REGISTERS && v < 64
    ensures var (a, b, c) := SetInGroup(i, p[3 * q], p[3 * q + 1], p[3 * q + 2], v);
            Set(p, 4 * q + i, v) == p[3 * q := a][3 * q + 1 := b][3 * q + 2 := c]
  {
    hide SetFirst, SetSecond, SetInGroup;
    Layout(q, i);
    var k := (4 * q + i) * 6 / 8;
    var (a, b, c) := SetInGroup(i, p[3 * q], p[3 * q + 1], p[3 * q + 2], v);
    SetBytes(i, p[3 * q], p[3 * q + 1], p[3 * q + 2], p[3 * q + 3], v);
    if i == 0 { assert k == 3 * q; } else if i == 1 { assert k == 3 * q; }
    else if i == 2 { assert k == 3 * q + 1; } else { assert k == 3 * q + 2; }
  }

  lemma SetLow(a: bv8, b: bv8, v: bv8)
    requires v < 64
    ensures SetFirst(a, 0, v) == (a & 0xC0) | v && SetSecond(b, 0, v) == b
    ensures SetFirst(a, 6, v) == (a & 0x3F) | (v << 6) && SetSecond(b, 6, v) == (b & 0xF0) | (v >> 2)
  {
  }

  lemma SetHigh(a: bv8, b: bv8, v: bv8)
    requires v < 64
    ensures SetFirst(a, 4, v) == (a & 0x0F) | (v << 4) && SetSecond(b, 4, v) == (b & 0xFC) | (v >> 4)
    ensures SetFirst(a, 2, v) == (a & 0x03) | (v << 2) && SetSecond(b, 2, v) == b
  {
  }

  /** The two bytes that are rewritten, among the four that may be. */
  lemma SetBytes(i: nat, a: bv8, b: bv8, c: bv8, d: bv8, v: bv8)
    requires i < 4 && v < 64
    ensures var (x, y, z) := SetInGroup(i, a, b, c, v);
            if i == 0 then x == SetFirst(a, 0, v) && y == b == SetSecond(b, 0, v) && z == c
            else if i == 1 then x == SetFirst(a, 6, v) && y == SetSecond(b, 6, v) && z == c
            else if i == 2 then x == a && y == SetFirst(b, 4, v) && z == SetSecond(c, 4, v)
            else x == a && y == b && z == SetFirst(c, 2, v) && d == SetSecond(d, 2, v)
  {
    if i < 2 { SetLow(a, b, v); } else if i == 2 { SetHigh(b, c, v); } else { SetHigh(c, d, v); }
  }

  lemma OneInGroup(i: nat, a: bv8, b: bv8, c: bv8, v: bv8, j: nat)
    requires i < 4 && j < 4 && v < 64
    ensures var (x, y, z) := SetInGroup(i, a, b, c, v);
            GetInGroup(j, x, y, z) == if i == j then v else GetInGroup(j, a, b, c)
  {
    if i == 0 {} else if i == 1 {} else if i == 2 {} else {}
  }

  lemma GetBound(p: seq<bv8>, r: nat)
    requires IsDense(p) && r < HLL_REGISTERS
    ensures Get(p, r) as int < 64
  {
    var b, fb := r * 6 / 8, r * 6 % 8;
    W.SixBits((p[b] >> fb) | (p[b + 1] << (8 - fb)));
  }

  /** Read over write, for every pair of registers. */
  lemma ReadOverWrite(p: seq<bv8>, r: nat, v: bv8, s: nat)
    requires IsDense(p) && r < HLL_REGISTERS && s < HLL_REGISTERS && v < 64
    ensures Get(Set(p, r, v), s) == if r == s then v else Get(p, s)
  {
    hide Get, Set, GetInGroup, SetInGroup;
    var q, i, t, j := r / 4, r % 4, s / 4, s % 4;
    SetByGroup(p, q, i, v);
    GetByGroup(p, t, j);
    GetByGroup(Set(p, r, v), t, j);
    OneInGroup(i, p[3 * q], p[3 * q + 1], p[3 * q + 2], v, j);
  }
}
