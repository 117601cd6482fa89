/** What the building blocks of SHA-1 come to, apart from the algorithm: the constants are square
    roots, the initial words count up and down, the functions choose, add and vote bit by bit, and
    the padding fills the last block. */
module Sha1Facts {
  import opened Sha1Spec

  // ---------------------------------------------------------------------------- constants

  /** The number whose square root the constant of round `t` is. */
  function Radicand(t: nat): nat { if t < 20 then 2 else if t < 40 then 3 else if t < 60 then 5 else 10 }

  /** The constants are the square roots of 2, 3, 5 and 10 with thirty binary places. */
  lemma ConstantsAreRoots(t: nat)
    ensures var k := K(t) as nat; k * k <= Radicand(t) * 0x1000_0000_0000_0000 < (k + 1) * (k + 1)
  {
  }

  /** The bytes of the first four words, the low byte of each first, are the digits from 0 to f two by
      two, and back again; those of the fifth are f0, e1, d2, c3. */
  lemma InitialCounts(j: nat)
    requires j < 4
    ensures WordBytes(Initial.a)[3 - j] as nat == 34 * j + 1
    ensures WordBytes(Initial.b)[3 - j] as nat == 34 * (j + 4) + 1
    ensures WordBytes(Initial.c)[3 - j] as nat == 254 - 34 * j
    ensures WordBytes(Initial.d)[3 - j] as nat == 254 - 34 * (j + 4)
    ensures WordBytes(Initial.e)[3 - j] as nat == 240 - 15 * j
  {
    if j == 0 {} else if j == 1 {} else if j == 2 {} else {}
  }

  // ------------------------------------------------------------------------------ bit by bit

  /** A shift to the left brings back at the low end what it drives out at the high end. */
  lemma RolBy1(x: Word)
    ensures Rol(x, 1) == 2 * x + x / 0x8000_0000
  {
  }

  lemma RolBy5(x: Word)
    ensures Rol(x, 5) == 32 * x + x / 0x800_0000
  {
  }

  lemma RolBy30(x: Word)
    ensures Rol(x, 30) == 0x4000_0000 * x + x / 4
  {
  }

  /** Rounds 0 to 19: the bits of `c` where `b` has ones, and those of `d` where it has zeros. */
  lemma Chooses(b: Word, c: Word, d: Word)
    ensures F(0, b, c, d) & b == c & b && F(0, b, c, d) & !b == d & !b
  {
  }

  /** Rounds 20 to 39 and 60 to 79: the bits that an odd number of words have. */
  lemma Parity(b: Word, c: Word, d: Word)
    ensures F(20, b, c, d) ^ d == b ^ c
  {
  }

  /** Rounds 40 to 59: the bits of `b` where it agrees with `c`, and those of `d` elsewhere. */
  lemma Votes(b: Word, c: Word, d: Word)
    ensures F(40, b, c, d) & !(b ^ c) == b & !(b ^ c) && F(40, b, c, d) & (b ^ c) == d & (b ^ c)
  {
  }

  lemma FunctionOfRound(t: nat, b: Word, c: Word, d: Word)
    ensures F(t, b, c, d) == F(if t < 20 then 0 else if 40 <= t < 60 then 40 else 20, b, c, d)
  {
  }

  /** Addition is symmetric and doubles. */
  lemma PlusAdds(x: Word, y: Word)
    ensures Plus(x, y) == Plus(y, x) && Plus(x, 0) == x && Plus(x, x) == 2 * x
    ensures Plus(0xFFFF_FFFF, 1) == 0
  {
  }

  lemma XorIsUndone(p: Word, q: Word, r: Word, s: Word)
    ensures Xor4(p, q, r, s) ^ s ^ r ^ q == p
  {
  }

  // --------------------------------------------------------------------------------- padding

  /** The last `k` digits of a number to the base of 256, the most significant one first. */
  function Digits(n: nat, k: nat): seq<Byte> {
    if k == 0 then [] else Digits(n / 256, k - 1) + [ToByte(n % 256)]
  }

  /** The padded message is the message, a byte 80, zeros, and its length in bits; it ends with
      a block, and is no longer than it must be. */
  lemma PaddingFills(m: seq<Byte>)
    ensures var p := Padded(m); var n := |p| - 8;
            && |p| % 64 == 0 && |m| + 9 <= |p| < |m| + 9 + 64
            && p[..|m|] == m && p[|m|] == 0x80 && (forall i :: |m| < i < n ==> p[i] == 0)
            && p[n..] == Digits(8 * |m|, 8)
  {
    var p := Padded(m);
    assert p[|p| - 8..] == LengthField(8 * |m|);
    FieldDigits(8 * |m|);
  }

  lemma LastTwo(n: nat, k: nat)
    requires k > 1
    ensures Digits(n, k) == Digits(n / 0x1_0000, k - 2) + [ToByte(n / 0x100 % 256), ToByte(n % 256)]
  {
    hide ToByte;
  }

  lemma Quarters(n: nat)
    ensures n / 0x1_0000 / 0x1_0000 == n / 0x1_0000_0000
    ensures n / 0x1_0000_0000 / 0x1_0000 == n / 0x1_0000_0000_0000
    ensures n / 0x1_0000 / 0x100 == n / 0x100_0000 && n / 0x1_0000_0000 / 0x100 == n / 0x100_0000_0000
    ensures n / 0x1_0000_0000_0000 / 0x100 == n / 0x100_0000_0000_0000
  {
  }

  lemma FieldDigits(bits: nat)
    ensures LengthField(bits) == Digits(bits, 8)
  {
    hide ToByte;
    Quarters(bits);
    LastTwo(bits, 8);
    LastTwo(bits / 0x1_0000, 6);
    LastTwo(bits / 0x1_0000_0000, 4);
    LastTwo(bits / 0x1_0000_0000_0000, 2);
  }
}
