/** SHA-1 as RFC 3174 defines it, by its first method (section 6.1, with 80 words). */
module Sha1Spec {

  type Byte = bv8
  type Word = bv32

  datatype Hash = Hash(a: Word, b: Word, c: Word, d: Word, e: Word)

  /** Circular left shift (section 3). */
  function Rol(x: Word, n: Word): Word
    requires n <= 32
  {
    (x << n) | (x >> (32 - n))
  }

  function Xor4(p: Word, q: Word, r: Word, s: Word): Word { p ^ q ^ r ^ s }

  /** Addition modulo 2^32. */
  function Plus(x: Word, y: Word): Word { x + y }

  function Sum5(p: Word, q: Word, r: Word, s: Word, t: Word): Word { p + q + r + s + t }

  /** Section 5, the functions. */
  function F(t: nat, b: Word, c: Word, d: Word): Word {
    if t < 20 then (b & c) | (!b & d)
    else if t < 40 then b ^ c ^ d
    else if t < 60 then (b & c) | (b & d) | (c & d)
    else b ^ c ^ d
  }

  /** Section 5, the constants. */
  function K(t: nat): Word {
    if t < 20 then 0x5A827999 else if t < 40 then 0x6ED9EBA1 else if t < 60 then 0x8F1BBCDC else 0xCA62C1D6
  }

  /** Four bytes as a word, the most significant one first (section 2). */
  function BigEndian(p: Byte, q: Byte, r: Byte, s: Byte): Word {
    ((p as Word) << 24) | ((q as Word) << 16) | ((r as Word) << 8) | (s as Word)
  }

  /** Steps a and b of section 6.1: the words of a block. */
  function W(m: seq<Byte>, t: nat): Word
    requires |m| == 64
  {
    if t < 16 then BigEndian(m[4 * t], m[4 * t + 1], m[4 * t + 2], m[4 * t + 3])
    else Rol(Xor4(W(m, t - 3), W(m, t - 8), W(m, t - 14), W(m, t - 16)), 1)
  }

  function Temp(h: Hash, t: nat, w: Word): Word {
    Sum5(Rol(h.a, 5), F(t, h.b, h.c, h.d), h.e, w, K(t))
  }

  /** Steps c and d: the five words after `t` rounds. */
  function Rounds(h: Hash, m: seq<Byte>, t: nat): Hash
    requires |m| == 64
  {
    if t == 0 then h else
    var g := Rounds(h, m, t - 1);
    Hash(Temp(g, t - 1, W(m, t - 1)), g.a, Rol(g.b, 30), g.c, g.d)
  }

  /** Step e. */
  function Compress(h: Hash, m: seq<Byte>): Hash
    requires |m| == 64
  {
    var g := Rounds(h, m, 80);
    Hash(Plus(h.a, g.a), Plus(h.b, g.b), Plus(h.c, g.c), Plus(h.d, g.d), Plus(h.e, g.e))
  }

  const Initial: Hash := Hash(0x67452301, 0xEFCDAB89, 0x98BADCFE, 0x10325476, 0xC3D2E1F0)

  /** All blocks, one after the other. */
  function HashBlocks(h: Hash, s: seq<Byte>): Hash
    requires |s| % 64 == 0
  {
    if s == [] then h else Compress(HashBlocks(h, s[..|s| - 64]), s[|s| - 64..])
  }

  function ToByte(n: nat): Byte
    requires n < 256
  {
    n as Byte
  }

  /** A 64-bit number, the most significant byte first. */
  function LengthField(bits: nat): (s: seq<Byte>)
    ensures |s| == 8
  {
    [ToByte(bits / 0x100_0000_0000_0000 % 256), ToByte(bits / 0x1_0000_0000_0000 % 256),
     ToByte(bits / 0x100_0000_0000 % 256), ToByte(bits / 0x1_0000_0000 % 256),
     ToByte(bits / 0x100_0000 % 256), ToByte(bits / 0x1_0000 % 256), ToByte(bits / 0x100 % 256), ToByte(bits % 256)]
  }

  function Zeros(n: nat): (s: seq<Byte>)
    ensures |s| == n
  {
    seq(n, _ => 0)
  }

  /** How many zero bytes it takes. */
  function ZerosNeeded(n: nat): (k: nat)
    ensures k < 64 && (n + 1 + k) % 64 == 56
  {
    (55 - n) % 64
  }

  /** Section 4: a one bit, as many zeros as it takes, and the length in bits. */
  function PaddedWith(m: seq<Byte>, bits: nat): (s: seq<Byte>)
    ensures |s| % 64 == 0
  {
    m + [0x80] + Zeros(ZerosNeeded(|m|)) + LengthField(bits)
  }

  function Padded(m: seq<Byte>): (s: seq<Byte>)
    ensures |s| % 64 == 0
  {
    PaddedWith(m, 8 * |m|)
  }

  function WordBytes(w: Word): (s: seq<Byte>)
    ensures |s| == 4
  {
    [((w >> 24) & 0xFF) as Byte, ((w >> 16) & 0xFF) as Byte, ((w >> 8) & 0xFF) as Byte, (w & 0xFF) as Byte]
  }

  function DigestOf(h: Hash): (s: seq<Byte>)
    ensures |s| == 20
  {
    WordBytes(h.a) + WordBytes(h.b) + WordBytes(h.c) + WordBytes(h.d) + WordBytes(h.e)
  }

  function Sha1(m: seq<Byte>): (digest: seq<Byte>)
    ensures |digest| == 20
  {
    DigestOf(HashBlocks(Initial, Padded(m)))
  }
}
