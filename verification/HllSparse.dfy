/** The run-length representation: opcodes ZERO `00xxxxxx`, XZERO `01xxxxxx yyyyyyyy` and
    VAL `1vvvvvxx`, and the registers that a string of opcodes stands for.  The fields of an
    opcode byte are disjoint bit ranges, written here as quotients and remainders. */
module HllSparse {
  import opened Bytes

  const VAL_MAX_VALUE := 32
  const VAL_MAX_LEN := 4
  const ZERO_MAX_LEN := 64
  const XZERO_MAX_LEN := 16384

  // ----------------------------------------------------------------------- the macros

  predicate IsZero(p: byte) { p < 64 }
  predicate IsXZero(p: byte) { 64 <= p < 128 }
  predicate IsVal(p: byte) { p >= 128 }

  function ZeroLen(p: int): int { p % 64 + 1 }
  function XZeroLen(p: int, q: int): int { p % 64 * 256 + q + 1 }
  function ValValue(p: int): int { p / 4 % 32 + 1 }
  function ValLen(p: int): int { p % 4 + 1 }

  function ValSet(val: nat, len: nat): byte
    requires 1 <= val <= VAL_MAX_VALUE && 1 <= len <= VAL_MAX_LEN
  {
    (val - 1) * 4 + (len - 1) + 128
  }

  function ZeroSet(len: nat): seq<byte>
    requires 1 <= len <= ZERO_MAX_LEN
  {
    [len - 1]
  }

  function XZeroSet(len: nat): seq<byte>
    requires 1 <= len <= XZERO_MAX_LEN
  {
    [(len - 1) / 256 + 64, (len - 1) % 256]
  }

  // ------------------------------------------------------------------ what they stand for

  function Repeat(v: nat, n: nat): (r: seq<nat>)
    ensures |r| == n && forall i :: 0 <= i < n ==> r[i] == v
  {
    seq(n, _ => v)
  }

  function OpSize(s: seq<byte>): (n: nat)
    requires s != []
    ensures 1 <= n <= 2
  {
    if IsXZero(s[0]) then 2 else 1
  }

  /** Number of registers covered by the opcode at the head of `s`. */
  function OpLen(s: seq<byte>): (n: nat)
    requires s != [] && OpSize(s) <= |s|
    ensures 1 <= n <= XZERO_MAX_LEN
  {
    if IsZero(s[0]) then ZeroLen(s[0]) else if IsXZero(s[0]) then XZeroLen(s[0], s[1]) else ValLen(s[0])
  }

  /** Value of those registers. */
  function OpValue(s: seq<byte>): (v: nat)
    requires s != []
    ensures v <= VAL_MAX_VALUE
  {
    if IsVal(s[0]) then ValValue(s[0]) else 0
  }

  /** The registers covered by the opcode at the head of `s`. */
  function OpRegs(s: seq<byte>): (r: seq<nat>)
    requires s != [] && OpSize(s) <= |s|
  {
    Repeat(OpValue(s), OpLen(s))
  }

  /** `s` is a string of complete opcodes. */
  predicate Formed(s: seq<byte>)
    decreases |s|
  {
    s != [] ==> OpSize(s) <= |s| && Formed(s[OpSize(s)..])
  }

  function Decode(s: seq<byte>): (regs: seq<nat>)
    requires Formed(s)
    decreases |s|
  {
    if s == [] then [] else OpRegs(s) + Decode(s[OpSize(s)..])
  }

  lemma DecodeHead(s: seq<byte>)
    requires s != [] && OpSize(s) <= |s| && Formed(s[OpSize(s)..])
    ensures Formed(s) && Decode(s) == OpRegs(s) + Decode(s[OpSize(s)..])
  {
  }

  lemma FormedHead(s: seq<byte>)
    requires s != [] && Formed(s)
    ensures OpSize(s) <= |s| && Formed(s[OpSize(s)..])
  {
  }

  lemma DecodeNothing()
    ensures Formed([]) && Decode([]) == []
  {
  }

  lemma HeadOfConcat(a: seq<byte>, b: seq<byte>)
    requires a != [] && OpSize(a) <= |a|
    ensures OpSize(a + b) == OpSize(a) && OpRegs(a + b) == OpRegs(a)
  {
    assert (a + b)[0] == a[0];
  }

  lemma {:induction false} DecodeConcat(a: seq<byte>, b: seq<byte>)
    requires Formed(a) && Formed(b)
    ensures Formed(a + b) && Decode(a + b) == Decode(a) + Decode(b)
    decreases |a|
  {
    hide OpRegs, OpSize, Formed, Decode;
    if a == [] {
      DecodeNothing();
      assert a + b == b;
    } else {
      var k := OpSize(a);
      FormedHead(a);
      HeadOfConcat(a, b);
      DecodeConcat(a[k..], b);
      assert (a + b)[k..] == a[k..] + b;
      DecodeHead(a);
      DecodeHead(a + b);
    }
  }

  /** A position between two opcodes of `s`. */
  predicate Boundary(s: seq<byte>, p: nat) {
    p <= |s| && Formed(s[..p]) && Formed(s[p..])
  }

  lemma AtBoundary(s: seq<byte>, p: nat)
    requires Boundary(s, p)
    ensures Formed(s) && Decode(s) == Decode(s[..p]) + Decode(s[p..])
  {
    DecodeConcat(s[..p], s[p..]);
    assert s == s[..p] + s[p..];
  }

  lemma OneOp(s: seq<byte>)
    requires s != [] && |s| == OpSize(s)
    ensures Formed(s) && Decode(s) == OpRegs(s)
  {
    hide OpRegs;
    assert s[OpSize(s)..] == [];
  }

  lemma OpPrefix(s: seq<byte>)
    requires s != [] && OpSize(s) <= |s|
    ensures OpSize(s[..OpSize(s)]) == OpSize(s) && OpRegs(s[..OpSize(s)]) == OpRegs(s)
  {
  }

  /** The boundary after the opcode at `p`. */
  lemma NextBoundary(s: seq<byte>, p: nat)
    requires Boundary(s, p) && p < |s|
    ensures OpSize(s[p..]) <= |s| - p
    ensures var k := OpSize(s[p..]);
            && Boundary(s, p + k)
            && Decode(s[..p + k]) == Decode(s[..p]) + OpRegs(s[p..])
            && Decode(s[p..]) == OpRegs(s[p..]) + Decode(s[p + k..])
  {
    hide OpRegs, OpSize;
    var k := OpSize(s[p..]);
    assert s[p..][k..] == s[p + k..];
    var op := s[p..p + k];
    OpPrefix(s[p..]);
    assert op == s[p..][..k];
    OneOp(op);
    DecodeConcat(s[..p], op);
    assert s[..p] + op == s[..p + k];
  }

  /** Replacing whole opcodes replaces their registers. */
  lemma Substitute(s: seq<byte>, p: nat, k: nat, n: seq<byte>)
    requires Boundary(s, p) && Boundary(s, p + k) && Formed(n)
    ensures var s' := s[..p] + n + s[p + k..];
            && Boundary(s', p) && s'[..p] == s[..p] && s'[p..] == n + s[p + k..]
            && Formed(s')
            && Decode(s') == Decode(s[..p]) + Decode(n) + Decode(s[p + k..])
  {
    hide Decode, Formed;
    var s' := s[..p] + n + s[p + k..];
    DecodeConcat(n, s[p + k..]);
    assert s'[..p] == s[..p] && s'[p..] == n + s[p + k..];
    AtBoundary(s', p);
  }
}
