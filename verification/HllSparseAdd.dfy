/** The steps of `hllSparseAdd` on the opcode string: locating the opcode that covers a
    register, splitting it, and merging adjacent VAL opcodes. */
module HllSparseAdd {
  import opened Bytes
  import opened HllSparse
  import opened HllRegisters

  /** A well-formed opcode string that covers exactly the 16384 registers. */
  predicate Covers(s: seq<byte>) {
    Formed(s) && |Decode(s)| == HLL_REGISTERS
  }

  lemma FirstBoundary(s: seq<byte>)
    requires Formed(s)
    ensures Boundary(s, 0) && Decode(s[..0]) == []
  {
    assert s[..0] == [] && s[0..] == s;
  }

  /** The opcode string is not exhausted before all registers are covered. */
  lemma NotAtEnd(s: seq<byte>, p: nat)
    requires Covers(s) && Boundary(s, p) && |Decode(s[..p])| < HLL_REGISTERS
    ensures p < |s|
  {
    hide Decode, Formed;
    assert s[..|s|] == s;
  }

  /** Step 1 (lines 668-697): `p` is the opcode that covers `index`, `first` the first
      register it covers, and `prev` the preceding opcode, if any.  The invalid-format result
      of line 697 does not occur. */
  method Locate(s: seq<byte>, index: nat) returns (p: nat, first: nat, span: nat, prev: int)
    requires Covers(s) && index < HLL_REGISTERS
    ensures p < |s| && Boundary(s, p) && |Decode(s[..p])| == first
    ensures OpSize(s[p..]) <= |s| - p && span == OpLen(s[p..]) && first <= index < first + span
    ensures prev == -1 ==> p == 0
    ensures prev != -1 ==> 0 <= prev < p && Boundary(s, prev) && prev + OpSize(s[prev..]) == p
  {
    hide Decode, Formed;
    p, first, span, prev := 0, 0, 0, -1;
    FirstBoundary(s);
    NotAtEnd(s, p);
    while p < |s|
      invariant p < |s| && Boundary(s, p) && |Decode(s[..p])| == first <= index
      invariant prev == -1 ==> p == 0
      invariant prev != -1 ==> 0 <= prev < p && Boundary(s, prev) && prev + OpSize(s[prev..]) == p
    {
      NextBoundary(s, p);
      var oplen := 1;
      if IsZero(s[p]) {
        span := ZeroLen(s[p]);
      } else if IsVal(s[p]) {
        span := ValLen(s[p]);
      } else {
        span := XZeroLen(s[p], s[p + 1]);
        oplen := 2;
      }
      if index <= first + span - 1 { return; }
      prev := p;
      p := p + oplen;
      first := first + span;
      NotAtEnd(s, p);
    }
    assert false;
  }

  /** The ZERO or XZERO opcode for a run of zeros (lines 781-788 and 794-801). */
  function ZeroRun(len: nat): (n: seq<byte>)
    requires 1 <= len <= XZERO_MAX_LEN
  {
    if len > ZERO_MAX_LEN then XZeroSet(len) else ZeroSet(len)
  }

  lemma ZeroRunRegs(len: nat)
    requires 1 <= len <= XZERO_MAX_LEN
    ensures Formed(ZeroRun(len)) && Decode(ZeroRun(len)) == Repeat(0, len)
    ensures 1 <= |ZeroRun(len)| <= 2
  {
    OneOp(ZeroRun(len));
  }

  lemma ValFields(val: nat, len: nat)
    requires 1 <= val <= VAL_MAX_VALUE && 1 <= len <= VAL_MAX_LEN
    ensures IsVal(ValSet(val, len)) && ValValue(ValSet(val, len)) == val && ValLen(ValSet(val, len)) == len
  {
  }

  lemma ValRegs(val: nat, len: nat)
    requires 1 <= val <= VAL_MAX_VALUE && 1 <= len <= VAL_MAX_LEN
    ensures Formed([ValSet(val, len)]) && Decode([ValSet(val, len)]) == Repeat(val, len)
  {
    hide Formed, Decode, ValSet, ValValue, ValLen;
    ValFields(val, len);
    OneOp([ValSet(val, len)]);
  }

  /** The opcode for part of a run with the value of `op` (the two halves of a split). */
  function Part(op: seq<byte>, len: nat): (n: seq<byte>)
    requires op != [] && |op| == OpSize(op) && 1 <= len <= OpLen(op)
  {
    if IsVal(op[0]) then [ValSet(ValValue(op[0]), len)] else ZeroRun(len)
  }

  lemma PartRegs(op: seq<byte>, len: nat)
    requires op != [] && |op| == OpSize(op) && 1 <= len <= OpLen(op)
    ensures Formed(Part(op, len)) && Decode(Part(op, len)) == Repeat(OpValue(op), len)
    ensures 1 <= |Part(op, len)| <= 2
  {
    if IsVal(op[0]) { ValRegs(ValValue(op[0]), len); } else { ZeroRunRegs(len); }
  }

  /** Step 2, cases B, C and D (lines 739-820): the opcodes that replace `op` when register
      `d` of those it covers is raised to `count`. */
  method SplitOp(op: seq<byte>, d: nat, count: nat) returns (n: seq<byte>)
    requires op != [] && |op| == OpSize(op) && d < OpLen(op)
    requires OpValue(op) < count <= VAL_MAX_VALUE
    ensures Formed(n) && Decode(n) == OpRegs(op)[d := count]
    ensures 1 <= |n| <= 5
  {
    hide Decode, Formed, ValSet, Part;
    var span := OpLen(op);
    var mid := [ValSet(count, 1)];
    ValRegs(count, 1);
    ghost var v := OpValue(op);
    if (IsVal(op[0]) || IsZero(op[0])) && span == 1 {
      n := mid;
      assert OpRegs(op)[d := count] == Repeat(count, 1);
      return;
    }
    n := mid;
    if d != 0 {
      PartRegs(op, d);
      DecodeConcat(Part(op, d), mid);
      n := Part(op, d) + mid;
    }
    assert Decode(n) == Repeat(v, d) + Repeat(count, 1);
    if d != span - 1 {
      PartRegs(op, span - 1 - d);
      DecodeConcat(n, Part(op, span - 1 - d));
      n := n + Part(op, span - 1 - d);
    }
    assert OpRegs(op)[d := count] == Repeat(v, d) + Repeat(count, 1) + Repeat(v, span - 1 - d);
  }

  /** Two VAL opcodes of one value are the same as one longer opcode. */
  lemma MergeTwo(a: byte, b: byte)
    requires IsVal(a) && IsVal(b) && ValValue(a) == ValValue(b) && ValLen(a) + ValLen(b) <= VAL_MAX_LEN
    ensures Formed([a]) && Formed([b]) && Formed([a, b])
    ensures var m := [ValSet(ValValue(a), ValLen(a) + ValLen(b))]; Formed(m) && Decode(m) == Decode([a, b])
  {
    OneOp([a]);
    OneOp([b]);
    DecodeConcat([a], [b]);
    assert [a] + [b] == [a, b];
    ValRegs(ValValue(a), ValLen(a) + ValLen(b));
  }

  /** Two VAL opcodes that the scan merges. */
  predicate Mergeable(s: seq<byte>, p: nat) {
    && p + 1 < |s| && IsVal(s[p]) && IsVal(s[p + 1])
    && ValValue(s[p]) == ValValue(s[p + 1]) && ValLen(s[p]) + ValLen(s[p + 1]) <= VAL_MAX_LEN
  }

  /** None of the `n` opcodes from `p` on can be merged with its successor. */
  predicate NoneMergeable(s: seq<byte>, p: nat, n: nat)
    decreases n
  {
    n == 0 || p >= |s| || (!Mergeable(s, p) && NoneMergeable(s, p + OpSize(s[p..]), n - 1))
  }

  /** `s` is what the scan from `p` makes of `s0`: it has the same registers, and is shorter exactly if
      one of five opcodes can be merged. */
  ghost predicate Scanned(s0: seq<byte>, p: nat, s: seq<byte>) {
    && Formed(s0) && Formed(s) && Decode(s) == Decode(s0)
    && |s| <= |s0| && (|s| == |s0| ==> s == s0) && (s == s0 <==> NoneMergeable(s0, p, 5))
  }

  lemma ScannedRegs(s0: seq<byte>, p: nat, s: seq<byte>)
    requires Scanned(s0, p, s)
    ensures Formed(s0) && Formed(s) && Decode(s) == Decode(s0) && |s| <= |s0|
  {
  }

  /** Step 4 (lines 843-874): up to five opcodes from `p` are looked at, and adjacent VAL
      opcodes are merged; no register changes.  The string is left as it is only if none of
      these opcodes can be merged, and every merge shortens it. */
  method MergeScan(s0: seq<byte>, p0: nat) returns (s: seq<byte>)
    requires Boundary(s0, p0)
    ensures Scanned(s0, p0, s)
  {
    hide Decode, Formed, ValSet;
    AtBoundary(s0, p0);
    s := s0;
    var p: nat, scanlen: nat := p0, 5;
    while p < |s| && scanlen > 0
      invariant Boundary(s, p) && Formed(s) && Decode(s) == Decode(s0) && |s| <= |s0|
      invariant |s| == |s0| ==> s == s0 && (NoneMergeable(s0, p0, 5) <==> NoneMergeable(s0, p, scanlen))
      invariant |s| < |s0| ==> !NoneMergeable(s0, p0, 5)
      decreases scanlen
    {
      scanlen := scanlen - 1;
      NextBoundary(s, p);
      if IsXZero(s[p]) {
        p := p + 2;
      } else if IsZero(s[p]) {
        p := p + 1;
      } else {
        var merged := false;
        if p + 1 < |s| && IsVal(s[p + 1]) {
          var v1, v2 := ValValue(s[p]), ValValue(s[p + 1]);
          if v1 == v2 {
            var len := ValLen(s[p]) + ValLen(s[p + 1]);
            if len <= VAL_MAX_LEN {
              MergeAt(s, p);
              s := s[..p] + [ValSet(v1, len)] + s[p + 2..];
              merged := true;
            }
          }
        }
        if !merged { p := p + 1; }
      }
    }
  }

  lemma MergeAt(s: seq<byte>, p: nat)
    requires Boundary(s, p) && p + 1 < |s| && IsVal(s[p]) && IsVal(s[p + 1])
    requires ValValue(s[p]) == ValValue(s[p + 1]) && ValLen(s[p]) + ValLen(s[p + 1]) <= VAL_MAX_LEN
    ensures var s' := s[..p] + [ValSet(ValValue(s[p]), ValLen(s[p]) + ValLen(s[p + 1]))] + s[p + 2..];
            Formed(s) && Boundary(s', p) && Formed(s') && Decode(s') == Decode(s)
  {
    hide Decode, Formed, ValSet;
    NextBoundary(s, p);
    NextBoundary(s, p + 1);
    MergeTwo(s[p], s[p + 1]);
    var m := [ValSet(ValValue(s[p]), ValLen(s[p]) + ValLen(s[p + 1]))];
    assert s[p..p + 2] == [s[p], s[p + 1]];
    Substitute(s, p, 2, m);
    Substitute(s, p, 2, s[p..p + 2]);
    assert s == s[..p] + s[p..p + 2] + s[p + 2..];
  }
}
