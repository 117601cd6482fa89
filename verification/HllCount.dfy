/** The three register sums behind the cardinality estimate, one per encoding, over exact
    rationals: all compute the sum and the zero count of the represented registers. */
module HllCount {
  import opened Bytes
  import opened HllRegisters
  import opened HllSparse
  import opened HllSparseAdd
  import opened HllObject
  import D = HllDense

  function IfZero(v: nat): nat { if v == 0 then 1 else 0 }

  type Quadruple = (nat, nat, nat, nat)

  function QuadSum(q: Quadruple): real { (PE(q.0) + PE(q.1)) + (PE(q.2) + PE(q.3)) }

  function QuadZeros(q: Quadruple): nat { IfZero(q.0) + IfZero(q.1) + IfZero(q.2) + IfZero(q.3) }

  function At(regs: seq<nat>, k: nat): Quadruple
    requires k + 4 <= |regs|
  {
    (regs[k], regs[k + 1], regs[k + 2], regs[k + 3])
  }

  lemma SumFour(regs: seq<nat>, k: nat)
    requires k + 4 <= |regs|
    ensures Sum(regs[..k + 4]) == Sum(regs[..k]) + QuadSum(At(regs, k))
    ensures Zeros(regs[..k + 4]) == Zeros(regs[..k]) + QuadZeros(At(regs, k))
  {
    hide PE, Sum, Zeros;
    SumNext(regs, k);
    SumNext(regs, k + 1);
    SumNext(regs, k + 2);
    SumNext(regs, k + 3);
  }

  /** Four registers from the three bytes at `o`, as in lines 518-521. */
  function Quad(p: seq<bv8>, o: nat): Quadruple
    requires o + 2 < |p|
  {
    ((p[o] & 63) as int,
     (((p[o] >> 6) | (p[o + 1] << 2)) & 63) as int,
     (((p[o + 1] >> 4) | (p[o + 2] << 4)) & 63) as int,
     ((p[o + 2] >> 2) & 63) as int)
  }

  lemma QuadRegs(p: seq<bv8>, q: nat)
    requires D.IsDense(p) && 4 * q + 3 < HLL_REGISTERS
    ensures Quad(p, 3 * q) == At(DenseRegs(p), 4 * q)
  {
    hide D.Get;
    D.GetByGroup(p, q, 0);
    D.GetByGroup(p, q, 1);
    D.GetByGroup(p, q, 2);
    D.GetByGroup(p, q, 3);
  }

  /** `hllDenseSum`: sixteen registers, in twelve bytes, per iteration. */
  method DenseSum(p: seq<bv8>) returns (e: real, ez: nat)
    requires D.IsDense(p)
    ensures e == Sum(DenseRegs(p)) && ez == Zeros(DenseRegs(p))
  {
    hide Sum, Zeros, DenseRegs, Quad, QuadSum, QuadZeros, At;
    ghost var regs := DenseRegs(p);
    e, ez := 0.0, 0;
    var j, r := 0, 0;
    SumStart(regs);
    while j < 1024
      invariant 0 <= j <= 1024 && r == 12 * j
      invariant e == Sum(regs[..16 * j]) && ez == Zeros(regs[..16 * j])
    {
      ghost var q := 4 * j;
      QuadRegs(p, q); QuadRegs(p, q + 1); QuadRegs(p, q + 2); QuadRegs(p, q + 3);
      SumFour(regs, 4 * q); SumFour(regs, 4 * q + 4); SumFour(regs, 4 * q + 8); SumFour(regs, 4 * q + 12);
      var r0, r4, r8, r12 := Quad(p, r), Quad(p, r + 3), Quad(p, r + 6), Quad(p, r + 9);
      ez := ez + QuadZeros(r0) + QuadZeros(r4) + QuadZeros(r8) + QuadZeros(r12);
      e := e + QuadSum(r0) + QuadSum(r4) + QuadSum(r8) + QuadSum(r12);
      r := r + 12;
      j := j + 1;
    }
    assert regs[..16 * 1024] == regs;
  }

  lemma SumStart(regs: seq<nat>)
    ensures Sum(regs[..0]) == 0.0 && Zeros(regs[..0]) == 0
  {
  }

  /** `hllSparseSum`: zeros are counted and added at the end; the format is never found invalid. */
  method SparseSum(ops: seq<byte>) returns (e: real, ez: nat, invalid: bool)
    requires Covers(ops)
    ensures e == Sum(Decode(ops)) && ez == Zeros(Decode(ops)) && !invalid
  {
    hide Decode, Formed, PE, Sum, Zeros;
    e, ez := 0.0, 0;
    var idx, p := 0, 0;
    FirstBoundary(ops);
    SumStart(ops[..0]);
    assert ops[..0] == [];
    while p < |ops|
      invariant Boundary(ops, p) && idx == |Decode(ops[..p])|
      invariant e + ez as real == Sum(Decode(ops[..p])) && ez == Zeros(Decode(ops[..p]))
    {
      NextBoundary(ops, p);
      SumOpcode(Decode(ops[..p]), ops[p..]);
      if IsZero(ops[p]) {
        var runlen := ZeroLen(ops[p]);
        idx, ez := idx + runlen, ez + runlen;
        p := p + 1;
      } else if IsXZero(ops[p]) {
        var runlen := XZeroLen(ops[p], ops[p + 1]);
        idx, ez := idx + runlen, ez + runlen;
        p := p + 2;
      } else {
        var runlen, regval := ValLen(ops[p]), ValValue(ops[p]);
        idx := idx + runlen;
        e := e + PE(regval) * runlen as real;
        p := p + 1;
      }
    }
    assert ops[..p] == ops;
    invalid := idx != HLL_REGISTERS;
    e := e + ez as real;
  }

  lemma SumOpcode(done: seq<nat>, s: seq<byte>)
    requires s != [] && OpSize(s) <= |s|
    ensures Sum(done + OpRegs(s)) == Sum(done) +
            (if OpValue(s) == 0 then OpLen(s) as real else PE(OpValue(s)) * OpLen(s) as real)
    ensures Zeros(done + OpRegs(s)) == Zeros(done) + if OpValue(s) == 0 then OpLen(s) else 0
  {
    hide PE, Sum, Zeros, OpLen, OpValue;
    SumConcat(done, OpRegs(s));
    SumRepeat(OpRegs(s), OpValue(s));
    PEZero();
  }

  /** One byte of a word that is not all zeros (lines 955-962). */
  method AddRegister(e: real, ez: nat, v: nat) returns (e': real, ez': nat)
    ensures e' + ez' as real == e + ez as real + PE(v) && ez' == ez + IfZero(v)
  {
    hide PE;
    PEZero();
    if v != 0 { return e + PE(v), ez; } else { return e, ez + 1; }
  }

  /** `hllRawSum`: one register per byte; a word of eight zero bytes is skipped at once. */
  method RawSum(raw: seq<byte>) returns (e: real, ez: nat)
    requires |raw| == HLL_REGISTERS
    ensures e == Sum(raw) && ez == Zeros(raw)
  {
    hide PE, Sum, Zeros;
    e, ez := 0.0, 0;
    var j := 0;
    SumStart(raw);
    while j < HLL_REGISTERS / 8
      invariant 0 <= j <= HLL_REGISTERS / 8
      invariant e + ez as real == Sum(raw[..8 * j]) && ez == Zeros(raw[..8 * j])
    {
      var w := 8 * j;
      SumFour(raw, w);
      SumFour(raw, w + 4);
      PEZero();
      if raw[w] == 0 && raw[w + 1] == 0 && raw[w + 2] == 0 && raw[w + 3] == 0
         && raw[w + 4] == 0 && raw[w + 5] == 0 && raw[w + 6] == 0 && raw[w + 7] == 0
      {
        ez := ez + 8;
      } else {
        e, ez := AddRegister(e, ez, raw[w]);
        e, ez := AddRegister(e, ez, raw[w + 1]);
        e, ez := AddRegister(e, ez, raw[w + 2]);
        e, ez := AddRegister(e, ez, raw[w + 3]);
        e, ez := AddRegister(e, ez, raw[w + 4]);
        e, ez := AddRegister(e, ez, raw[w + 5]);
        e, ez := AddRegister(e, ez, raw[w + 6]);
        e, ez := AddRegister(e, ez, raw[w + 7]);
      }
      j := j + 1;
    }
    assert raw[..8 * (HLL_REGISTERS / 8)] == raw;
    e := e + ez as real;
  }

  lemma PEZero()
    ensures PE(0) == 1.0
  {
  }
}
