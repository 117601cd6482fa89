/** The HyperLogLog string object: a header with a cached cardinality, followed by the
    registers in the sparse or the dense representation, updated in place. */
module HllObject {
  import opened Bytes
  import opened HllRegisters
  import opened HllSparse
  import opened HllSparseAdd
  import D = HllDense

  const HLL_HDR_SIZE := 16
  const CACHE_INVALID: bv64 := 0x8000_0000_0000_0000

  datatype Repr = Sparse(ops: seq<byte>) | Dense(packed: seq<bv8>) {
    predicate Valid() {
      match this
      case Sparse(ops) => Covers(ops)
      case Dense(packed) => D.IsDense(packed)
    }

    /** The registers that are represented. */
    function Regs(): (regs: seq<nat>)
      requires Valid()
      ensures |regs| == HLL_REGISTERS
    {
      match this
      case Sparse(ops) => Decode(ops)
      case Dense(packed) => DenseRegs(packed)
    }
  }

  function DenseRegs(packed: seq<bv8>): (regs: seq<nat>)
    requires D.IsDense(packed)
    ensures |regs| == HLL_REGISTERS
  {
    seq(HLL_REGISTERS, i requires 0 <= i < HLL_REGISTERS => D.Get(packed, i) as int)
  }

  /** Writing a packed register updates that register alone. */
  lemma DenseSetRegs(packed: seq<bv8>, i: nat, v: nat)
    requires D.IsDense(packed) && i < HLL_REGISTERS && v < 64
    ensures DenseRegs(D.Set(packed, i, v as bv8)) == DenseRegs(packed)[i := v]
  {
    hide D.Get, D.Set;
    D.W.AsRegister(v);
    var lhs, rhs := DenseRegs(D.Set(packed, i, v as bv8)), DenseRegs(packed)[i := v];
    forall j | 0 <= j < HLL_REGISTERS ensures lhs[j] == rhs[j] {
      D.ReadOverWrite(packed, i, v as bv8, j);
    }
  }

  lemma {:induction false} DecodeBound(s: seq<byte>)
    requires Formed(s)
    ensures forall i :: 0 <= i < |Decode(s)| ==> Decode(s)[i] <= VAL_MAX_VALUE
    decreases |s|
  {
    if s != [] {
      DecodeBound(s[OpSize(s)..]);
    }
  }

  /** The main loop of `hllSparseToDense` (lines 592-612). */
  method Unpack(ops: seq<byte>) returns (packed: seq<bv8>)
    requires Covers(ops)
    ensures D.IsDense(packed) && DenseRegs(packed) == Decode(ops)
  {
    hide Decode, Formed, D.Set, D.Get;
    packed := seq(D.DENSE_BYTES, _ => 0);
    ZeroDense(packed);
    var p, idx := 0, 0;
    FirstBoundary(ops);
    while p < |ops|
      invariant Boundary(ops, p) && idx == |Decode(ops[..p])| <= HLL_REGISTERS
      invariant D.IsDense(packed) && DenseRegs(packed) == Decode(ops[..p]) + Repeat(0, HLL_REGISTERS - idx)
    {
      NextBoundary(ops, p);
      ghost var done, op := Decode(ops[..p]), ops[p..];
      AtBoundary(ops, p + OpSize(op));
      if IsZero(ops[p]) {
        idx := idx + ZeroLen(ops[p]);
        p := p + 1;
      } else if IsXZero(ops[p]) {
        idx := idx + XZeroLen(ops[p], ops[p + 1]);
        p := p + 2;
      } else {
        var runlen, regval := ValLen(ops[p]), ValValue(ops[p]);
        ghost var k := 0;
        while runlen > 0
          invariant 0 <= runlen && k + runlen == ValLen(ops[p]) && idx == |done| + k
          invariant D.IsDense(packed)
          invariant DenseRegs(packed) == done + Repeat(regval, k) + Repeat(0, HLL_REGISTERS - idx)
        {
          runlen := runlen - 1;
          DenseSetRegs(packed, idx, regval);
          packed := D.Set(packed, idx, regval as bv8);
          idx, k := idx + 1, k + 1;
        }
        p := p + 1;
      }
    }
    assert ops[..p] == ops;
  }

  lemma ZeroDense(packed: seq<bv8>)
    requires D.IsDense(packed) && forall i :: 0 <= i < |packed| ==> packed[i] == 0
    ensures DenseRegs(packed) == Repeat(0, HLL_REGISTERS)
  {
    forall r | 0 <= r < HLL_REGISTERS ensures D.Get(packed, r) == 0 {
      D.GetByGroup(packed, r / 4, r % 4);
    }
  }

  /** The opcode at `p` gives register `index` its value. */
  lemma OpcodeAt(s: seq<byte>, p: nat, index: nat)
    requires Boundary(s, p) && p < |s|
    requires |Decode(s[..p])| <= index
    ensures OpSize(s[p..]) <= |s| - p
    ensures var op := s[p..p + OpSize(s[p..])];
            && |op| == OpSize(op) && OpRegs(op) == OpRegs(s[p..]) && Formed(s)
            && (index < |Decode(s[..p])| + OpLen(s[p..]) ==> index < |Decode(s)| && Decode(s)[index] == OpValue(op))
  {
    hide Decode, Formed;
    NextBoundary(s, p);
    AtBoundary(s, p);
    OpPrefix(s[p..]);
    var k := OpSize(s[p..]);
    assert s[p..p + k] == s[p..][..k];
  }

  /** Substituting the split opcode changes register `index` alone. */
  lemma RegisterRaised(s: seq<byte>, p: nat, index: nat, n: seq<byte>, count: nat)
    requires Boundary(s, p) && p < |s| && OpSize(s[p..]) <= |s| - p && Formed(n)
    requires 0 <= index - |Decode(s[..p])| < |OpRegs(s[p..])|
    requires Decode(n) == OpRegs(s[p..])[index - |Decode(s[..p])| := count]
    ensures var s' := s[..p] + n + s[p + OpSize(s[p..])..];
            && Formed(s) && Formed(s') && Boundary(s', p) && s'[..p] == s[..p]
            && index < |Decode(s)| && Decode(s') == Decode(s)[index := count]
  {
    hide Decode, Formed, OpRegs;
    var k := OpSize(s[p..]);
    NextBoundary(s, p);
    AtBoundary(s, p);
    Substitute(s, p, k, n);
  }

  // ------------------------------------------------------------------------- the object

  class Hll {
    var repr: Repr
    var card: bv64

    ghost predicate Valid()
      reads this
    {
      repr.Valid()
    }

    ghost function Regs(): (regs: seq<nat>)
      requires Valid()
      reads this
      ensures |regs| == HLL_REGISTERS
    {
      repr.Regs()
    }

    /** `createHLLObject`: one XZERO opcode over all registers, and a valid cached count of 0. */
    constructor ()
      ensures Valid() && Regs() == EMPTY && card == 0
    {
      repr := Sparse(XZeroSet(HLL_REGISTERS));
      card := 0;
      new;
      ZeroRunRegs(HLL_REGISTERS);
    }

    /** `HLL_INVALIDATE_CACHE`. */
    method Invalidate()
      requires Valid()
      modifies `card
      ensures Valid() && Regs() == old(Regs()) && card & CACHE_INVALID != 0
    {
      card := card | CACHE_INVALID;
    }

    /** Storing a cached count (lines 1284-1291). */
    method SetCard(c: bv64)
      requires Valid()
      modifies `card
      ensures Valid() && Regs() == old(Regs()) && card == c
    {
      card := c;
    }

    /** `hllSparseToDense`; the corrupted-representation result does not occur. */
    method ToDense()
      requires Valid()
      modifies `repr
      ensures Valid() && repr.Dense? && Regs() == old(Regs())
    {
      if repr.Sparse? {
        var packed := Unpack(repr.ops);
        repr := Dense(packed);
      }
    }

    /** `hllDenseAdd`. */
    method DenseAdd(hash: Hash) returns (changed: int)
      requires Valid() && repr.Dense?
      modifies `repr
      ensures Valid() && repr.Dense? && Regs() == Raise(old(Regs()), Index(hash), Count(hash))
      ensures changed == if Count(hash) > old(Regs())[Index(hash)] then 1 else 0
    {
      var count, index := PatLen(hash);
      var oldcount := D.Get(repr.packed, index) as int;
      if count > oldcount {
        DenseSetRegs(repr.packed, index, count);
        repr := Dense(D.Set(repr.packed, index, count as bv8));
        changed := 1;
      } else {
        changed := 0;
      }
    }

    /** `promote:` of `hllSparseAdd` (lines 881-894); the assertion of line 893 is the second
        postcondition. */
    method Promote(hash: Hash) returns (changed: int)
      requires Valid() && Count(hash) > Regs()[Index(hash)]
      modifies `repr
      ensures Valid() && repr.Dense? && Regs() == Raise(old(Regs()), Index(hash), Count(hash))
      ensures changed == 1
    {
      ToDense();
      changed := DenseAdd(hash);
    }

    /** `hllSparseAdd`, through every split case, the merge scan and both promotions. */
    method SparseAdd(hash: Hash, sparseMaxBytes: nat) returns (changed: int)
      requires Valid() && repr.Sparse?
      modifies this
      ensures Valid() && Regs() == Raise(old(Regs()), Index(hash), Count(hash))
      ensures changed == if Count(hash) > old(Regs())[Index(hash)] then 1 else 0
      ensures changed == 0 ==> repr == old(repr) && card == old(card)
      ensures card == old(card) || card == old(card) | CACHE_INVALID
      ensures changed == 1 && repr.Sparse? ==> card == old(card) | CACHE_INVALID
      ensures changed == 1 && repr.Sparse? ==>
                exists p: nat, from: nat, n :: Rewritten(old(repr).ops, Index(hash), p, from, n, repr.ops)
      ensures repr.Sparse? ==> |repr.ops| <= |old(repr.ops)| || HLL_HDR_SIZE + |repr.ops| <= sparseMaxBytes
    {
      hide Decode, Formed, D.Get, D.Set, Scanned, Rewritten;
      var count, index := PatLen(hash);
      var ops := repr.ops;
      DecodeBound(ops);
      if count > VAL_MAX_VALUE {
        changed := Promote(hash);
        return;
      }
      var p, first, span, prev := Locate(ops, index);
      var oldlen := if IsXZero(ops[p]) then 2 else 1;
      var op := ops[p..p + oldlen];
      OpcodeAt(ops, p, index);
      if IsVal(ops[p]) && ValValue(ops[p]) >= count {
        return 0;
      }
      var n := SplitOp(op, index - first, count);
      var deltalen := |n| - oldlen;
      if deltalen > 0 && HLL_HDR_SIZE + |ops| + deltalen > sparseMaxBytes {
        changed := Promote(hash);
        return;
      }
      var ops' := ops[..p] + n + ops[p + oldlen..];
      RegisterRaised(ops, p, index, n, count);
      var from := if prev == -1 then 0 else prev;
      BoundaryKept(ops, ops', p, from);
      ghost var spliced := ops';
      ops' := MergeScan(ops', from);
      ScannedRegs(spliced, from, ops');
      RewrittenSo(ops, index, p, prev, n, ops');
      repr := Sparse(ops');
      card := card | CACHE_INVALID;
      changed := 1;
    }

    /** The loop of `pfmergeCommand` that writes all registers (lines 1358-1360). */
    method WriteAll(max: seq<byte>)
      requires Valid() && repr.Dense? && IsRegs(max)
      modifies `repr
      ensures Valid() && repr.Dense? && Regs() == max
    {
      hide D.Get, D.Set;
      var j := 0;
      while j < HLL_REGISTERS
        invariant 0 <= j <= HLL_REGISTERS && Valid() && repr.Dense?
        invariant forall i :: 0 <= i < j ==> Regs()[i] == max[i]
      {
        DenseSetRegs(repr.packed, j, max[j]);
        repr := Dense(D.Set(repr.packed, j, max[j] as bv8));
        j := j + 1;
      }
    }

    /** The destination of `pfmergeCommand` (lines 1346-1361). */
    method Overwrite(max: seq<byte>)
      requires Valid() && IsRegs(max)
      modifies this
      ensures Valid() && repr.Dense? && Regs() == max && card & CACHE_INVALID != 0
    {
      ToDense();
      WriteAll(max);
      Invalidate();
    }

    /** `hllAdd`. */
    method Add(hash: Hash, sparseMaxBytes: nat) returns (changed: int)
      requires Valid()
      modifies this
      ensures Valid() && Regs() == Raise(old(Regs()), Index(hash), Count(hash))
      ensures changed == if Count(hash) > old(Regs())[Index(hash)] then 1 else 0
      ensures changed == 0 ==> card == old(card)
    {
      if repr.Dense? {
        changed := DenseAdd(hash);
      } else {
        changed := SparseAdd(hash, sparseMaxBytes);
      }
    }
  }

  /** Opcode boundaries before the substituted opcode stay boundaries. */
  /** The opcode at `p`, which covers the register, is replaced by `n`, and the string is scanned from
      the opcode before it. */
  ghost predicate Rewritten(s: seq<byte>, index: nat, p: nat, from: nat, n: seq<byte>, s': seq<byte>) {
    && p < |s| && Boundary(s, p) && OpSize(s[p..]) <= |s| - p && |n| <= 5
    && |Decode(s[..p])| <= index < |Decode(s[..p])| + OpLen(s[p..])
    && (from == p == 0 || (from < p && Boundary(s, from) && from + OpSize(s[from..]) == p))
    && Scanned(s[..p] + n + s[p + OpSize(s[p..])..], from, s')
  }

  lemma RewrittenSo(s: seq<byte>, index: nat, p: nat, prev: int, n: seq<byte>, s': seq<byte>)
    requires p < |s| && Boundary(s, p) && OpSize(s[p..]) <= |s| - p && |n| <= 5
    requires |Decode(s[..p])| <= index < |Decode(s[..p])| + OpLen(s[p..])
    requires if prev == -1 then p == 0 else 0 <= prev < p && Boundary(s, prev) && prev + OpSize(s[prev..]) == p
    requires Scanned(s[..p] + n + s[p + OpSize(s[p..])..], if prev == -1 then 0 else prev, s')
    ensures Rewritten(s, index, p, if prev == -1 then 0 else prev, n, s')
  {
  }

  lemma BoundaryKept(s: seq<byte>, s': seq<byte>, p: nat, q: nat)
    requires Boundary(s, p) && Boundary(s', p) && s[..p] == s'[..p] && q <= p && Boundary(s, q)
    ensures Boundary(s', q)
  {
    hide Decode, Formed;
    assert s[..q] == s[..p][..q] == s'[..q];
    assert s'[..p] == s'[..q] + s'[q..p];
    FormedSuffix(s'[..q], s'[q..p]);
    DecodeConcat(s'[q..p], s'[p..]);
    assert s'[q..] == s'[q..p] + s'[p..];
  }

  lemma {:induction false} FormedSuffix(a: seq<byte>, b: seq<byte>)
    requires Formed(a) && Formed(a + b)
    ensures Formed(b)
    decreases |a|
  {
    if a == [] {
      assert a + b == b;
    } else {
      var k := OpSize(a);
      HeadOfConcat(a, b);
      assert (a + b)[k..] == a[k..] + b;
      FormedSuffix(a[k..], b);
    }
  }
}
