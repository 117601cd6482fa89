/** HyperLogLog at the level of its registers: what adding an element, merging and counting
    mean, independently of how the registers are represented. */
module HllRegisters {

  const HLL_REGISTERS := 16384
  const MAX_COUNT := 50

  function Max(a: nat, b: nat): nat { if a > b then a else b }

  // --------------------------------------------------------------- the pattern of a hash

  /** A 64-bit hash as its bits, least significant first. */
  type Hash = h: seq<bool> | |h| == 64 witness seq(64, _ => false)

  function Low(bits: seq<bool>): (n: nat) {
    if bits == [] then 0 else (if bits[0] then 1 else 0) + 2 * Low(bits[1..])
  }

  function Pow2(n: nat): (p: nat)
    ensures p >= 1
  {
    if n == 0 then 1 else 2 * Pow2(n - 1)
  }

  lemma {:induction false} LowBound(bits: seq<bool>)
    ensures Low(bits) < Pow2(|bits|)
  {
    if bits != [] {
      LowBound(bits[1..]);
    }
  }

  /** The register: the low 14 bits. */
  function Index(h: Hash): (i: nat)
    ensures i < HLL_REGISTERS
  {
    assert Pow2(14) == HLL_REGISTERS;
    LowBound(h[..14]);
    Low(h[..14])
  }

  /** Bit `k` of a number. */
  predicate BitOf(n: nat, k: nat) { if k == 0 then n % 2 == 1 else BitOf(n / 2, k - 1) }

  /** `i` is the number that the low 14 bits of the hash spell. */
  predicate Spells(h: Hash, i: nat) {
    i < 16384 && forall k :: 0 <= k < 14 ==> (BitOf(i, k) <==> h[k])
  }

  lemma {:induction false} LowBit(bits: seq<bool>, k: nat)
    requires k < |bits|
    ensures BitOf(Low(bits), k) <==> bits[k]
  {
    if k > 0 {
      LowBit(bits[1..], k - 1);
      assert Low(bits) / 2 == Low(bits[1..]);
    }
  }

  /** Numbers of as many bits with the same bits are equal. */
  lemma {:induction false} SameBits(a: nat, b: nat, n: nat)
    requires a < Pow2(n) && b < Pow2(n) && forall k :: 0 <= k < n ==> (BitOf(a, k) <==> BitOf(b, k))
    ensures a == b
  {
    if n > 0 {
      forall k | 0 <= k < n - 1 ensures BitOf(a / 2, k) <==> BitOf(b / 2, k) {
        assert BitOf(a, k + 1) <==> BitOf(b, k + 1);
      }
      SameBits(a / 2, b / 2, n - 1);
      assert BitOf(a, 0) <==> BitOf(b, 0);
    }
  }

  /** The register of a hash is the number that its low 14 bits spell, and no other. */
  lemma IndexSpells(h: Hash, i: nat)
    ensures Index(h) == i <==> Spells(h, i)
  {
    assert Pow2(14) == 16384;
    forall k | 0 <= k < 14 ensures BitOf(Index(h), k) <==> h[k] { LowBit(h[..14], k); }
    if Spells(h, i) {
      forall k | 0 <= k < 14 ensures BitOf(Index(h), k) <==> BitOf(i, k) { assert BitOf(i, k) <==> h[k]; }
      SameBits(Index(h), i, 14);
    }
  }

  /** Hashes go to the same register exactly if they agree in their low 14 bits. */
  lemma IndexSame(h: Hash, g: Hash)
    ensures Index(h) == Index(g) <==> h[..14] == g[..14]
  {
    IndexSpells(h, Index(g));
    IndexSpells(g, Index(g));
    if Index(h) == Index(g) {
      forall k | 0 <= k < 14 ensures h[..14][k] == g[..14][k] { assert BitOf(Index(g), k) <==> h[k]; }
    }
    if h[..14] == g[..14] {
      forall k | 0 <= k < 14 ensures h[k] == g[k] { assert h[..14][k] == g[..14][k]; }
    }
  }

  /** Every register is reached. */
  lemma IndexOnto(i: nat) returns (h: Hash)
    requires i < HLL_REGISTERS
    ensures Index(h) == i
  {
    h := seq(64, k requires 0 <= k < 64 => BitOf(i, k));
    IndexSpells(h, i);
  }

  /** Length of the pattern `0...01` that starts at bit `k`; bit 63 counts as set. */
  function PatternFrom(h: Hash, k: nat): (n: nat)
    requires k < 64
    ensures 1 <= n <= 64 - k
    decreases 64 - k
  {
    if k == 63 || h[k] then 1 else 1 + PatternFrom(h, k + 1)
  }

  function Count(h: Hash): (c: nat)
    ensures 1 <= c <= MAX_COUNT
  {
    PatternFrom(h, 14)
  }

  /** The count is the distance to the first set bit above the index bits. */
  lemma {:induction false} PatternMeans(h: Hash, k: nat)
    requires k < 64
    ensures var top := k + PatternFrom(h, k) - 1;
            (top == 63 || h[top]) && forall i :: k <= i < top ==> !h[i]
    decreases 64 - k
  {
    if k < 63 && !h[k] {
      PatternMeans(h, k + 1);
    }
  }

  /** The greatest count is 50, not the 51 that 64 - 14 + 1 suggests: it is the count of a hash
      whose bits above the index are clear, because bit 63 is forced. */
  lemma GreatestCount(h: Hash)
    ensures Count(h) == MAX_COUNT <==> forall i :: 14 <= i < 63 ==> !h[i]
    ensures Count(seq(64, _ => false)) == MAX_COUNT
  {
    PatternMeans(h, 14);
    if forall i :: 14 <= i < 63 ==> !h[i] {
      assert 14 + PatternFrom(h, 14) - 1 == 63;
    }
    PatternMeans(seq(64, _ => false), 14);
  }

  /** `hllPatLen`, on the hash of the element. */
  method PatLen(hash0: Hash) returns (count: nat, index: nat)
    ensures Spells(hash0, index) && index == Index(hash0) && count == Count(hash0)
  {
    IndexSpells(hash0, Index(hash0));
    index := Index(hash0);
    var hash: Hash := hash0[63 := true];
    var bit := 14;
    count := 1;
    while !hash[bit]
      invariant 14 <= bit < 64 && count == bit - 13
      invariant Count(hash0) == count - 1 + PatternFrom(hash0, bit)
      decreases 64 - bit
    {
      count := count + 1;
      bit := bit + 1;
    }
  }

  // ------------------------------------------------------------ registers and their algebra

  /** The registers of a sketch: 16384 counters of six bits. */
  predicate IsRegs(regs: seq<nat>) {
    |regs| == HLL_REGISTERS && forall i :: 0 <= i < |regs| ==> regs[i] < 64
  }

  function Blank(n: nat): (regs: seq<nat>)
    ensures |regs| == n && forall i :: 0 <= i < n ==> regs[i] == 0
  {
    seq(n, _ => 0)
  }

  const EMPTY: seq<nat> := Blank(HLL_REGISTERS)

  /** Adding an element raises one register to at least the element's count. */
  function Raise(regs: seq<nat>, i: nat, c: nat): (r: seq<nat>)
    requires i < |regs|
  {
    regs[i := Max(regs[i], c)]
  }

  function Join(a: seq<nat>, b: seq<nat>): (r: seq<nat>)
    requires |a| == |b|
    ensures |r| == |a| && forall i :: 0 <= i < |r| ==> r[i] == Max(a[i], b[i])
  {
    seq(|a|, i requires 0 <= i < |a| => Max(a[i], b[i]))
  }

  /** The registers after adding the elements `hs` in order. */
  function Feed(regs: seq<nat>, hs: seq<Hash>): (r: seq<nat>)
    requires |regs| == HLL_REGISTERS
    ensures |r| == HLL_REGISTERS
    decreases |hs|
  {
    if hs == [] then regs else Feed(Raise(regs, Index(hs[0]), Count(hs[0])), hs[1..])
  }

  /** Every element of `hs` that hashes to register `i` has count at most `m`. */
  predicate Bounds(hs: seq<Hash>, i: nat, m: nat) {
    forall h :: h in hs && Index(h) == i ==> Count(h) <= m
  }

  /** Some element of `hs` hashes to register `i` with count `m`. */
  predicate Attained(hs: seq<Hash>, i: nat, m: nat) {
    exists h :: h in hs && Index(h) == i && Count(h) == m
  }

  /** After any sequence of adds, each register is the greatest count over the elements that
      hash to it, or its initial value if that is greater. */
  lemma {:induction false} FeedIsMax(regs: seq<nat>, hs: seq<Hash>, i: nat)
    requires |regs| == HLL_REGISTERS && i < HLL_REGISTERS
    ensures Feed(regs, hs)[i] >= regs[i] && Bounds(hs, i, Feed(regs, hs)[i])
    ensures Feed(regs, hs)[i] == regs[i] || Attained(hs, i, Feed(regs, hs)[i])
    decreases |hs|
  {
    if hs != [] {
      var h := hs[0];
      var regs' := Raise(regs, Index(h), Count(h));
      FeedIsMax(regs', hs[1..], i);
      assert forall g :: g in hs ==> g == h || g in hs[1..];
      if Feed(regs, hs)[i] != regs[i] && !Attained(hs[1..], i, Feed(regs, hs)[i]) {
        assert h in hs && Index(h) == i && Count(h) == Feed(regs, hs)[i];
      }
    }
  }

  /** What feeding `hs` does, by the bits of the hashes: a register is raised to the greatest
      count among the hashes whose low 14 bits spell its number, if that is more than it held. */
  ghost predicate Fed(before: seq<nat>, hs: seq<Hash>, after: seq<nat>) {
    && |before| == |after| == 16384
    && (forall i :: 0 <= i < 16384 ==> after[i] >= before[i])
    && (forall h, i: nat :: h in hs && Spells(h, i) ==> i < 16384 && Count(h) <= after[i])
    && (forall i: nat :: i < 16384 && after[i] != before[i] ==>
          exists h :: h in hs && Spells(h, i) && Count(h) == after[i])
  }

  lemma FeedFed(regs: seq<nat>, hs: seq<Hash>)
    requires |regs| == HLL_REGISTERS
    ensures Fed(regs, hs, Feed(regs, hs))
  {
    hide Spells, Feed, Index, Count;
    var after := Feed(regs, hs);
    forall i | 0 <= i < 16384
      ensures after[i] >= regs[i]
      ensures after[i] != regs[i] ==> exists h :: h in hs && Spells(h, i) && Count(h) == after[i]
    {
      FeedIsMax(regs, hs, i);
      if after[i] != regs[i] {
        var h :| h in hs && Index(h) == i && Count(h) == after[i];
        IndexSpells(h, i);
      }
    }
    forall h, i: nat | h in hs && Spells(h, i) ensures i < 16384 && Count(h) <= after[i] {
      IndexSpells(h, i);
      FeedIsMax(regs, hs, i);
    }
  }

  /** The state depends only on the set of elements: order and repetition do not matter. */
  lemma FeedSet(regs: seq<nat>, hs: seq<Hash>, gs: seq<Hash>)
    requires |regs| == HLL_REGISTERS
    requires forall h :: h in hs <==> h in gs
    ensures Feed(regs, hs) == Feed(regs, gs)
  {
    forall i | 0 <= i < HLL_REGISTERS ensures Feed(regs, hs)[i] == Feed(regs, gs)[i] {
      FeedIsMax(regs, hs, i);
      FeedIsMax(regs, gs, i);
    }
  }

  /** Merging two sketches gives the sketch of the union. */
  lemma JoinIsUnion(hs: seq<Hash>, gs: seq<Hash>)
    ensures Join(Feed(EMPTY, hs), Feed(EMPTY, gs)) == Feed(EMPTY, hs + gs)
  {
    forall i | 0 <= i < HLL_REGISTERS
      ensures Join(Feed(EMPTY, hs), Feed(EMPTY, gs))[i] == Feed(EMPTY, hs + gs)[i]
    {
      FeedIsMax(EMPTY, hs, i);
      FeedIsMax(EMPTY, gs, i);
      FeedIsMax(EMPTY, hs + gs, i);
    }
  }

  lemma JoinLaws(a: seq<nat>, b: seq<nat>, c: seq<nat>)
    requires |a| == |b| == |c|
    ensures Join(a, b) == Join(b, a)
    ensures Join(Join(a, b), c) == Join(a, Join(b, c))
    ensures Join(a, a) == a
  {
  }

  // ------------------------------------------------------------------------- counting

  /** The table entry `PE[j]`, the rational 2 to the power of minus `j`. */
  function PE(j: nat): real { 1.0 / Pow2(j) as real }

  lemma PEHalves(j: nat)
    ensures PE(0) == 1.0 && PE(j) == 2.0 * PE(j + 1)
  {
  }

  /** The sum of `PE[r]` over the registers, and the number of zero registers: what the
      estimator is computed from. */
  function Sum(regs: seq<nat>): real {
    if regs == [] then 0.0 else PE(regs[0]) + Sum(regs[1..])
  }

  function Zeros(regs: seq<nat>): nat {
    if regs == [] then 0 else (if regs[0] == 0 then 1 else 0) + Zeros(regs[1..])
  }

  lemma {:induction false} SumConcat(a: seq<nat>, b: seq<nat>)
    ensures Sum(a + b) == Sum(a) + Sum(b) && Zeros(a + b) == Zeros(a) + Zeros(b)
  {
    if a == [] {
      assert a + b == b;
    } else {
      SumConcat(a[1..], b);
      assert (a + b)[1..] == a[1..] + b;
    }
  }

  lemma {:induction false} SumRepeat(regs: seq<nat>, v: nat)
    requires forall i :: 0 <= i < |regs| ==> regs[i] == v
    ensures Sum(regs) == PE(v) * |regs| as real
    ensures Zeros(regs) == if v == 0 then |regs| else 0
  {
    if regs != [] {
      SumRepeat(regs[1..], v);
    }
  }

  lemma SumNext(regs: seq<nat>, k: nat)
    requires k < |regs|
    ensures Sum(regs[..k + 1]) == Sum(regs[..k]) + PE(regs[k])
    ensures Zeros(regs[..k + 1]) == Zeros(regs[..k]) + if regs[k] == 0 then 1 else 0
  {
    SumConcat(regs[..k], [regs[k]]);
    assert regs[..k] + [regs[k]] == regs[..k + 1];
  }
}
