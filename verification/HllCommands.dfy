/** `hllMerge` and the PFADD, PFCOUNT and PFMERGE commands: what they do to the registers,
    and why a cached cardinality that is marked valid is the current one. */
module HllCommands {
  import opened Bytes
  import opened HllRegisters
  import opened HllSparse
  import opened HllSparseAdd
  import opened HllObject
  import opened HllCount
  import D = HllDense

  /** The estimate as a function of the register sum and the number of zero registers; of the
      floating-point formula only its value on an empty sketch is used. */
  type Estimator = f: (real, nat) -> bv64 | f(16384.0, 16384) == 0 witness (_, _) => 0

  function Estimate(est: Estimator, regs: seq<nat>): bv64 { est(Sum(regs), Zeros(regs)) }

  lemma EmptyEstimate(est: Estimator)
    ensures Estimate(est, EMPTY) == 0
  {
    SumRepeat(EMPTY, 0);
    PEZero();
  }

  /** A cached count whose validity bit is clear is the estimate of the current registers. */
  ghost predicate CacheSound(o: Hll, est: Estimator)
    requires o.Valid()
    reads o
  {
    o.card & CACHE_INVALID == 0 ==> o.card == Estimate(est, o.Regs())
  }

  // --------------------------------------------------------------------------- merging

  /** `max` after the first `i` registers have been merged in. */
  ghost predicate Merged(max: seq<byte>, before: seq<byte>, regs: seq<nat>, i: nat) {
    && |max| == |before| == |regs|
    && forall k :: 0 <= k < |max| ==> max[k] == if k < i then Max(before[k], regs[k]) else before[k]
  }

  /** `hllMerge`, dense source (lines 1068-1075). */
  method MergeDense(max: array<byte>, p: seq<bv8>)
    requires max.Length == HLL_REGISTERS && D.IsDense(p)
    modifies max
    ensures Merged(max[..], old(max[..]), DenseRegs(p), HLL_REGISTERS)
  {
    hide D.Get;
    var i := 0;
    while i < HLL_REGISTERS
      invariant 0 <= i <= HLL_REGISTERS
      invariant Merged(max[..], old(max[..]), DenseRegs(p), i)
    {
      var val := D.Get(p, i) as int;
      if val > max[i] { max[i] := val; }
      i := i + 1;
    }
  }

  /** `hllMerge`, sparse source (lines 1077-1103). */
  method MergeSparse(max: array<byte>, ops: seq<byte>)
    requires max.Length == HLL_REGISTERS && Covers(ops)
    modifies max
    ensures Merged(max[..], old(max[..]), Decode(ops), HLL_REGISTERS)
  {
    hide Decode, Formed;
    ghost var regs := Decode(ops);
    var i, p := 0, 0;
    FirstBoundary(ops);
    while p < |ops|
      invariant Boundary(ops, p) && i == |Decode(ops[..p])| <= HLL_REGISTERS
      invariant Merged(max[..], old(max[..]), regs, i)
    {
      NextBoundary(ops, p);
      AtBoundary(ops, p);
      AtBoundary(ops, p + OpSize(ops[p..]));
      assert forall k :: i <= k < i + OpLen(ops[p..]) ==> regs[k] == OpValue(ops[p..]);
      if IsZero(ops[p]) {
        i := i + ZeroLen(ops[p]);
        p := p + 1;
      } else if IsXZero(ops[p]) {
        i := i + XZeroLen(ops[p], ops[p + 1]);
        p := p + 2;
      } else {
        var runlen, regval := ValLen(ops[p]), ValValue(ops[p]);
        ghost var end := i + runlen;
        while runlen > 0
          invariant 0 <= runlen && i + runlen == end && 0 <= i
          invariant Merged(max[..], old(max[..]), regs, i)
        {
          runlen := runlen - 1;
          if regval > max[i] { max[i] := regval; }
          i := i + 1;
        }
        p := p + 1;
      }
    }
    assert ops[..p] == ops;
  }

  /** `hllMerge`: the registers of the source are joined into `max`. */
  method Merge(max: array<byte>, o: Hll)
    requires max.Length == HLL_REGISTERS && o.Valid()
    modifies max
    ensures max[..] == Join(old(max[..]), o.Regs())
  {
    match o.repr {
      case Dense(p) => MergeDense(max, p);
      case Sparse(ops) => MergeSparse(max, ops);
    }
    assert max[..] == Join(old(max[..]), o.Regs());
  }

  // ------------------------------------------------------------- the commands, on registers

  type Key = string

  /** The registers at each key. */
  type View = map<Key, seq<nat>>

  predicate AllRegs(view: View) {
    forall k :: k in view ==> IsRegs(view[k])
  }

  /** A missing key counts as an empty sketch. */
  function SketchAt(view: View, key: Key): (regs: seq<nat>)
    requires AllRegs(view)
    ensures |regs| == HLL_REGISTERS
  {
    if key in view then view[key] else EMPTY
  }

  /** The join of the sketches at `keys`. */
  function JoinKeys(view: View, keys: seq<Key>): (regs: seq<nat>)
    requires AllRegs(view)
    ensures |regs| == HLL_REGISTERS
  {
    if keys == [] then EMPTY else Join(JoinKeys(view, keys[..|keys| - 1]), SketchAt(view, keys[|keys| - 1]))
  }

  lemma JoinEmpty(a: seq<nat>)
    requires |a| == HLL_REGISTERS
    ensures Join(a, EMPTY) == a && Join(EMPTY, a) == a
  {
  }

  lemma {:induction false} JoinKeysRegs(view: View, keys: seq<Key>)
    requires AllRegs(view)
    ensures IsRegs(JoinKeys(view, keys))
  {
    if keys != [] {
      JoinKeysRegs(view, keys[..|keys| - 1]);
    }
  }

  lemma JoinNone(view: View, keys: seq<Key>, zeros: seq<nat>)
    requires AllRegs(view) && keys == [] && |zeros| == HLL_REGISTERS && forall i :: 0 <= i < |zeros| ==> zeros[i] == 0
    ensures zeros == JoinKeys(view, keys)
  {
  }

  lemma JoinNext(view: View, keys: seq<Key>, j: nat)
    requires AllRegs(view) && j < |keys|
    ensures JoinKeys(view, keys[..j + 1]) == Join(JoinKeys(view, keys[..j]), SketchAt(view, keys[j]))
  {
    assert keys[..j + 1][..j] == keys[..j];
  }

  lemma OneKey(view: View, key: Key)
    requires AllRegs(view)
    ensures JoinKeys(view, [key]) == SketchAt(view, key)
  {
    assert [key][..0] == [];
    JoinEmpty(SketchAt(view, key));
  }

  lemma {:induction false} FeedRegs(regs: seq<nat>, hs: seq<Hash>)
    requires IsRegs(regs)
    ensures IsRegs(Feed(regs, hs))
    decreases |hs|
  {
    if hs != [] {
      FeedRegs(Raise(regs, Index(hs[0]), Count(hs[0])), hs[1..]);
    }
  }

  lemma {:induction false} FeedSnoc(regs: seq<nat>, hs: seq<Hash>, h: Hash)
    requires |regs| == HLL_REGISTERS
    ensures Feed(regs, hs + [h]) == Raise(Feed(regs, hs), Index(h), Count(h))
    decreases |hs|
  {
    if hs == [] {
      assert (hs + [h])[1..] == [];
    } else {
      assert (hs + [h])[1..] == hs[1..] + [h];
      FeedSnoc(Raise(regs, Index(hs[0]), Count(hs[0])), hs[1..], h);
    }
  }

  /** Feeding changes nothing exactly when no single add on the way does. */
  lemma FeedGrows(regs: seq<nat>, hs: seq<Hash>, h: Hash)
    requires |regs| == HLL_REGISTERS
    ensures Feed(regs, hs + [h]) == regs <==>
            Feed(regs, hs) == regs && Count(h) <= Feed(regs, hs)[Index(h)]
  {
    FeedSnoc(regs, hs, h);
    if Feed(regs, hs) != regs {
      var i :| 0 <= i < HLL_REGISTERS && Feed(regs, hs)[i] != regs[i];
      FeedIsMax(regs, hs, i);
    }
  }

  lemma ValidRegs(r: Repr)
    requires r.Valid()
    ensures IsRegs(r.Regs())
  {
    match r {
      case Sparse(ops) => DecodeBound(ops);
      case Dense(p) =>
        forall i | 0 <= i < HLL_REGISTERS ensures DenseRegs(p)[i] < 64 { D.GetBound(p, i); }
    }
  }

  /** The loop of `pfaddCommand` over the elements (lines 1196-1207). */
  method AddAll(o: Hll, hashes: seq<Hash>, sparseMaxBytes: nat) returns (updated: bool)
    requires o.Valid()
    modifies o
    ensures o.Valid() && o.Regs() == Feed(old(o.Regs()), hashes)
    ensures updated <==> o.Regs() != old(o.Regs())
    ensures !updated ==> o.card == old(o.card)
  {
    hide Hll.Valid, Hll.Regs, Feed;
    ghost var before := o.Regs();
    updated := false;
    assert hashes[..0] == [];
    FeedNone(before);
    var j := 0;
    while j < |hashes|
      invariant 0 <= j <= |hashes|
      invariant o.Valid() && o.Regs() == Feed(before, hashes[..j])
      invariant updated <==> o.Regs() != before
      invariant !updated ==> o.card == old(o.card)
    {
      assert hashes[..j + 1] == hashes[..j] + [hashes[j]];
      FeedSnoc(before, hashes[..j], hashes[j]);
      FeedGrows(before, hashes[..j], hashes[j]);
      var changed := o.Add(hashes[j], sparseMaxBytes);
      if changed == 1 { updated := true; }
      j := j + 1;
    }
    assert hashes[..j] == hashes;
  }

  // ---------------------------------------------------------------------------- the keyspace

  class Keyspace {
    var db: map<Key, Hll>
    const est: Estimator
    const sparseMaxBytes: nat

    /** Distinct keys hold distinct, well-formed values whose valid cached counts are right. */
    ghost predicate Valid()
      reads this, db.Values
    {
      && (forall k :: k in db ==> db[k].Valid() && CacheSound(db[k], est))
      && (forall k, l :: k in db && l in db && k != l ==> db[k] != db[l])
    }

    ghost function Regs(): (view: View)
      requires Valid()
      reads this, db.Values
      ensures AllRegs(view) && view.Keys == db.Keys && forall k :: k in db ==> view[k] == db[k].Regs()
    {
      RegsInRange();
      map k | k in db :: db[k].Regs()
    }

    lemma RegsInRange()
      requires Valid()
      ensures forall k :: k in db ==> IsRegs(db[k].Regs())
    {
      forall k | k in db ensures IsRegs(db[k].Regs()) { ValidRegs(db[k].repr); }
    }

    constructor (est: Estimator, sparseMaxBytes: nat)
      ensures Valid() && Regs() == map[] && db == map[] && this.est == est
    {
      this.est, this.sparseMaxBytes, db := est, sparseMaxBytes, map[];
    }

    /** The value at `key`, created if it is missing. */
    method Obtain(key: Key) returns (o: Hll)
      requires Valid()
      modifies `db
      ensures Valid() && o.Valid() && CacheSound(o, est)
      ensures key in db && db[key] == o && db.Keys == old(db.Keys) + {key}
      ensures key in old(db) ==> db == old(db)
      ensures fresh(db.Values - old(db.Values))
      ensures forall k :: k in db && k != key ==> db[k] != o
      ensures o.Regs() == SketchAt(old(Regs()), key)
      ensures Regs() == old(Regs())[key := SketchAt(old(Regs()), key)]
    {
      hide Hll.Valid, Hll.Regs, Estimate, IsRegs;
      if key in db {
        o := db[key];
        assert Regs() == Regs()[key := SketchAt(Regs(), key)];
        return;
      }
      o := Create(key);
    }

    method Create(key: Key) returns (o: Hll)
      requires Valid() && key !in db
      modifies `db
      ensures Valid() && o.Valid() && fresh(o) && db == old(db)[key := o]
      ensures o.Regs() == EMPTY && CacheSound(o, est) && Regs() == old(Regs())[key := EMPTY]
    {
      hide Hll.Valid, Hll.Regs, Estimate, IsRegs;
      o := new Hll();
      EmptyEstimate(est);
      db := db[key := o];
    }

    /** Updating the value at one key affects no other key. */
    twostate lemma OneUpdated(key: Key)
      requires old(Valid()) && db == old(db) && key in db
      requires forall k :: k in db && k != key ==> unchanged(db[k])
      requires db[key].Valid() && CacheSound(db[key], est)
      ensures Valid() && Regs() == old(Regs())[key := db[key].Regs()]
    {
      hide Hll.Valid, Hll.Regs, Estimate, IsRegs;
    }

    /** PFADD: the elements are fed to the sketch, which is created if missing; the reply says
        whether anything changed. */
    method PfAdd(key: Key, hashes: seq<Hash>) returns (reply: int)
      requires Valid()
      modifies this, db.Values
      ensures Valid() && fresh(db.Values - old(db.Values))
      ensures IsRegs(Feed(SketchAt(old(Regs()), key), hashes))
      ensures Regs() == old(Regs())[key := Feed(SketchAt(old(Regs()), key), hashes)]
      ensures Fed(SketchAt(old(Regs()), key), hashes, Regs()[key])
      ensures reply == if key !in old(db) || Regs()[key] != old(Regs())[key] then 1 else 0
    {
      hide Valid, Regs, Hll.Valid, Hll.Regs, Estimate, IsRegs, Feed, Fed;
      FeedFed(SketchAt(Regs(), key), hashes);
      var created := key !in db;
      FeedRegs(SketchAt(Regs(), key), hashes);
      ghost var view := Regs();
      var o := Obtain(key);
      label obtained:
      var updated := AddAll(o, hashes, sparseMaxBytes);
      if created || updated { o.Invalidate(); }
      OneUpdated@obtained(key);
      UpdateTwice(view, key, SketchAt(view, key), o.Regs());
      reply := if created || updated then 1 else 0;
    }

    /** One turn of that loop: a missing key counts as an empty sketch. */
    method MergeKey(max: array<byte>, key: Key)
      requires Valid() && max.Length == HLL_REGISTERS
      modifies max
      ensures Valid() && Regs() == old(Regs())
      ensures max[..] == Join(old(max[..]), SketchAt(Regs(), key))
    {
      hide Hll.Valid, Hll.Regs, Estimate, IsRegs, Join;
      if key in db { Merge(max, db[key]); } else { JoinEmpty(max[..]); }
    }

    /** The merge loop shared by PFCOUNT and PFMERGE. */
    method MergeKeys(keys: seq<Key>) returns (regs: seq<byte>)
      requires Valid()
      ensures regs == JoinKeys(Regs(), keys)
    {
      hide Valid, Regs, SketchAt, Join, JoinKeys;
      var max := new byte[HLL_REGISTERS](_ => 0);
      var j := 0;
      JoinNone(Regs(), keys[..0], max[..]);
      while j < |keys|
        invariant 0 <= j <= |keys|
        invariant Valid() && Regs() == old(Regs()) && max[..] == JoinKeys(Regs(), keys[..j])
      {
        JoinNext(Regs(), keys, j);
        MergeKey(max, keys[j]);
        j := j + 1;
      }
      assert keys[..j] == keys;
      regs := max[..];
    }

    /** `hllCount` on a stored value. */
    method CountOf(o: Hll) returns (card: bv64)
      requires o.Valid()
      ensures card == Estimate(est, o.Regs())
    {
      var e, ez;
      match o.repr {
        case Dense(p) => e, ez := DenseSum(p);
        case Sparse(ops) => var invalid; e, ez, invalid := SparseSum(ops);
      }
      card := est(e, ez);
    }

    /** PFCOUNT: the estimate of the union, from the cache or computed, and no register changes. */
    method PfCount(keys: seq<Key>) returns (card: bv64)
      requires Valid() && keys != []
      modifies db.Values
      ensures Valid() && db == old(db) && Regs() == old(Regs())
      ensures var regs := JoinKeys(old(Regs()), keys);
              card == Estimate(est, regs) == est(Sum(regs), Zeros(regs))
      ensures |keys| == 1 && keys[0] in db ==> db[keys[0]].card == card
    {
      hide Sum, Zeros, Hll.Valid, Hll.Regs, IsRegs, JoinKeys;
      if |keys| > 1 {
        var max := MergeKeys(keys);
        var e, ez := RawSum(max);
        assert Estimate(est, max) == est(e, ez);
        return est(e, ez);
      }
      assert keys == [keys[0]];
      OneKey(Regs(), keys[0]);
      if keys[0] !in db {
        EmptyEstimate(est);
        return 0;
      }
      var o := db[keys[0]];
      if o.card & CACHE_INVALID == 0 { return o.card; }
      card := CountOf(o);
      o.SetCard(card);
    }

    /** The registers are written to `dest`, in the dense representation, and its cached count
        is marked invalid. */
    method Store(dest: Key, regs: seq<byte>)
      requires Valid() && IsRegs(regs)
      modifies this, db.Values
      ensures Valid() && fresh(db.Values - old(db.Values))
      ensures Regs() == old(Regs())[dest := regs] && dest in db && db[dest].repr.Dense?
      ensures db[dest].card & CACHE_INVALID != 0
    {
      hide Valid, Regs, Hll.Valid, Hll.Regs, Estimate, IsRegs, AllRegs, SketchAt;
      ghost var view := Regs();
      var o := Obtain(dest);
      label obtained:
      o.Overwrite(regs);
      OneUpdated@obtained(dest);
      UpdateTwice(view, dest, SketchAt(view, dest), regs);
    }

    /** PFMERGE: the destination gets the join of its own sketch and the sources. */
    method PfMerge(dest: Key, srcs: seq<Key>)
      requires Valid()
      modifies this, db.Values
      ensures Valid() && fresh(db.Values - old(db.Values))
      ensures Regs() == old(Regs())[dest := JoinKeys(old(Regs()), [dest] + srcs)]
      ensures dest in db && db[dest].repr.Dense? && db[dest].card & CACHE_INVALID != 0
    {
      hide Valid, Regs, Hll.Valid, Hll.Regs, Estimate, IsRegs, AllRegs, JoinKeys, SketchAt;
      var max := MergeKeys([dest] + srcs);
      JoinKeysRegs(Regs(), [dest] + srcs);
      Store(dest, max);
    }
  }

  lemma UpdateTwice(view: View, key: Key, a: seq<nat>, b: seq<nat>)
    ensures view[key := a][key := b] == view[key := b]
  {
  }

  lemma FeedNone(regs: seq<nat>)
    requires |regs| == HLL_REGISTERS
    ensures Feed(regs, []) == regs
  {
  }
}
