/** Whole runs of PFADD, PFMERGE and PFCOUNT: the registers at a key are determined by the set
    of elements that reached it, whatever the order, the repetitions and the encodings. */
module HllHistory {
  import opened HllRegisters
  import opened HllCommands

  datatype Command = Add(key: Key, hashes: seq<Hash>) | MergeInto(dest: Key, srcs: seq<Key>) | Count(keys: seq<Key>)

  /** The effect of a command on the registers, as the commands' contracts state it. */
  function Step(view: View, c: Command): (r: View)
    requires AllRegs(view)
    ensures AllRegs(r)
  {
    match c
    case Add(key, hashes) =>
      FeedRegs(SketchAt(view, key), hashes);
      view[key := Feed(SketchAt(view, key), hashes)]
    case MergeInto(dest, srcs) =>
      JoinKeysRegs(view, [dest] + srcs);
      view[dest := JoinKeys(view, [dest] + srcs)]
    case Count(_) => view
  }

  function Run(cs: seq<Command>): (view: View)
    ensures AllRegs(view)
  {
    if cs == [] then map[] else Step(Run(cs[..|cs| - 1]), cs[|cs| - 1])
  }

  // ----------------------------------------------------------------- the reference: plain sets

  type Sets = map<Key, set<Hash>>

  function ElementsAt(sets: Sets, key: Key): set<Hash> { if key in sets then sets[key] else {} }

  function UnionKeys(sets: Sets, keys: seq<Key>): set<Hash> {
    if keys == [] then {} else UnionKeys(sets, keys[..|keys| - 1]) + ElementsAt(sets, keys[|keys| - 1])
  }

  function StepSets(sets: Sets, c: Command): Sets {
    match c
    case Add(key, hashes) => sets[key := ElementsAt(sets, key) + set h | h in hashes]
    case MergeInto(dest, srcs) => sets[dest := UnionKeys(sets, [dest] + srcs)]
    case Count(_) => sets
  }

  function RunSets(cs: seq<Command>): Sets {
    if cs == [] then map[] else StepSets(RunSets(cs[..|cs| - 1]), cs[|cs| - 1])
  }

  /** Register `i` is the greatest count over the elements of `s` that hash to it. */
  ghost predicate IsMax(v: nat, s: set<Hash>, i: nat) {
    && (forall h :: h in s && Index(h) == i ==> HllRegisters.Count(h) <= v)
    && (v != 0 ==> exists h :: h in s && Index(h) == i && HllRegisters.Count(h) == v)
  }

  ghost predicate IsSketch(regs: seq<nat>, s: set<Hash>) {
    |regs| == HLL_REGISTERS && forall i :: 0 <= i < HLL_REGISTERS ==> IsMax(regs[i], s, i)
  }

  lemma SketchUnique(a: seq<nat>, b: seq<nat>, s: set<Hash>)
    requires IsSketch(a, s) && IsSketch(b, s)
    ensures a == b
  {
    forall i | 0 <= i < HLL_REGISTERS ensures a[i] == b[i] {
      assert IsMax(a[i], s, i) && IsMax(b[i], s, i);
    }
  }

  lemma EmptySketch()
    ensures IsSketch(EMPTY, {})
  {
  }

  lemma FeedSketch(regs: seq<nat>, s: set<Hash>, hs: seq<Hash>)
    requires IsSketch(regs, s)
    ensures IsSketch(Feed(regs, hs), s + set h | h in hs)
  {
    var t := s + set h | h in hs;
    forall i | 0 <= i < HLL_REGISTERS ensures IsMax(Feed(regs, hs)[i], t, i) {
      FeedIsMax(regs, hs, i);
      assert IsMax(regs[i], s, i);
      var v := Feed(regs, hs)[i];
      if v == regs[i] {
        if v != 0 {
          var h :| h in s && Index(h) == i && HllRegisters.Count(h) == v;
          assert h in t;
        }
      } else {
        var h :| h in hs && Index(h) == i && HllRegisters.Count(h) == v;
        assert h in t;
      }
    }
  }

  lemma JoinSketch(a: seq<nat>, s: set<Hash>, b: seq<nat>, t: set<Hash>)
    requires IsSketch(a, s) && IsSketch(b, t)
    ensures IsSketch(Join(a, b), s + t)
  {
    forall i | 0 <= i < HLL_REGISTERS ensures IsMax(Join(a, b)[i], s + t, i) {
      assert IsMax(a[i], s, i) && IsMax(b[i], t, i);
      if a[i] > b[i] {
        var h :| h in s && Index(h) == i && HllRegisters.Count(h) == a[i];
        assert h in s + t;
      } else if b[i] != 0 {
        var h :| h in t && Index(h) == i && HllRegisters.Count(h) == b[i];
        assert h in s + t;
      }
    }
  }

  /** The sketches at the keys of `view` are those of the elements at the keys of `sets`. */
  ghost predicate Agree(view: View, sets: Sets) {
    view.Keys == sets.Keys && forall k :: k in view ==> IsSketch(view[k], sets[k])
  }

  lemma AgreeAt(view: View, sets: Sets, key: Key)
    requires AllRegs(view) && Agree(view, sets)
    ensures IsSketch(SketchAt(view, key), ElementsAt(sets, key))
  {
    hide IsSketch;
    EmptySketch();
  }

  lemma {:induction false} AgreeJoin(view: View, sets: Sets, keys: seq<Key>)
    requires AllRegs(view) && Agree(view, sets)
    ensures IsSketch(JoinKeys(view, keys), UnionKeys(sets, keys))
  {
    hide IsSketch, Join;
    if keys == [] {
      EmptySketch();
    } else {
      var front, key := keys[..|keys| - 1], keys[|keys| - 1];
      AgreeJoin(view, sets, front);
      AgreeAt(view, sets, key);
      JoinSketch(JoinKeys(view, front), UnionKeys(sets, front), SketchAt(view, key), ElementsAt(sets, key));
    }
  }

  lemma AgreeStep(view: View, sets: Sets, c: Command)
    requires AllRegs(view) && Agree(view, sets)
    ensures Agree(Step(view, c), StepSets(sets, c))
  {
    hide IsSketch, JoinKeys, UnionKeys, Feed;
    match c {
      case Add(key, hashes) =>
        AgreeAt(view, sets, key);
        FeedSketch(SketchAt(view, key), ElementsAt(sets, key), hashes);
      case MergeInto(dest, srcs) =>
        AgreeJoin(view, sets, [dest] + srcs);
      case Count(_) =>
    }
  }

  /** After any run, the registers at each key are the sketch of the set of its elements. */
  lemma {:induction false} RunAgrees(cs: seq<Command>)
    ensures Agree(Run(cs), RunSets(cs))
  {
    if cs != [] {
      RunAgrees(cs[..|cs| - 1]);
      AgreeStep(Run(cs[..|cs| - 1]), RunSets(cs[..|cs| - 1]), cs[|cs| - 1]);
    }
  }

  /** Hence runs that put the same elements at each key end with the same registers and
      the same counts. */
  lemma OnlyElementsMatter(cs: seq<Command>, ds: seq<Command>, est: Estimator, keys: seq<Key>)
    requires RunSets(cs) == RunSets(ds)
    ensures Run(cs) == Run(ds)
    ensures Estimate(est, JoinKeys(Run(cs), keys)) == Estimate(est, JoinKeys(Run(ds), keys))
  {
    hide Run, RunSets, IsSketch;
    RunAgrees(cs);
    RunAgrees(ds);
    forall k | k in Run(cs) ensures Run(cs)[k] == Run(ds)[k] {
      SketchUnique(Run(cs)[k], Run(ds)[k], RunSets(cs)[k]);
    }
    assert Run(cs) == Run(ds);
  }

  /** The count of a union is the count of one sketch fed with all its elements. */
  lemma CountOfUnion(cs: seq<Command>, keys: seq<Key>, hs: seq<Hash>)
    requires UnionKeys(RunSets(cs), keys) == set h | h in hs
    ensures JoinKeys(Run(cs), keys) == Feed(EMPTY, hs)
  {
    hide IsSketch, Run, RunSets, JoinKeys, Feed;
    RunAgrees(cs);
    AgreeJoin(Run(cs), RunSets(cs), keys);
    EmptySketch();
    FeedSketch(EMPTY, {}, hs);
    var all := set h | h in hs;
    assert {} + all == all;
    SketchUnique(JoinKeys(Run(cs), keys), Feed(EMPTY, hs), all);
  }

  // ----------------------------------------------------------------------- runs of a keyspace

  /** The replies to the PFCOUNT commands of a run. */
  function Counts(est: Estimator, cs: seq<Command>): seq<bv64> {
    if cs == [] then [] else Counts(est, cs[..|cs| - 1]) + Reply(est, Run(cs[..|cs| - 1]), cs[|cs| - 1])
  }

  lemma RunNext(est: Estimator, cs: seq<Command>, j: nat)
    requires j < |cs|
    ensures Run(cs[..j + 1]) == Step(Run(cs[..j]), cs[j])
    ensures Counts(est, cs[..j + 1]) == Counts(est, cs[..j]) + Reply(est, Run(cs[..j]), cs[j])
  {
    assert cs[..j + 1][..j] == cs[..j];
  }

  function Reply(est: Estimator, view: View, c: Command): seq<bv64>
    requires AllRegs(view)
  {
    if c.Count? then [Estimate(est, JoinKeys(view, c.keys))] else []
  }

  /** One command on a stored keyspace. */
  method ExecuteOne(ks: Keyspace, c: Command) returns (counts: seq<bv64>)
    requires ks.Valid() && (c.Count? ==> c.keys != [])
    modifies ks, ks.db.Values
    ensures ks.Valid() && fresh(ks.db.Values - old(ks.db.Values))
    ensures ks.Regs() == Step(old(ks.Regs()), c) && counts == Reply(ks.est, old(ks.Regs()), c)
  {
    hide Keyspace.Valid, Keyspace.Regs, Estimate, Feed, JoinKeys, SketchAt, AllRegs;
    counts := [];
    match c {
      case Add(key, hashes) =>
        var _ := ks.PfAdd(key, hashes);
      case MergeInto(dest, srcs) =>
        ks.PfMerge(dest, srcs);
      case Count(keys) =>
        var card := ks.PfCount(keys);
        counts := [card];
    }
  }

  /** A whole run on a stored keyspace, with its caches, encodings and promotions: the registers
      are those of the run, and every count is the estimate of the sketches of that moment. */
  method Execute(est: Estimator, sparseMaxBytes: nat, cs: seq<Command>) returns (ks: Keyspace, counts: seq<bv64>)
    requires forall i :: 0 <= i < |cs| && cs[i].Count? ==> cs[i].keys != []
    ensures ks.Valid() && ks.Regs() == Run(cs) && counts == Counts(est, cs)
  {
    hide Keyspace.Valid, Keyspace.Regs, Run, Counts, Step, Reply;
    ks := new Keyspace(est, sparseMaxBytes);
    counts := [];
    NothingRun(est, cs[..0]);
    var j := 0;
    while j < |cs|
      invariant 0 <= j <= |cs| && fresh(ks) && fresh(ks.db.Values) && ks.est == est && ks.Valid()
      invariant ks.Regs() == Run(cs[..j]) && counts == Counts(est, cs[..j])
    {
      RunNext(est, cs, j);
      var more := ExecuteOne(ks, cs[j]);
      counts := counts + more;
      j := j + 1;
    }
    assert cs[..j] == cs;
  }

  lemma NothingRun(est: Estimator, cs: seq<Command>)
    requires cs == []
    ensures Run(cs) == map[] && Counts(est, cs) == []
  {
  }
}
