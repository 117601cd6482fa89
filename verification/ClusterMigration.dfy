/** Live migration of one hash slot: the steps of `move_slot` interleaved in any order with
    client commands, key expiry and the claims of the slot that the two nodes send each other on
    the bus.

    The stores are the parts of the two databases that hash to the slot.  A run refines a
    single store, the union of the two: every executed command acts on it, and replies, as if
    the slot had never moved. */
module ClusterMigration {
  import opened Options
  import opened ClusterRouting

  type Store = map<Key, string>

  // ------------------------------------------------------------------------ client commands

  /** A command, or a whole transaction: it reads and writes the keys it names. */
  datatype Command = Command(keys: seq<Key>, run: Store -> (Store, string))

  function Part(m: Store, ks: seq<Key>): Store {
    map k | k in m && k in ks :: m[k]
  }

  function Without(m: Store, ks: seq<Key>): Store {
    map k | k in m && k !in ks :: m[k]
  }

  function Exec(m: Store, c: Command): (Store, string) {
    var (sub, reply) := c.run(Part(m, c.keys));
    (Without(m, c.keys) + Part(sub, c.keys), reply)
  }

  lemma PartLocal(a: Store, b: Store, ks: seq<Key>)
    requires forall k :: k in ks ==> k !in b
    ensures Part(a + b, ks) == Part(a, ks) == Part(b + a, ks)
    ensures a.Keys !! b.Keys ==> Without(a + b, ks) == Without(a, ks) + b && Without(b + a, ks) == b + Without(a, ks)
  {
  }

  lemma MapsCommute(x: Store, p: Store, b: Store)
    requires p.Keys !! b.Keys
    ensures (x + b) + p == (x + p) + b && (b + x) + p == b + (x + p)
  {
  }

  lemma ExecKeys(m: Store, c: Command)
    ensures forall k :: k in Exec(m, c).0 ==> k in m || k in c.keys
  {
  }

  /** A command that names no key of `b` acts on `a` alone. */
  lemma ExecLocal(a: Store, b: Store, c: Command)
    requires a.Keys !! b.Keys && forall k :: k in c.keys ==> k !in b
    ensures Exec(a + b, c) == (Exec(a, c).0 + b, Exec(a, c).1)
    ensures Exec(b + a, c) == (b + Exec(a, c).0, Exec(a, c).1)
    ensures Exec(a, c).0.Keys !! b.Keys
  {
    ExecKeys(a, c);
    PartLocal(a, b, c.keys);
    var sub := Part(c.run(Part(a, c.keys)).0, c.keys);
    assert sub.Keys !! b.Keys;
    hide Part, Without;
    MapsCommute(Without(a, c.keys), sub, b);
  }

  // ------------------------------------------------------------------------------- the nodes

  datatype Server = Server(me: Id, owner: map<nat, Id>, migrating: map<nat, Id>, importing: map<nat, Id>,
                           store: Store) {
    function Tables(): View { View(me, owner, migrating, importing, None, store.Keys) }

    predicate Owned(slot: nat, n: Id) { slot in owner && owner[slot] == n }
  }

  datatype Outcome = Done(server: Server) | Refused

  /** CLUSTER SETSLOT IMPORTING. */
  function SetImporting(s: Server, slot: nat, from: Id): Outcome {
    if s.Owned(slot, s.me) then Refused else Done(s.(importing := s.importing[slot := from]))
  }

  /** CLUSTER SETSLOT MIGRATING. */
  function SetMigrating(s: Server, slot: nat, to: Id): Outcome {
    if !s.Owned(slot, s.me) then Refused else Done(s.(migrating := s.migrating[slot := to]))
  }

  /** CLUSTER SETSLOT NODE. */
  function SetNode(s: Server, slot: nat, n: Id): Outcome {
    if s.Owned(slot, s.me) && n != s.me && s.store.Keys != {} then Refused else
    var migrating := if s.store.Keys == {} then s.migrating - {slot} else s.migrating;
    var importing := if n == s.me then s.importing - {slot} else s.importing;
    Done(s.(migrating := migrating, importing := importing, owner := s.owner[slot := n]))
  }

  /** `n` claims the slot, with an epoch that is `newer` than the owner's or not: the node rebinds
      the slot unless it is importing it, and deletes what it had in it. */
  function Claimed(s: Server, slot: nat, n: Id, newer: bool): Server {
    if slot in s.importing || s.Owned(slot, n) || !newer then s else s.(owner := s.owner[slot := n], store := map[])
  }

  datatype Transfer = Moved(src: Server, dst: Server) | NoKey | Failed

  /** MIGRATE as one step: RESTORE-ASKING at the target, which refuses a key it already has,
      then deletion at the source. */
  function Migrate(src: Server, dst: Server, slotOf: Key -> nat, k: Key): Transfer {
    if k !in src.store then NoKey
    else if RouteOf(dst.Tables(), slotOf, [k], true, false) != Serve || k in dst.store then Failed
    else Transfer.Moved(src.(store := src.store - {k}), dst.(store := dst.store[k := src.store[k]]))
  }

  // ---------------------------------------------------------------------------- the protocol

  datatype Config = Config(slot: nat, src: Id, dst: Id, slotOf: Key -> nat)

  datatype Side = Src | Dst

  /** Where the driver is; `at` records the keys at the source when a batch was listed. */
  datatype Pc = Start | Opened | Fetch | Moving(batch: seq<Key>, next: nat, at: set<Key>) | Closing(closed: set<Side>)

  /** `asked` are the key lists of commands that were answered with ASK; `rounds` counts the
      batches moved and `bound` the keys at the source when migration began; `srcEpoch` is the
      configEpoch of the source, `dstEpoch` that of the target and `current` its currentEpoch. */
  datatype State = State(src: Server, dst: Server, pc: Pc, asked: set<seq<Key>>, rounds: nat, bound: nat,
                         srcEpoch: nat, dstEpoch: nat, current: nat) {
    function Union(): Store { src.store + dst.store }
  }

  datatype Event =
    | Open | Mark | List(batch: seq<Key>) | Move | Close(side: Side)
    | SourceClaims(epoch: nat) | TargetClaims(epoch: nat)
    | SourceGrows(epoch: nat) | TargetGrows(epoch: nat, current: nat)
    | Expire(side: Side, key: Key)
    | Request(at: Side, c: Command, asking: bool, route: Route, reply: string)

  ghost predicate Init(cfg: Config, s: State) {
    && s.pc == Start && s.asked == {} && s.rounds == 0
    && s.src.me == cfg.src && s.dst.me == cfg.dst && cfg.src != cfg.dst
    && s.src.Owned(cfg.slot, cfg.src) && s.dst.Owned(cfg.slot, cfg.src)
    && cfg.slot !in s.src.migrating && cfg.slot !in s.src.importing
    && cfg.slot !in s.dst.migrating && cfg.slot !in s.dst.importing
    && s.dst.store == map[] && s.dstEpoch <= s.current
    && forall k :: k in s.src.store ==> cfg.slotOf(k) == cfg.slot
  }

  ghost predicate ClientStep(cfg: Config, s: State, e: Event, t: State)
    requires e.Request?
  {
    var server := if e.at == Src then s.src else s.dst;
    && e.c.keys != [] && (forall k :: k in e.c.keys ==> cfg.slotOf(k) == cfg.slot)
    // ASKING is sent to the target, for a command that was answered with ASK
    && (e.asking ==> e.at == Dst && e.c.keys in s.asked)
    && e.route == RouteOf(server.Tables(), cfg.slotOf, e.c.keys, e.asking, false)
    && if e.route == Serve then
         var (store, reply) := Exec(server.store, e.c);
         && e.reply == reply
         && t == if e.at == Src then s.(src := s.src.(store := store)) else s.(dst := s.dst.(store := store))
       else if e.route.Ask? then t == s.(asked := s.asked + {e.c.keys})
       else t == s
  }

  /** The target's epoch when it closes an imported slot, the greatest known epoch being its
      currentEpoch: `clusterBumpConfigEpochWithoutConsensus`. */
  function Bumped(s: State): State {
    if s.dstEpoch == 0 || s.dstEpoch != s.current then s.(dstEpoch := s.current + 1, current := s.current + 1) else s
  }

  ghost predicate DriverStep(cfg: Config, s: State, e: Event, t: State) {
    match e
    case Open =>
      var r := SetImporting(s.dst, cfg.slot, cfg.src);
      s.pc == Start && r.Done? && t == s.(dst := r.server, pc := Opened)
    case Mark =>
      var r := SetMigrating(s.src, cfg.slot, cfg.dst);
      s.pc == Opened && r.Done? && t == s.(src := r.server, pc := Fetch, bound := |s.src.store.Keys|)
    case List(batch) =>
      && s.pc == Fetch && |batch| <= 10 && (forall k :: k in batch ==> k in s.src.store)
      && (batch == [] <==> s.src.store.Keys == {})
      && t == s.(pc := if batch == [] then Closing({}) else Moving(batch, 0, s.src.store.Keys))
    case Move =>
      && s.pc.Moving? && s.pc.next < |s.pc.batch|
      && var r := Migrate(s.src, s.dst, cfg.slotOf, s.pc.batch[s.pc.next]);
         var last := s.pc.next + 1 == |s.pc.batch|;
         var moved := if r.Moved? then s.(src := r.src, dst := r.dst) else s;
         !r.Failed? && t == moved.(pc := if last then Fetch else s.pc.(next := s.pc.next + 1),
                                   rounds := if last then s.rounds + 1 else s.rounds)
    case Close(side) =>
      && s.pc.Closing? && side !in s.pc.closed
      && var r := SetNode(if side == Src then s.src else s.dst, cfg.slot, cfg.dst);
         && r.Done?
         && t == (if side == Src then s.(src := r.server) else Bumped(s.(dst := r.server)))
                 .(pc := Closing(s.pc.closed + {side}))
    case _ => false
  }

  ghost predicate Step(cfg: Config, s: State, e: Event, t: State) {
    if e.Request? then ClientStep(cfg, s, e, t)
    // the target announces the slot once it owns it, with the epoch it has
    else if e.TargetClaims? then
      && s.dst.Owned(cfg.slot, cfg.dst) && e.epoch <= s.dstEpoch
      && t == s.(src := Claimed(s.src, cfg.slot, cfg.dst, s.srcEpoch < e.epoch))
    // a packet of the source, however old, claims the slot
    else if e.SourceClaims? then
      && e.epoch <= s.srcEpoch
      && t == s.(dst := Claimed(s.dst, cfg.slot, cfg.src, s.dstEpoch < e.epoch),
                 current := if e.epoch > s.current then e.epoch else s.current)
    // epochs may grow for other reasons
    else if e.SourceGrows? then s.srcEpoch <= e.epoch && t == s.(srcEpoch := e.epoch)
    else if e.TargetGrows? then
      s.dstEpoch <= e.epoch <= e.current && s.current <= e.current && t == s.(dstEpoch := e.epoch, current := e.current)
    else if e.Expire? then
      t == if e.side == Src then s.(src := s.src.(store := s.src.store - {e.key}))
           else s.(dst := s.dst.(store := s.dst.store - {e.key}))
    else DriverStep(cfg, s, e, t)
  }

  // --------------------------------------------------------------------------- the invariant

  ghost predicate Single(ks: seq<Key>) {
    forall k :: k in ks ==> k == ks[0]
  }

  /** The source is open for migration. */
  ghost predicate OpenPhase(cfg: Config, s: State) {
    && s.src.Owned(cfg.slot, cfg.src) && cfg.slot in s.src.migrating && s.src.migrating[cfg.slot] == cfg.dst
    && s.dst.Owned(cfg.slot, cfg.src) && cfg.slot in s.dst.importing
  }

  ghost predicate Tables(cfg: Config, s: State) {
    && s.src.me == cfg.src && s.dst.me == cfg.dst && cfg.src != cfg.dst
    && cfg.slot !in s.src.importing && cfg.slot !in s.dst.migrating
    && match s.pc
       case Start =>
         && s.src.Owned(cfg.slot, cfg.src) && s.dst.Owned(cfg.slot, cfg.src)
         && cfg.slot !in s.src.migrating && cfg.slot !in s.dst.importing
       case Opened =>
         && s.src.Owned(cfg.slot, cfg.src) && s.dst.Owned(cfg.slot, cfg.src)
         && cfg.slot !in s.src.migrating && cfg.slot in s.dst.importing
       case Fetch => OpenPhase(cfg, s)
       case Moving(_, _, _) => OpenPhase(cfg, s)
       case Closing(closed) =>
         && (if s.src.Owned(cfg.slot, cfg.src)
             then Src !in closed && cfg.slot in s.src.migrating && s.src.migrating[cfg.slot] == cfg.dst
             else s.src.Owned(cfg.slot, cfg.dst))
         && (if Dst in closed then s.dst.Owned(cfg.slot, cfg.dst) && cfg.slot !in s.dst.importing
             else s.dst.Owned(cfg.slot, cfg.src) && cfg.slot in s.dst.importing)
  }

  ghost predicate Stores(cfg: Config, s: State) {
    && s.src.store.Keys !! s.dst.store.Keys
    && (forall k :: k in s.src.store ==> cfg.slotOf(k) == cfg.slot)
    && (forall k :: k in s.dst.store ==> cfg.slotOf(k) == cfg.slot)
    && (s.pc.Start? || s.pc.Opened? ==> s.dst.store == map[] && s.asked == {})
    && (s.pc.Closing? ==> s.src.store == map[])
    && (forall ks :: ks in s.asked && Single(ks) ==> ks != [] && ks[0] !in s.src.store)
  }

  /** The batch in progress shrinks the source, and rounds are paid for by keys. */
  ghost predicate Progress(s: State) {
    && (s.pc.Fetch? ==> s.rounds + |s.src.store.Keys| <= s.bound)
    && (s.pc.Moving? ==>
          && s.pc.next < |s.pc.batch| && s.src.store.Keys <= s.pc.at && s.pc.batch[0] in s.pc.at
          && (s.pc.next > 0 ==> s.pc.batch[0] !in s.src.store)
          && s.rounds + |s.pc.at| <= s.bound)
    && (s.pc.Start? || s.pc.Opened? ==> s.rounds == 0)
    && (s.pc.Closing? ==> s.rounds <= s.bound)
  }

  ghost predicate Inv(cfg: Config, s: State) {
    Tables(cfg, s) && Stores(cfg, s) && Progress(s) && s.dstEpoch <= s.current
  }

  lemma InitInv(cfg: Config, s: State)
    requires Init(cfg, s)
    ensures Inv(cfg, s)
  {
  }

  // ------------------------------------------------------------------------ what routing means

  /** The source runs a command only if it holds all its keys or migration has not begun. */
  lemma SourceServes(cfg: Config, s: State, ks: seq<Key>)
    requires Tables(cfg, s) && ks != [] && forall k :: k in ks ==> cfg.slotOf(k) == cfg.slot
    ensures var r := RouteOf(s.src.Tables(), cfg.slotOf, ks, false, false);
            && (r == Serve ==> s.src.Owned(cfg.slot, cfg.src))
            && (r == Serve ==> s.pc.Start? || s.pc.Opened? || forall k :: k in ks ==> k in s.src.store)
            && (r.Ask? ==> !s.pc.Start? && !s.pc.Opened? && exists k :: k in ks && k !in s.src.store)
  {
    assert ks[0] in ks;
  }

  /** The target runs a command as the owner, or on ASKING if it holds all keys or there is
      only one. */
  lemma TargetServes(cfg: Config, s: State, ks: seq<Key>, asking: bool)
    requires Tables(cfg, s) && ks != [] && forall k :: k in ks ==> cfg.slotOf(k) == cfg.slot
    ensures var r := RouteOf(s.dst.Tables(), cfg.slotOf, ks, asking, false);
            && (r == Serve ==> s.dst.Owned(cfg.slot, cfg.dst) ||
                               (asking && (Single(ks) || forall k :: k in ks ==> k in s.dst.store)))
            && !r.Ask?
  {
    assert ks[0] in ks;
  }

  /** RESTORE-ASKING is accepted while the slot is being imported. */
  lemma RestoreServed(cfg: Config, s: State, k: Key)
    requires OpenPhase(cfg, s) && s.dst.me == cfg.dst != cfg.src && cfg.slotOf(k) == cfg.slot
    ensures RouteOf(s.dst.Tables(), cfg.slotOf, [k], true, false) == Serve
  {
    assert [k][0] == k;
  }

  /** Whoever executes a command holds every key of the union that the command names. */
  lemma ServedKeys(cfg: Config, s: State, e: Event, t: State)
    requires Inv(cfg, s) && e.Request? && ClientStep(cfg, s, e, t) && e.route == Serve
    ensures forall k :: k in e.c.keys ==> k !in if e.at == Src then s.dst.store else s.src.store
  {
    hide RouteOf, Progress, Exec;
    if e.at == Src { SourceServes(cfg, s, e.c.keys); } else { TargetServes(cfg, s, e.c.keys, e.asking); }
  }

  // -------------------------------------------------------------------------- the refinement

  /** The single store that is refined. */
  ghost predicate Abstract(u: Store, e: Event, v: Store) {
    if e.Request? && e.route == Serve then (v, e.reply) == Exec(u, e.c)
    else if e.Expire? then v == u || v == u - {e.key}
    else v == u
  }

  ghost predicate Safe(cfg: Config, s: State, e: Event, t: State) {
    && Inv(cfg, t)
    && Abstract(s.Union(), e, t.Union())
    && (!s.pc.Start? && !s.pc.Opened? ==> t.src.store.Keys <= s.src.store.Keys)
  }

  /** Changing stores leaves the tables alone. */
  lemma TablesKept(cfg: Config, s: State, t: State)
    requires Tables(cfg, s) && t.pc == s.pc
    requires t.src.(store := s.src.store) == s.src && t.dst.(store := s.dst.store) == s.dst
    ensures Tables(cfg, t)
  {
  }

  /** What a step on the stores has to establish. */
  lemma StoresShrunk(cfg: Config, s: State, t: State)
    requires Stores(cfg, s) && t.asked == s.asked
    requires t.src.store.Keys <= s.src.store.Keys && t.src.store.Keys !! t.dst.store.Keys
    requires forall k :: k in t.dst.store ==> cfg.slotOf(k) == cfg.slot
    requires t.pc.Start? || t.pc.Opened? ==> (s.pc.Start? || s.pc.Opened?) && t.dst.store == map[]
    requires t.pc.Closing? ==> t.src.store == map[]
    ensures Stores(cfg, t)
  {
  }

  /** The facts about the stores that the steps use. */
  lemma StoreFacts(cfg: Config, s: State)
    requires Stores(cfg, s)
    ensures s.src.store.Keys !! s.dst.store.Keys
    ensures forall k :: k in s.src.store ==> cfg.slotOf(k) == cfg.slot
    ensures forall k :: k in s.dst.store ==> cfg.slotOf(k) == cfg.slot
    ensures s.pc.Closing? ==> s.src.store == map[]
    ensures s.pc.Start? || s.pc.Opened? ==> s.dst.store == map[]
  {
  }

  lemma ShrinkCard(a: set<Key>, b: set<Key>)
    ensures a <= b ==> |a| <= |b|
    ensures a < b ==> |a| < |b|
  {
    if a <= b {
      assert b == a + (b - a);
      if a != b { assert b - a != {}; }
    }
  }

  /** Keys may leave the source at any time. */
  lemma ProgressKept(s: State, t: State)
    requires Progress(s) && t.pc == s.pc && t.rounds == s.rounds && t.bound == s.bound
    requires s.pc.Start? || s.pc.Opened? || t.src.store.Keys <= s.src.store.Keys
    ensures Progress(t)
  {
    ShrinkCard(t.src.store.Keys, s.src.store.Keys);
  }

  lemma ServedAtSource(cfg: Config, s: State, e: Event, t: State)
    requires Inv(cfg, s) && e.Request? && ClientStep(cfg, s, e, t) && e.route == Serve && e.at == Src
    ensures Safe(cfg, s, e, t)
  {
    hide RouteOf, Exec, Tables, Progress;
    SourceServes(cfg, s, e.c.keys);
    ServedKeys(cfg, s, e, t);
    ExecLocal(s.src.store, s.dst.store, e.c);
    ExecKeys(s.src.store, e.c);
    TablesKept(cfg, s, t);
    ProgressKept(s, t);
    ClosedSource(cfg, s, e.c.keys);
  }

  /** Once the last batch has moved, the source runs nothing. */
  lemma ClosedSource(cfg: Config, s: State, ks: seq<Key>)
    requires Inv(cfg, s) && ks != [] && forall k :: k in ks ==> cfg.slotOf(k) == cfg.slot
    ensures s.pc.Closing? ==> RouteOf(s.src.Tables(), cfg.slotOf, ks, false, false) != Serve
  {
    hide RouteOf;
    SourceServes(cfg, s, ks);
    assert ks[0] in ks;
  }

  lemma TargetIsOpen(cfg: Config, s: State, ks: seq<Key>, asking: bool)
    requires Inv(cfg, s) && ks != [] && (forall k :: k in ks ==> cfg.slotOf(k) == cfg.slot)
             && (asking ==> ks in s.asked)
    ensures RouteOf(s.dst.Tables(), cfg.slotOf, ks, asking, false) == Serve ==> !s.pc.Start? && !s.pc.Opened?
  {
    hide RouteOf;
    TargetServes(cfg, s, ks, asking);
  }

  lemma ServedAtTarget(cfg: Config, s: State, e: Event, t: State)
    requires Inv(cfg, s) && e.Request? && ClientStep(cfg, s, e, t) && e.route == Serve && e.at == Dst
    ensures Safe(cfg, s, e, t)
  {
    hide RouteOf, Exec, Progress, Tables, Stores;
    TargetIsOpen(cfg, s, e.c.keys, e.asking);
    ServedKeys(cfg, s, e, t);
    StoreFacts(cfg, s);
    ExecLocal(s.dst.store, s.src.store, e.c);
    ExecKeys(s.dst.store, e.c);
    TablesKept(cfg, s, t);
    ProgressKept(s, t);
    StoresShrunk(cfg, s, t);
  }

  lemma Redirected(cfg: Config, s: State, e: Event, t: State)
    requires Inv(cfg, s) && e.Request? && ClientStep(cfg, s, e, t) && e.route != Serve
    ensures Safe(cfg, s, e, t)
  {
    hide RouteOf, Exec, Progress, Tables;
    if e.at == Src { SourceServes(cfg, s, e.c.keys); } else { TargetServes(cfg, s, e.c.keys, e.asking); }
    TablesKept(cfg, s, t);
    ProgressKept(s, t);
    assert e.c.keys[0] in e.c.keys;
  }

  lemma ClientSafe(cfg: Config, s: State, e: Event, t: State)
    requires Inv(cfg, s) && e.Request? && ClientStep(cfg, s, e, t)
    ensures Safe(cfg, s, e, t)
  {
    hide Inv, Safe, ClientStep;
    if e.route != Serve { Redirected(cfg, s, e, t); }
    else if e.at == Src { ServedAtSource(cfg, s, e, t); }
    else { ServedAtTarget(cfg, s, e, t); }
  }

  lemma UnionKept(a: Store, b: Store, k: Key)
    requires k in a && a.Keys !! b.Keys
    ensures (a - {k}) + b[k := a[k]] == a + b
    ensures (a - {k}).Keys == a.Keys - {k} && b[k := a[k]].Keys == b.Keys + {k}
  {
  }

  /** Moving a key, or finding that it is gone, within the open phase. */
  lemma MoveTables(cfg: Config, s: State, t: State)
    requires Tables(cfg, s) && s.pc.Moving? && (t.pc.Moving? || t.pc.Fetch?)
    requires t.src.(store := s.src.store) == s.src && t.dst.(store := s.dst.store) == s.dst
    ensures Tables(cfg, t)
  {
  }

  lemma RoundEnds(s: State, t: State, k: Key)
    requires Progress(s) && s.pc.Moving? && k == s.pc.batch[s.pc.next] && s.pc.next + 1 == |s.pc.batch|
    requires t.src.store.Keys == s.src.store.Keys - {k}
    requires t.pc == Fetch && t.rounds == s.rounds + 1 && t.bound == s.bound
    ensures Progress(t)
  {
    RoundPaid(s.src.store.Keys, k, s.pc.batch[0], s.pc.at);
  }

  lemma BatchGoesOn(s: State, t: State, k: Key)
    requires Progress(s) && s.pc.Moving? && k == s.pc.batch[s.pc.next] && s.pc.next + 1 < |s.pc.batch|
    requires t.src.store.Keys == s.src.store.Keys - {k}
    requires t.pc == Moving(s.pc.batch, s.pc.next + 1, s.pc.at) && t.rounds == s.rounds && t.bound == s.bound
    ensures Progress(t)
  {
    var first, keys := s.pc.batch[0], s.src.store.Keys;
    assert k == first || first !in keys;
    assert first !in t.src.store.Keys && t.src.store.Keys <= s.pc.at;
  }

  lemma MoveProgress(s: State, t: State, k: Key)
    requires Progress(s) && s.pc.Moving? && s.pc.next < |s.pc.batch| && k == s.pc.batch[s.pc.next]
    requires t.src.store.Keys == s.src.store.Keys - {k} && t.bound == s.bound
    requires var last := s.pc.next + 1 == |s.pc.batch|;
             && t.pc == (if last then Fetch else s.pc.(next := s.pc.next + 1))
             && t.rounds == if last then s.rounds + 1 else s.rounds
    ensures Progress(t)
  {
    hide Progress;
    if s.pc.next + 1 == |s.pc.batch| { RoundEnds(s, t, k); } else { BatchGoesOn(s, t, k); }
  }

  /** When the whole batch is gone from the source, fewer keys are left than when it was listed. */
  lemma RoundPaid(left: set<Key>, k: Key, first: Key, at: set<Key>)
    requires left <= at && first in at && (k == first || first !in left)
    ensures |left - {k}| < |at|
  {
    assert first !in left - {k};
    ShrinkCard(left - {k}, at);
  }

  lemma MoveEffect(cfg: Config, s: State, t: State)
    requires DriverStep(cfg, s, Move, t)
    ensures s.pc.Moving? && s.pc.next < |s.pc.batch| && t.asked == s.asked && t.bound == s.bound
    ensures t.srcEpoch == s.srcEpoch && t.dstEpoch == s.dstEpoch && t.current == s.current
    ensures t.src.(store := s.src.store) == s.src && t.dst.(store := s.dst.store) == s.dst
    ensures var last := s.pc.next + 1 == |s.pc.batch|;
            && t.pc == (if last then Fetch else s.pc.(next := s.pc.next + 1))
            && t.rounds == if last then s.rounds + 1 else s.rounds
    ensures var k := s.pc.batch[s.pc.next];
            if k in s.src.store
            then t.src.store == s.src.store - {k} && t.dst.store == s.dst.store[k := s.src.store[k]]
            else t.src.store == s.src.store && t.dst.store == s.dst.store
  {
    hide RouteOf;
  }

  lemma KeyMoves(cfg: Config, s: State, t: State, k: Key)
    requires Stores(cfg, s) && k in s.src.store && t.asked == s.asked && !t.pc.Closing? && !t.pc.Start? && !t.pc.Opened?
    requires t.src.store == s.src.store - {k} && t.dst.store == s.dst.store[k := s.src.store[k]]
    ensures Stores(cfg, t) && t.Union() == s.Union() && t.src.store.Keys == s.src.store.Keys - {k}
  {
    hide Stores;
    StoreFacts(cfg, s);
    UnionKept(s.src.store, s.dst.store, k);
    StoresShrunk(cfg, s, t);
  }

  lemma NoKeyMoves(cfg: Config, s: State, t: State, k: Key)
    requires Stores(cfg, s) && k !in s.src.store && t.asked == s.asked && !t.pc.Closing? && !t.pc.Start?
             && !t.pc.Opened?
    requires t.src.store == s.src.store && t.dst.store == s.dst.store
    ensures Stores(cfg, t) && t.Union() == s.Union() && t.src.store.Keys == s.src.store.Keys - {k}
  {
    hide Stores;
    StoresKept(cfg, s, t);
  }

  lemma MoveSafe(cfg: Config, s: State, t: State)
    requires Inv(cfg, s) && DriverStep(cfg, s, Move, t)
    ensures Safe(cfg, s, Move, t)
  {
    hide DriverStep, Progress, Stores, Tables, State.Union;
    MoveEffect(cfg, s, t);
    var k := s.pc.batch[s.pc.next];
    if k in s.src.store { KeyMoves(cfg, s, t, k); } else { NoKeyMoves(cfg, s, t, k); }
    MoveProgress(s, t, k);
    MoveTables(cfg, s, t);
  }

  /** Steps that touch no store. */
  lemma StoresKept(cfg: Config, s: State, t: State)
    requires Stores(cfg, s) && t.src.store == s.src.store && t.dst.store == s.dst.store && t.asked == s.asked
    requires t.pc.Start? || t.pc.Opened? ==> s.pc.Start? || s.pc.Opened?
    requires t.pc.Closing? ==> s.src.store == map[]
    ensures Stores(cfg, t)
  {
  }

  lemma SetupSafe(cfg: Config, s: State, e: Event, t: State)
    requires Inv(cfg, s) && DriverStep(cfg, s, e, t) && (e.Open? || e.Mark?)
    ensures Safe(cfg, s, e, t)
  {
    StoresKept(cfg, s, t);
    hide Stores;
  }

  lemma ListSafe(cfg: Config, s: State, e: Event, t: State)
    requires Inv(cfg, s) && DriverStep(cfg, s, e, t) && e.List?
    ensures Safe(cfg, s, e, t)
  {
    hide SetNode, SetImporting, SetMigrating, Migrate, RouteOf, Bumped;
    if e.batch != [] { assert e.batch[0] in e.batch; } else { assert s.src.store == map[]; }
    StoresKept(cfg, s, t);
    hide Stores;
  }

  /** The closing commands, in either order, put both tables in the final state. */
  lemma CloseTables(cfg: Config, s: State, side: Side, t: State)
    requires Tables(cfg, s) && s.pc.Closing? && side !in s.pc.closed && s.src.store == map[]
    requires t.pc == Closing(s.pc.closed + {side})
    requires side == Src ==> SetNode(s.src, cfg.slot, cfg.dst) == Done(t.src) && t.dst == s.dst
    requires side == Dst ==> SetNode(s.dst, cfg.slot, cfg.dst) == Done(t.dst) && t.src == s.src
    ensures Tables(cfg, t)
  {
    if side == Src {
      assert t.src.Owned(cfg.slot, cfg.dst);
    } else {
      assert t.dst.Owned(cfg.slot, cfg.dst) && cfg.slot !in t.dst.importing;
    }
  }

  lemma CloseEffect(cfg: Config, s: State, side: Side, t: State)
    requires DriverStep(cfg, s, Close(side), t)
    ensures s.pc.Closing? && side !in s.pc.closed && t.pc == Closing(s.pc.closed + {side})
    ensures side == Src ==> SetNode(s.src, cfg.slot, cfg.dst) == Done(t.src) && t.dst == s.dst
    ensures side == Dst ==> SetNode(s.dst, cfg.slot, cfg.dst) == Done(t.dst) && t.src == s.src
    ensures t.asked == s.asked && t.rounds == s.rounds && t.bound == s.bound
    ensures t.src.store == s.src.store && t.dst.store == s.dst.store
    ensures s.dstEpoch <= s.current ==> t.dstEpoch <= t.current
  {
  }

  lemma CloseSafe(cfg: Config, s: State, side: Side, t: State)
    requires Inv(cfg, s) && DriverStep(cfg, s, Close(side), t)
    ensures Safe(cfg, s, Close(side), t)
  {
    hide Tables, Stores, DriverStep, SetNode;
    CloseEffect(cfg, s, side, t);
    StoreFacts(cfg, s);
    CloseTables(cfg, s, side, t);
    StoresKept(cfg, s, t);
  }

  lemma DriverSafe(cfg: Config, s: State, e: Event, t: State)
    requires Inv(cfg, s) && DriverStep(cfg, s, e, t)
    ensures Safe(cfg, s, e, t)
  {
    hide Inv, Safe, SetNode, SetImporting, SetMigrating, Migrate;
    match e {
      case Open => SetupSafe(cfg, s, e, t);
      case Mark => SetupSafe(cfg, s, e, t);
      case List(_) => ListSafe(cfg, s, e, t);
      case Move => MoveSafe(cfg, s, t);
      case Close(side) => CloseSafe(cfg, s, side, t);
      case _ =>
    }
  }

  lemma ExpireUnion(a: Store, b: Store, k: Key)
    requires a.Keys !! b.Keys
    ensures (a - {k}) + b == if k in a then (a + b) - {k} else a + b
    ensures a + (b - {k}) == if k in b then (a + b) - {k} else a + b
    ensures (a - {k}).Keys == a.Keys - {k} && (b - {k}).Keys == b.Keys - {k}
  {
  }

  lemma ExpiresAtSource(cfg: Config, s: State, k: Key)
    requires Stores(cfg, s)
    ensures var t := s.(src := s.src.(store := s.src.store - {k}));
            && Stores(cfg, t) && t.src.store.Keys <= s.src.store.Keys
            && (t.Union() == s.Union() || t.Union() == s.Union() - {k})
  {
    hide Stores;
    StoreFacts(cfg, s);
    ExpireUnion(s.src.store, s.dst.store, k);
    StoresShrunk(cfg, s, s.(src := s.src.(store := s.src.store - {k})));
  }

  lemma ExpiresAtTarget(cfg: Config, s: State, k: Key)
    requires Stores(cfg, s)
    ensures var t := s.(dst := s.dst.(store := s.dst.store - {k}));
            Stores(cfg, t) && (t.Union() == s.Union() || t.Union() == s.Union() - {k})
  {
    hide Stores;
    StoreFacts(cfg, s);
    ExpireUnion(s.src.store, s.dst.store, k);
    StoresShrunk(cfg, s, s.(dst := s.dst.(store := s.dst.store - {k})));
  }

  lemma ExpireSafe(cfg: Config, s: State, e: Event, t: State)
    requires Inv(cfg, s) && Step(cfg, s, e, t) && e.Expire?
    ensures Safe(cfg, s, e, t)
  {
    hide RouteOf, Tables, Progress, Stores, State.Union;
    if e.side == Src { ExpiresAtSource(cfg, s, e.key); } else { ExpiresAtTarget(cfg, s, e.key); }
    TablesKept(cfg, s, t);
    ProgressKept(s, t);
  }

  lemma TargetClaimsSafe(cfg: Config, s: State, e: Event, t: State)
    requires Inv(cfg, s) && Step(cfg, s, e, t) && e.TargetClaims?
    ensures Safe(cfg, s, e, t)
  {
    assert s.pc.Closing?;
    assert t.src.store == s.src.store;
    StoresKept(cfg, s, t);
    hide Stores;
  }

  /** The target closed the slot, and then hears a claim of the source with a newer epoch. */
  ghost predicate TakesBack(cfg: Config, s: State, e: Event) {
    e.SourceClaims? && cfg.slot !in s.dst.importing && s.dst.Owned(cfg.slot, cfg.dst) && s.dstEpoch < e.epoch
  }

  /** Any other claim of the source, however old, leaves the target as it is: while the target
      imports the slot it does not listen, and then its own epoch is not older. */
  lemma SourceClaimsSafe(cfg: Config, s: State, e: Event, t: State)
    requires Inv(cfg, s) && Step(cfg, s, e, t) && e.SourceClaims? && !TakesBack(cfg, s, e)
    ensures t == s.(current := t.current) && Safe(cfg, s, e, t)
  {
    assert t.dst == s.dst;
    StoresKept(cfg, s, t);
    TablesKept(cfg, s, t);
    ProgressKept(s, t);
    hide Stores, Tables, Progress;
  }

  /** A claim that takes the slot back deletes all its keys. */
  lemma TakenBack(cfg: Config, s: State, e: Event, t: State)
    requires Inv(cfg, s) && Step(cfg, s, e, t) && TakesBack(cfg, s, e)
    ensures t.dst.Owned(cfg.slot, cfg.src) && t.Union() == map[] && s.Union() == s.dst.store
    ensures !Safe(cfg, s, e, t)
  {
    hide Progress;
    assert s.pc.Closing? && Dst in s.pc.closed;
    assert s.src.store == map[] && t.src.store == map[];
    assert !Tables(cfg, t);
  }

  lemma GrowsSafe(cfg: Config, s: State, e: Event, t: State)
    requires Inv(cfg, s) && Step(cfg, s, e, t) && (e.SourceGrows? || e.TargetGrows?)
    ensures Safe(cfg, s, e, t)
  {
    StoresKept(cfg, s, t);
    TablesKept(cfg, s, t);
    ProgressKept(s, t);
    hide Stores, Tables, Progress;
  }

  /** A step that does not take the slot back keeps the invariant, acts on the union like on a
      single store, and adds no key to the source once migration has begun; and no other step is
      safe. */
  lemma StepSafe(cfg: Config, s: State, e: Event, t: State)
    requires Inv(cfg, s) && Step(cfg, s, e, t)
    ensures Safe(cfg, s, e, t) <==> !TakesBack(cfg, s, e)
  {
    hide Inv, Safe, ClientStep, DriverStep, TakesBack;
    if TakesBack(cfg, s, e) { TakenBack(cfg, s, e, t); }
    else if e.Request? { ClientSafe(cfg, s, e, t); }
    else if e.TargetClaims? { TargetClaimsSafe(cfg, s, e, t); }
    else if e.SourceClaims? { SourceClaimsSafe(cfg, s, e, t); }
    else if e.SourceGrows? || e.TargetGrows? { GrowsSafe(cfg, s, e, t); }
    else if e.Expire? { ExpireSafe(cfg, s, e, t); }
    else { DriverSafe(cfg, s, e, t); }
  }

  /** The target has heard of the source's epoch, and its own is not older once it has closed the
      slot. */
  ghost predicate Steady(s: State) {
    s.srcEpoch <= s.current && (s.pc.Closing? && Dst in s.pc.closed ==> s.srcEpoch <= s.dstEpoch)
  }

  /** As long as the source's epoch does not grow, the slot is not taken back. */
  lemma SteadyKept(cfg: Config, s: State, e: Event, t: State)
    requires Inv(cfg, s) && Steady(s) && Step(cfg, s, e, t) && !e.SourceGrows?
    ensures !TakesBack(cfg, s, e) && Steady(t)
  {
    hide Stores, Progress, RouteOf, Exec;
  }

  /** No command of the driver is ever refused: not MIGRATE, because the target is importing and
      does not have the key, and not the closing SETSLOT NODE, because no key is left. */
  lemma NeverRefused(cfg: Config, s: State)
    requires Inv(cfg, s)
    ensures s.pc == Start ==> SetImporting(s.dst, cfg.slot, cfg.src).Done?
    ensures s.pc == Opened ==> SetMigrating(s.src, cfg.slot, cfg.dst).Done?
    ensures s.pc.Moving? ==> s.pc.next < |s.pc.batch|
                             && !Migrate(s.src, s.dst, cfg.slotOf, s.pc.batch[s.pc.next]).Failed?
    ensures s.pc.Closing? ==> SetNode(s.src, cfg.slot, cfg.dst).Done? && SetNode(s.dst, cfg.slot, cfg.dst).Done?
  {
    hide RouteOf;
    if s.pc.Moving? {
      var k := s.pc.batch[s.pc.next];
      if k in s.src.store { RestoreServed(cfg, s, k); }
    }
  }

  // -------------------------------------------------------------------------------- whole runs

  /** A finite run: `states[i]` and `states[i + 1]` are related by `events[i]`. */
  ghost predicate Run(cfg: Config, states: seq<State>, events: seq<Event>) {
    && |states| == |events| + 1 && Init(cfg, states[0])
    && forall i :: 0 <= i < |events| ==> Step(cfg, states[i], events[i], states[i + 1])
  }

  /** The slot is never taken back. */
  ghost predicate Undisturbed(cfg: Config, states: seq<State>, events: seq<Event>) {
    |states| == |events| + 1 && forall i :: 0 <= i < |events| ==> !TakesBack(cfg, states[i], events[i])
  }

  lemma {:induction false} RunInv(cfg: Config, states: seq<State>, events: seq<Event>, i: nat)
    requires Run(cfg, states, events) && Undisturbed(cfg, states, events) && i < |states|
    ensures Inv(cfg, states[i])
  {
    hide Step, Init, Inv, TakesBack;
    if i == 0 {
      InitInv(cfg, states[0]);
    } else {
      RunInv(cfg, states, events, i - 1);
      StepSafe(cfg, states[i - 1], events[i - 1], states[i]);
      SafeInv(cfg, states[i - 1], events[i - 1], states[i]);
    }
  }

  /** All steps of a run are safe if and only if the slot is never taken back. */
  lemma RunSafeIff(cfg: Config, states: seq<State>, events: seq<Event>)
    requires Run(cfg, states, events)
    ensures (forall i :: 0 <= i < |events| ==> Safe(cfg, states[i], events[i], states[i + 1]))
            <==> Undisturbed(cfg, states, events)
  {
    hide Step, Init, Inv, TakesBack, Safe;
    if Undisturbed(cfg, states, events) {
      forall i | 0 <= i < |events| ensures Safe(cfg, states[i], events[i], states[i + 1]) {
        RunInv(cfg, states, events, i);
        StepSafe(cfg, states[i], events[i], states[i + 1]);
      }
    }
    if forall i :: 0 <= i < |events| ==> Safe(cfg, states[i], events[i], states[i + 1]) {
      forall i | 0 <= i < |events| ensures !TakesBack(cfg, states[i], events[i]) {
        if i == 0 { InitInv(cfg, states[0]); } else { SafeInv(cfg, states[i - 1], events[i - 1], states[i]); }
        StepSafe(cfg, states[i], events[i], states[i + 1]);
      }
    }
  }

  /** In particular it is not if the epoch of the source, which the target has heard of, does not
      grow during the migration. */
  lemma {:induction false} SteadyRun(cfg: Config, states: seq<State>, events: seq<Event>, i: nat)
    requires Run(cfg, states, events) && Steady(states[0]) && forall e <- events :: !e.SourceGrows?
    requires i < |states|
    ensures Inv(cfg, states[i]) && Steady(states[i]) && Undisturbed(cfg, states[..i + 1], events[..i])
  {
    hide Step, Init, Inv, TakesBack, Steady;
    if i == 0 {
      InitInv(cfg, states[0]);
    } else {
      SteadyRun(cfg, states, events, i - 1);
      assert events[i - 1] in events;
      SteadyKept(cfg, states[i - 1], events[i - 1], states[i]);
      StepSafe(cfg, states[i - 1], events[i - 1], states[i]);
      SafeInv(cfg, states[i - 1], events[i - 1], states[i]);
    }
  }

  lemma SteadyUndisturbed(cfg: Config, states: seq<State>, events: seq<Event>)
    requires Run(cfg, states, events) && Steady(states[0]) && forall e <- events :: !e.SourceGrows?
    ensures Undisturbed(cfg, states, events)
  {
    hide Step, Init, Steady, TakesBack;
    SteadyRun(cfg, states, events, |events|);
    assert states[..|events| + 1] == states && events[..|events|] == events;
  }

  lemma SafeInv(cfg: Config, s: State, e: Event, t: State)
    requires Safe(cfg, s, e, t)
    ensures Inv(cfg, t)
  {
  }

  /** Any interleaving: no key is on both nodes, the union behaves as one store, the number of
      batches is bounded by the keys present when migration began, and whenever the slot is
      closed at both ends all the keys are at the target, which owns the slot. */
  lemma MigrationRefinesStore(cfg: Config, states: seq<State>, events: seq<Event>, i: nat)
    requires Run(cfg, states, events) && Undisturbed(cfg, states, events) && i < |events|
    ensures states[i].src.store.Keys !! states[i].dst.store.Keys
    ensures Abstract(states[i].Union(), events[i], states[i + 1].Union())
    ensures states[i].pc.Fetch? || states[i].pc.Moving? || states[i].pc.Closing? ==> states[i].rounds <= states[i].bound
    ensures states[i].pc == Closing({Src, Dst}) ==>
              states[i].dst.Owned(cfg.slot, cfg.dst) && states[i].src.Owned(cfg.slot, cfg.dst)
              && states[i].src.store == map[] && states[i].dst.store == states[i].Union()
  {
    hide Step, Init, Abstract, TakesBack;
    RunInv(cfg, states, events, i);
    StepSafe(cfg, states[i], events[i], states[i + 1]);
  }
}
