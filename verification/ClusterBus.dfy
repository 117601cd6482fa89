/** The cluster bus as far as epochs and votes are concerned: what a node records, what its
    packets carry, and what each handler does to the record.

    A node name is its 40 bytes read as one number, so that the byte-wise comparison of names
    is the order of the numbers.  Time, failure flags and replication offsets only decide
    whether a step is taken, and appear as arguments. */
module ClusterBus {
  import opened Options

  type Id = nat

  /** `configEpoch` maps every known node, including this one, to the configEpoch recorded for it. */
  datatype Local = Local(currentEpoch: nat, lastVoteEpoch: nat, configEpoch: map<Id, nat>, master: Option<Id>,
                         authEpoch: nat, authCount: nat, authSent: bool)

  datatype Body = Ping | AuthRequest | AuthAck(to: Id) | Update(about: Id, epoch: nat)

  /** A packet: the header of `clusterBuildMessageHdr` and the body. */
  datatype Msg = Msg(from: Id, currentEpoch: nat, configEpoch: nat, body: Body)

  function Max(a: nat, b: nat): nat { if a > b then a else b }

  // -------------------------------------------------------------------------------- sending

  /** The header carries the configEpoch of the master, if the node is a slave. */
  function Header(me: Id, l: Local, body: Body): Msg
    requires me in l.configEpoch
  {
    var whose := if l.master.Some? && l.master.value in l.configEpoch then l.master.value else me;
    Msg(me, l.currentEpoch, l.configEpoch[whose], body)
  }

  // ------------------------------------------------------------------------------ receiving

  /** The epochs of a packet from a known sender (lines 1617-1630). */
  function ProcessHeader(l: Local, m: Msg): Local {
    if m.from !in l.configEpoch then l else
    l.(currentEpoch := Max(l.currentEpoch, m.currentEpoch),
       configEpoch := l.configEpoch[m.from := Max(l.configEpoch[m.from], m.configEpoch)])
  }

  /** An UPDATE packet (lines 1970-1985). */
  function ProcessUpdate(l: Local, m: Msg): Local
    requires m.body.Update?
  {
    if m.from !in l.configEpoch || m.body.about !in l.configEpoch || l.configEpoch[m.body.about] >= m.body.epoch then l
    else l.(configEpoch := l.configEpoch[m.body.about := m.body.epoch])
  }

  /** `clusterHandleConfigEpochCollision`, with the test of line 1891; `masters` says that both
      nodes are masters. */
  predicate Collides(me: Id, l: Local, m: Msg, masters: bool) {
    && m.from in l.configEpoch && me in l.configEpoch && masters
    && m.configEpoch == l.configEpoch[me] && l.configEpoch[m.from] == l.configEpoch[me] && m.from > me
  }

  function NewEpoch(me: Id, l: Local): Local {
    l.(currentEpoch := l.currentEpoch + 1, configEpoch := l.configEpoch[me := l.currentEpoch + 1])
  }

  function ProcessPing(me: Id, l: Local, m: Msg, masters: bool): Local {
    var l1 := ProcessHeader(l, m);
    if Collides(me, l1, m, masters) then NewEpoch(me, l1) else l1
  }

  /** The epoch tests of `clusterSendFailoverAuthIfNeeded` on a processed request; `eligible`
      stands for the tests on roles, failure, time and claimed slots. */
  predicate Grants(l: Local, m: Msg, serving: bool, eligible: bool) {
    && m.from in l.configEpoch && serving && eligible
    && m.currentEpoch >= l.currentEpoch && l.lastVoteEpoch != l.currentEpoch
  }

  function Voted(l: Local): Local { l.(lastVoteEpoch := l.currentEpoch) }

  /** An AUTH_ACK (lines 1945-1957); `serving` says that the sender is a master with slots. */
  function ProcessAck(l: Local, m: Msg, serving: bool): Local {
    var l1 := ProcessHeader(l, m);
    if m.from in l.configEpoch && serving && m.currentEpoch >= l1.authEpoch
    then l1.(authCount := l1.authCount + 1) else l1
  }

  // ---------------------------------------------------------------------------- local steps

  /** `clusterGetMaxEpoch`, as the least upper bound of all recorded epochs. */
  ghost predicate IsMaxEpoch(l: Local, e: nat) {
    && l.currentEpoch <= e && (forall x :: x in l.configEpoch ==> l.configEpoch[x] <= e)
    && (e == l.currentEpoch || exists x :: x in l.configEpoch && l.configEpoch[x] == e)
  }

  /** `clusterBumpConfigEpochWithoutConsensus`, given the maximal epoch. */
  function Bump(me: Id, l: Local, maxEpoch: nat): Local
    requires me in l.configEpoch
  {
    if l.configEpoch[me] == 0 || l.configEpoch[me] != maxEpoch then NewEpoch(me, l) else l
  }

  /** CLUSTER SET-CONFIG-EPOCH. */
  function SetConfigEpoch(me: Id, l: Local, e: nat): Local
    requires me in l.configEpoch
  {
    if l.configEpoch.Keys == {me} && l.configEpoch[me] == 0
    then l.(configEpoch := l.configEpoch[me := e], currentEpoch := Max(l.currentEpoch, e)) else l
  }

  /** A new failover attempt is scheduled (lines 2826-2833). */
  function Reschedule(l: Local): Local { l.(authCount := 0, authSent := false) }

  /** The election starts (lines 2889-2900). */
  function StartElection(l: Local): Local {
    l.(currentEpoch := l.currentEpoch + 1, authEpoch := l.currentEpoch + 1, authSent := true)
  }

  /** The election is won (lines 2909-2918). */
  function WinElection(me: Id, l: Local): Local
    requires me in l.configEpoch
  {
    l.(configEpoch := l.configEpoch[me := Max(l.configEpoch[me], l.authEpoch)], master := None)
  }

  // ------------------------------------------------------------------------ distributed runs

  /** The nodes and the packets sent.  A packet may be delivered at any time after it was sent,
      in any order, repeatedly or never; but an ACK travels on one connection and is delivered
      at most once.  The other components record history: who voted for whom in which epoch,
      whose votes the current attempt of a slave has counted, and who won which epoch. */
  datatype Cluster = Cluster(nodes: map<Id, Local>, msgs: set<Msg>, acks: set<Msg>,
                             votes: map<(Id, nat), Id>, counted: map<Id, set<Id>>, won: set<(Id, nat)>)

  datatype Event =
    | Send(n: Id, about: Option<Id>) | DeliverPing(n: Id, m: Msg, masters: bool) | DeliverUpdate(n: Id, m: Msg)
    | DeliverRequest(n: Id, m: Msg, eligible: bool) | DeliverAck(n: Id, m: Msg)
    | BumpEpoch(n: Id, maxEpoch: nat) | SetEpoch(n: Id, e: nat)
    | Learn(n: Id, x: Id) | Forget(n: Id, x: Id) | Follow(n: Id, master: Option<Id>)
    | Schedule(n: Id) | Elect(n: Id) | Win(n: Id)

  ghost predicate Init(masters: set<Id>, s: Cluster) {
    && s.msgs == {} && s.acks == {} && s.votes == map[] && s.won == {} && s.counted.Keys == s.nodes.Keys
    && (forall n :: n in s.nodes ==> Fresh(n, s.nodes[n]) && s.counted[n] == {})
  }

  /** A node that knows itself and any others, all at epoch 0. */
  ghost predicate Fresh(n: Id, l: Local) {
    && l == Local(0, 0, l.configEpoch, l.master, 0, 0, false)
    && n in l.configEpoch && forall x :: x in l.configEpoch ==> l.configEpoch[x] == 0
  }

  /** Votes needed: the masters that serve slots are agreed on by all. */
  function Quorum(masters: set<Id>): nat { |masters| / 2 + 1 }

  /** The entry test of `clusterHandleSlaveFailover` (lines 2785-2795): a slave of a master that
      serves slots.  Whether that master is flagged FAIL is left open. */
  predicate MayFailover(masters: set<Id>, l: Local) {
    l.master.Some? && l.master.value in masters
  }

  ghost predicate Enabled(masters: set<Id>, s: Cluster, e: Event) {
    && e.n in s.nodes && e.n in s.nodes[e.n].configEpoch && e.n in s.counted
    && var l := s.nodes[e.n];
       match e
       case Send(_, about) => about.Some? ==> about.value in l.configEpoch
       case DeliverPing(_, m, _) => m in s.msgs && m.body.Ping?
       case DeliverUpdate(_, m) => m in s.msgs && m.body.Update?
       case DeliverRequest(_, m, _) => m in s.msgs && m.body.AuthRequest?
       case DeliverAck(n, m) => m in s.acks && m.body == AuthAck(n)
       case BumpEpoch(_, maxEpoch) => IsMaxEpoch(l, maxEpoch)
       case Learn(n, x) => x !in l.configEpoch
       case Forget(n, x) => x != n
       case Schedule(_) => MayFailover(masters, l)
       case Elect(_) => MayFailover(masters, l) && !l.authSent
       case Win(_) => MayFailover(masters, l) && l.authSent && l.authCount >= Quorum(masters)
       case _ => true
  }

  /** What the event does to its node. */
  ghost function Handle(masters: set<Id>, s: Cluster, e: Event): Local
    requires Enabled(masters, s, e)
  {
    var l := s.nodes[e.n];
    match e
    case Send(_, _) => l
    case DeliverPing(n, m, both) => ProcessPing(n, l, m, both)
    case DeliverUpdate(_, m) => ProcessUpdate(ProcessHeader(l, m), m)
    case DeliverRequest(n, m, eligible) =>
      var l1 := ProcessHeader(l, m);
      if Grants(l1, m, n in masters, eligible) then Voted(l1) else l1
    case DeliverAck(_, m) => ProcessAck(l, m, m.from in masters)
    case BumpEpoch(n, maxEpoch) => Bump(n, l, maxEpoch)
    case SetEpoch(n, epoch) => SetConfigEpoch(n, l, epoch)
    case Learn(_, x) => l.(configEpoch := l.configEpoch[x := 0])
    case Forget(_, x) => l.(configEpoch := l.configEpoch - {x})
    case Follow(_, master) => l.(master := master)
    case Schedule(_) => Reschedule(l)
    case Elect(_) => StartElection(l)
    case Win(n) => WinElection(n, l)
  }

  /** The vote that a request obtains. */
  ghost predicate Granted(masters: set<Id>, s: Cluster, e: Event) {
    && e.DeliverRequest? && e.n in s.nodes
    && Grants(ProcessHeader(s.nodes[e.n], e.m), e.m, e.n in masters, e.eligible)
  }

  /** A node never forgets itself. */
  lemma KeepsItself(masters: set<Id>, s: Cluster, e: Event)
    requires Enabled(masters, s, e)
    ensures e.n in Handle(masters, s, e).configEpoch
    ensures e.Send? && e.about.Some? ==> e.about.value in Handle(masters, s, e).configEpoch
  {
  }

  /** The packets sent by the event. */
  ghost function Sent(e: Event, l: Local): set<Msg>
    requires e.n in l.configEpoch && (e.Send? && e.about.Some? ==> e.about.value in l.configEpoch)
  {
    if e.Send? then
      {Header(e.n, l, if e.about.Some? then Update(e.about.value, l.configEpoch[e.about.value]) else Ping)}
    else if e.Elect? then {Header(e.n, l, AuthRequest)}
    else {}
  }

  ghost function Next(masters: set<Id>, s: Cluster, e: Event): Cluster
    requires Enabled(masters, s, e)
  {
    KeepsItself(masters, s, e);
    var l := Handle(masters, s, e);
    var granted := Granted(masters, s, e);
    var counts := e.DeliverAck? && l.authCount > s.nodes[e.n].authCount;
    Cluster(
      s.nodes[e.n := l],
      s.msgs + Sent(e, l),
      (if e.DeliverAck? then s.acks - {e.m} else s.acks)
      + (if granted then {Header(e.n, l, AuthAck(e.m.from))} else {}),
      if granted then s.votes[(e.n, l.lastVoteEpoch) := e.m.from] else s.votes,
      s.counted[e.n := if e.Schedule? then {} else s.counted[e.n] + if counts then {e.m.from} else {}],
      s.won + if e.Win? then {(e.n, l.authEpoch)} else {})
  }

  ghost predicate Step(masters: set<Id>, s: Cluster, e: Event, t: Cluster) {
    Enabled(masters, s, e) && t == Next(masters, s, e)
  }

  /** A finite run. */
  ghost predicate Run(masters: set<Id>, states: seq<Cluster>, events: seq<Event>) {
    && |states| == |events| + 1 && Init(masters, states[0])
    && forall i :: 0 <= i < |events| ==> Step(masters, states[i], events[i], states[i + 1])
  }
}
