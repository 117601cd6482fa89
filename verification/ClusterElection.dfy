/** Election safety: a master grants at most one vote per epoch, and two slaves never win the
    same epoch, as long as every attempt starts with no vote counted.  A vote of an earlier
    attempt that arrives after a new one was scheduled is counted all the same, and then the
    new attempt may start with a vote that nobody cast for it. */
module ClusterElection {
  import opened Options
  import opened ClusterBus

  /** The condition on the schedule, at the branch that starts an attempt (line 2889): the count
      is what scheduling the attempt made it. */
  predicate Orderly(s: Cluster, e: Event) {
    e.Elect? && e.n in s.nodes ==> s.nodes[e.n].authCount == 0
  }

  /** The masters that voted for `a` in epoch `e`. */
  ghost function Supporters(masters: set<Id>, s: Cluster, a: Id, e: nat): set<Id> {
    set m | m in masters && (m, e) in s.votes && s.votes[(m, e)] == a
  }

  // --------------------------------------------------------------------------- the invariant

  ghost predicate NodeInv(masters: set<Id>, s: Cluster, n: Id)
    requires n in s.nodes && n in s.counted
  {
    var l := s.nodes[n];
    && l.lastVoteEpoch <= l.currentEpoch && l.authEpoch <= l.currentEpoch
    && l.authCount == |s.counted[n]|
    && s.counted[n] <= Supporters(masters, s, n, l.authEpoch)
  }

  /** Every count is a number of masters that cast their vote for the node in the epoch of its
      attempt. */
  ghost predicate Genuine(masters: set<Id>, s: Cluster) {
    forall n :: n in s.nodes && n in s.counted ==>
      s.nodes[n].authCount == |s.counted[n]| && s.counted[n] <= Supporters(masters, s, n, s.nodes[n].authEpoch)
  }

  /** A vote was cast by a serving master in an epoch it has passed, for a slave that asked. */
  ghost predicate VoteInv(masters: set<Id>, s: Cluster, v: (Id, nat))
    requires v in s.votes
  {
    && v.0 in masters && v.0 in s.nodes && v.1 <= s.nodes[v.0].lastVoteEpoch
    && s.votes[v] in s.nodes && v.1 <= s.nodes[s.votes[v]].authEpoch
  }

  /** A vote in flight has been cast and is not counted yet. */
  ghost predicate AckInv(s: Cluster, m: Msg) {
    && m.body.AuthAck? && (m.from, m.currentEpoch) in s.votes && s.votes[(m.from, m.currentEpoch)] == m.body.to
    && m.body.to in s.nodes && m.body.to in s.counted
    && (m.currentEpoch == s.nodes[m.body.to].authEpoch ==> m.from !in s.counted[m.body.to])
  }

  ghost predicate ElectionInv(masters: set<Id>, s: Cluster) {
    && s.counted.Keys == s.nodes.Keys
    && (forall n :: n in s.nodes ==> NodeInv(masters, s, n))
    && (forall v :: v in s.votes ==> VoteInv(masters, s, v))
    && (forall m :: m in s.msgs && m.body.AuthRequest? ==>
          m.from in s.nodes && m.currentEpoch <= s.nodes[m.from].authEpoch)
    && (forall m :: m in s.acks ==> AckInv(s, m))
    && (forall m, k :: m in s.acks && k in s.acks && m.from == k.from && m.currentEpoch == k.currentEpoch ==> m == k)
    && (forall w :: w in s.won ==> |Supporters(masters, s, w.0, w.1)| >= Quorum(masters))
  }

  lemma NodeFacts(masters: set<Id>, s: Cluster, n: Id)
    requires ElectionInv(masters, s) && n in s.nodes
    ensures n in s.counted && NodeInv(masters, s, n)
  {
  }

  lemma VoteFacts(masters: set<Id>, s: Cluster, v: (Id, nat))
    requires ElectionInv(masters, s) && v in s.votes
    ensures VoteInv(masters, s, v)
  {
  }

  // ---------------------------------------------------------------------- what a step changes

  /** The components of the next state. */
  lemma Parts(masters: set<Id>, s: Cluster, e: Event, t: Cluster)
    requires Step(masters, s, e, t)
    ensures Enabled(masters, s, e) && e.n in s.nodes && e.n in s.counted
    ensures t.nodes == s.nodes[e.n := Handle(masters, s, e)]
    ensures e.n in Handle(masters, s, e).configEpoch
    ensures if Granted(masters, s, e)
            then && t.votes == s.votes[(e.n, Handle(masters, s, e).lastVoteEpoch) := e.m.from]
                 && t.acks == s.acks + {Header(e.n, Handle(masters, s, e), AuthAck(e.m.from))}
            else t.votes == s.votes && t.acks == if e.DeliverAck? then s.acks - {e.m} else s.acks
    ensures t.counted.Keys == s.counted.Keys && forall n :: n in s.counted && n != e.n ==> t.counted[n] == s.counted[n]
    ensures t.counted[e.n] == if e.Schedule? then {}
                              else if e.DeliverAck? && Handle(masters, s, e).authCount > s.nodes[e.n].authCount
                              then s.counted[e.n] + {e.m.from} else s.counted[e.n]
  {
    hide Handle;
    KeepsItself(masters, s, e);
  }

  /** Nothing but scheduling and starting touches the attempt, and epochs only grow. */
  lemma HandleFrame(masters: set<Id>, s: Cluster, e: Event)
    requires Enabled(masters, s, e)
    ensures e.n in s.nodes && e.n in s.counted
    ensures var l, r := s.nodes[e.n], Handle(masters, s, e);
            && r.currentEpoch >= l.currentEpoch
            && (!e.Elect? ==> r.authEpoch == l.authEpoch) && (!e.Elect? && !e.Schedule? ==> r.authSent == l.authSent)
            && (!e.Schedule? && !e.DeliverAck? ==> r.authCount == l.authCount)
            && r.lastVoteEpoch == if Granted(masters, s, e) then r.currentEpoch else l.lastVoteEpoch
  {
  }

  /** A vote is cast in the requested epoch, which the master has not voted in. */
  lemma VoteFresh(masters: set<Id>, s: Cluster, e: Event)
    requires Enabled(masters, s, e) && Granted(masters, s, e) && ElectionInv(masters, s)
    ensures e.DeliverRequest? && e.n in s.nodes
    ensures var r := Handle(masters, s, e);
            && r.lastVoteEpoch == r.currentEpoch == e.m.currentEpoch
            && s.nodes[e.n].lastVoteEpoch < r.lastVoteEpoch
            && (e.n, r.lastVoteEpoch) !in s.votes
            && e.n in masters && e.m.from in s.nodes && r.lastVoteEpoch <= s.nodes[e.m.from].authEpoch
  {
    assert NodeInv(masters, s, e.n);
    assert (e.n, e.m.currentEpoch) in s.votes ==> VoteInv(masters, s, (e.n, e.m.currentEpoch));
  }

  /** Votes are never withdrawn. */
  lemma SupportKept(masters: set<Id>, s: Cluster, e: Event, t: Cluster, a: Id, epoch: nat)
    requires Step(masters, s, e, t) && ElectionInv(masters, s)
    ensures Supporters(masters, s, a, epoch) <= Supporters(masters, t, a, epoch)
    ensures |Supporters(masters, s, a, epoch)| <= |Supporters(masters, t, a, epoch)|
  {
    hide Handle, ElectionInv, Enabled;
    if Granted(masters, s, e) { VoteFresh(masters, s, e); }
    var x, y := Supporters(masters, s, a, epoch), Supporters(masters, t, a, epoch);
    assert x <= y;
    assert y == x + (y - x);
  }

  /** An AUTH_ACK that is counted is a new vote for the current attempt. */
  lemma AckCounts(masters: set<Id>, s: Cluster, e: Event)
    requires Enabled(masters, s, e) && ElectionInv(masters, s) && e.DeliverAck?
    ensures var l, r := s.nodes[e.n], Handle(masters, s, e);
            && (r.authCount == l.authCount || r.authCount == l.authCount + 1)
            && (r.authCount > l.authCount ==>
                  e.m.currentEpoch == l.authEpoch && e.m.from !in s.counted[e.n]
                  && e.m.from in Supporters(masters, s, e.n, l.authEpoch))
  {
    assert AckInv(s, e.m);
    assert VoteInv(masters, s, (e.m.from, e.m.currentEpoch));
  }

  lemma StepNode(masters: set<Id>, s: Cluster, e: Event, t: Cluster, n: Id)
    requires ElectionInv(masters, s) && Orderly(s, e) && Step(masters, s, e, t) && n in s.nodes
    ensures n in t.nodes && n in t.counted && NodeInv(masters, t, n)
  {
    hide Handle, Enabled, Supporters, Granted, ElectionInv, Step;
    Parts(masters, s, e, t);
    NodeFacts(masters, s, n);
    SupportKept(masters, s, e, t, n, s.nodes[n].authEpoch);
    if n == e.n {
      HandleFrame(masters, s, e);
      if Granted(masters, s, e) { VoteFresh(masters, s, e); }
      if e.DeliverAck? {
        AckCounts(masters, s, e);
      } else if e.Schedule? {
        ScheduleEffect(masters, s, e);
      } else if e.Elect? {
        ElectEffect(masters, s, e);
      }
    }
  }

  lemma ScheduleEffect(masters: set<Id>, s: Cluster, e: Event)
    requires Enabled(masters, s, e) && e.Schedule?
    ensures var r := Handle(masters, s, e); r.authCount == 0 && !r.authSent
  {
  }

  lemma ElectEffect(masters: set<Id>, s: Cluster, e: Event)
    requires Enabled(masters, s, e) && e.Elect?
    ensures var l, r := s.nodes[e.n], Handle(masters, s, e);
            && !l.authSent && r.authSent && r.authEpoch == r.currentEpoch == l.currentEpoch + 1
              && r.authCount == l.authCount
  {
  }

  lemma StepVote(masters: set<Id>, s: Cluster, e: Event, t: Cluster, v: (Id, nat))
    requires ElectionInv(masters, s) && Step(masters, s, e, t) && v in t.votes
    ensures VoteInv(masters, t, v)
  {
    hide Handle, Enabled, Granted, Step, ElectionInv;
    Parts(masters, s, e, t);
    NodesGrow(masters, s, e, t);
    if v in s.votes { VoteFacts(masters, s, v); }
    if Granted(masters, s, e) { VoteFresh(masters, s, e); }
  }

  /** Votes cast and elections started by a node never go back. */
  lemma NodesGrow(masters: set<Id>, s: Cluster, e: Event, t: Cluster)
    requires ElectionInv(masters, s) && Step(masters, s, e, t)
    ensures t.nodes.Keys == s.nodes.Keys
    ensures forall n :: n in s.nodes ==>
              s.nodes[n].lastVoteEpoch <= t.nodes[n].lastVoteEpoch && s.nodes[n].authEpoch <= t.nodes[n].authEpoch
  {
    hide Handle, Enabled, Granted, Step, ElectionInv;
    Parts(masters, s, e, t);
    HandleFrame(masters, s, e);
    NodeFacts(masters, s, e.n);
    if e.Elect? { ElectEffect(masters, s, e); }
  }

  lemma StepRequest(masters: set<Id>, s: Cluster, e: Event, t: Cluster, m: Msg)
    requires ElectionInv(masters, s) && Step(masters, s, e, t) && m in t.msgs && m.body.AuthRequest?
    ensures m.from in t.nodes && m.currentEpoch <= t.nodes[m.from].authEpoch
  {
    hide Handle, Enabled, Granted, AckInv, VoteInv, NodeInv;
    NodesGrow(masters, s, e, t);
    KeepsItself(masters, s, e);
    if e.Elect? { ElectEffect(masters, s, e); }
  }

  /** A vote that was in flight, and still is. */
  lemma StepOldAck(masters: set<Id>, s: Cluster, e: Event, t: Cluster, m: Msg)
    requires ElectionInv(masters, s) && Step(masters, s, e, t) && m in t.acks && m in s.acks
    ensures AckInv(t, m)
  {
    hide Handle, Enabled, Granted, Step, NodeInv;
    Parts(masters, s, e, t);
    assert AckInv(s, m);
    HandleFrame(masters, s, e);
    if Granted(masters, s, e) { VoteFresh(masters, s, e); }
    if e.Elect? { AckOld(masters, s, m); ElectEffect(masters, s, e); }
    if e.DeliverAck? { AckPresent(masters, s, e); AckCounts(masters, s, e); }
  }

  lemma AckOld(masters: set<Id>, s: Cluster, m: Msg)
    requires ElectionInv(masters, s) && m in s.acks
    ensures AckInv(s, m) && m.currentEpoch <= s.nodes[m.body.to].currentEpoch
  {
    VoteFacts(masters, s, (m.from, m.currentEpoch));
    NodeFacts(masters, s, m.body.to);
  }

  /** A vote that is being cast. */
  lemma StepNewAck(masters: set<Id>, s: Cluster, e: Event, t: Cluster, m: Msg)
    requires ElectionInv(masters, s) && Step(masters, s, e, t) && Granted(masters, s, e)
    requires m in t.acks && m !in s.acks
    ensures AckInv(t, m)
  {
    hide Handle, Enabled, Granted, ElectionInv, Step;
    Parts(masters, s, e, t);
    HandleFrame(masters, s, e);
    VoteFresh(masters, s, e);
    var to := e.m.from;
    NodeFacts(masters, s, to);
    assert t.nodes[to].authEpoch == s.nodes[to].authEpoch;
    assert e.n !in Supporters(masters, s, to, m.currentEpoch);
  }

  lemma StepAck(masters: set<Id>, s: Cluster, e: Event, t: Cluster, m: Msg)
    requires ElectionInv(masters, s) && Step(masters, s, e, t) && m in t.acks
    ensures AckInv(t, m)
  {
    hide Handle, Enabled, ElectionInv, AckInv, Granted;
    Parts(masters, s, e, t);
    if m in s.acks { StepOldAck(masters, s, e, t, m); } else { StepNewAck(masters, s, e, t, m); }
  }

  lemma AckPresent(masters: set<Id>, s: Cluster, e: Event)
    requires Enabled(masters, s, e) && e.DeliverAck?
    ensures e.m in s.acks && e.m.body == AuthAck(e.n)
  {
  }

  lemma StepAckUnique(masters: set<Id>, s: Cluster, e: Event, t: Cluster, m: Msg, k: Msg)
    requires ElectionInv(masters, s) && Step(masters, s, e, t) && m in t.acks && k in t.acks
    requires m.from == k.from && m.currentEpoch == k.currentEpoch
    ensures m == k
  {
    hide Handle, Enabled, Granted, Step;
    Parts(masters, s, e, t);
    if Granted(masters, s, e) { VoteFresh(masters, s, e); }
    if m in s.acks { assert AckInv(s, m); }
    if k in s.acks { assert AckInv(s, k); }
  }

  lemma StepWon(masters: set<Id>, s: Cluster, e: Event, t: Cluster, w: (Id, nat))
    requires ElectionInv(masters, s) && Step(masters, s, e, t) && w in t.won
    ensures |Supporters(masters, t, w.0, w.1)| >= Quorum(masters)
  {
    hide Handle, Supporters, Granted, ElectionInv;
    SupportKept(masters, s, e, t, w.0, w.1);
    if w in s.won {
      WonFacts(masters, s, w);
    } else {
      HandleFrame(masters, s, e);
      NodeFacts(masters, s, e.n);
      CardLe(s.counted[e.n], Supporters(masters, s, w.0, w.1));
    }
  }

  lemma WonFacts(masters: set<Id>, s: Cluster, w: (Id, nat))
    requires ElectionInv(masters, s) && w in s.won
    ensures |Supporters(masters, s, w.0, w.1)| >= Quorum(masters)
  {
  }

  lemma CardLe(a: set<Id>, b: set<Id>)
    requires a <= b
    ensures |a| <= |b|
  {
    assert b == a + (b - a);
  }

  lemma StepElection(masters: set<Id>, s: Cluster, e: Event, t: Cluster)
    requires ElectionInv(masters, s) && Orderly(s, e) && Step(masters, s, e, t)
    ensures ElectionInv(masters, t)
  {
    hide Handle, NodeInv, VoteInv, AckInv, Orderly, Supporters;
    assert t.nodes.Keys == s.nodes.Keys && t.counted.Keys == s.counted.Keys;
    forall n | n in t.nodes ensures NodeInv(masters, t, n) { StepNode(masters, s, e, t, n); }
    forall v | v in t.votes ensures VoteInv(masters, t, v) { StepVote(masters, s, e, t, v); }
    forall m | m in t.msgs && m.body.AuthRequest?
      ensures m.from in t.nodes && m.currentEpoch <= t.nodes[m.from].authEpoch
    {
      StepRequest(masters, s, e, t, m);
    }
    forall m | m in t.acks ensures AckInv(t, m) { StepAck(masters, s, e, t, m); }
    forall m, k | m in t.acks && k in t.acks && m.from == k.from && m.currentEpoch == k.currentEpoch ensures m == k {
      StepAckUnique(masters, s, e, t, m, k);
    }
    forall w | w in t.won
      ensures |Supporters(masters, t, w.0, w.1)| >= Quorum(masters)
    { StepWon(masters, s, e, t, w); }
  }

  /** An attempt that starts with a vote has one that nobody cast in its epoch. */
  lemma FalseVote(masters: set<Id>, s: Cluster, e: Event, t: Cluster, m: Id)
    requires ElectionInv(masters, s) && Step(masters, s, e, t) && e.Elect? && e.n in s.counted && m in s.counted[e.n]
    ensures e.n in t.nodes && e.n in t.counted && m in t.counted[e.n]
    ensures m !in Supporters(masters, t, e.n, t.nodes[e.n].authEpoch)
  {
    hide Step, Handle, Enabled, ElectionInv;
    Parts(masters, s, e, t);
    ElectEffect(masters, s, e);
    NodeFacts(masters, s, e.n);
    var v := (m, t.nodes[e.n].authEpoch);
    if v in s.votes { VoteFacts(masters, s, v); }
  }

  /** The condition is exact: a step that meets it keeps every count genuine, and one that does
      not makes a count false. */
  lemma StepGenuineIff(masters: set<Id>, s: Cluster, e: Event, t: Cluster)
    requires ElectionInv(masters, s) && Step(masters, s, e, t)
    ensures Genuine(masters, t) <==> Orderly(s, e)
  {
    hide Step, Enabled, ElectionInv, NodeInv, Genuine;
    if Orderly(s, e) {
      StepElection(masters, s, e, t);
      AllGenuine(masters, t);
    } else {
      EnabledHere(masters, s, e, t);
      NodeFacts(masters, s, e.n);
      CountedSome(masters, s, e.n);
      var m :| m in s.counted[e.n];
      FalseVote(masters, s, e, t, m);
      NotGenuine(masters, t, e.n, m);
    }
  }

  lemma EnabledHere(masters: set<Id>, s: Cluster, e: Event, t: Cluster)
    requires Step(masters, s, e, t)
    ensures e.n in s.nodes && e.n in s.counted
  {
  }

  lemma CountedSome(masters: set<Id>, s: Cluster, n: Id)
    requires n in s.nodes && n in s.counted && NodeInv(masters, s, n) && s.nodes[n].authCount != 0
    ensures s.counted[n] != {}
  {
  }

  lemma NotGenuine(masters: set<Id>, s: Cluster, n: Id, m: Id)
    requires n in s.nodes && n in s.counted && m in s.counted[n]
             && m !in Supporters(masters, s, n, s.nodes[n].authEpoch)
    ensures !Genuine(masters, s)
  {
  }

  lemma AllGenuine(masters: set<Id>, s: Cluster)
    requires ElectionInv(masters, s)
    ensures Genuine(masters, s)
  {
  }

  // ---------------------------------------------------------------------------------- theorems

  lemma InitElection(masters: set<Id>, s: Cluster)
    requires Init(masters, s)
    ensures ElectionInv(masters, s)
  {
  }

  ghost predicate OrderlyRun(masters: set<Id>, states: seq<Cluster>, events: seq<Event>) {
    Run(masters, states, events) && forall i :: 0 <= i < |events| ==> Orderly(states[i], events[i])
  }

  lemma {:induction false} RunElection(masters: set<Id>, states: seq<Cluster>, events: seq<Event>, i: nat)
    requires OrderlyRun(masters, states, events) && i < |states|
    ensures ElectionInv(masters, states[i])
  {
    hide Step, Init, ElectionInv, Orderly;
    if i == 0 {
      InitElection(masters, states[0]);
    } else {
      RunElection(masters, states, events, i - 1);
      StepElection(masters, states[i - 1], events[i - 1], states[i]);
    }
  }

  /** Over a whole run: every count is genuine in every state, if and only if every attempt
      starts with no vote counted. */
  lemma GenuineIff(masters: set<Id>, states: seq<Cluster>, events: seq<Event>)
    requires Run(masters, states, events)
    ensures (forall i :: 0 <= i < |states| ==> Genuine(masters, states[i])) <==> OrderlyRun(masters, states, events)
  {
    hide Step, Init, ElectionInv, Orderly, Genuine;
    if OrderlyRun(masters, states, events) {
      forall i | 0 <= i < |states| ensures Genuine(masters, states[i]) {
        RunElection(masters, states, events, i);
        AllGenuine(masters, states[i]);
      }
    }
    if forall i :: 0 <= i < |states| ==> Genuine(masters, states[i]) {
      forall i | 0 <= i < |events| ensures Orderly(states[i], events[i]) { GenuineUpTo(masters, states, events, i); }
    }
  }

  lemma {:induction false} GenuineUpTo(masters: set<Id>, states: seq<Cluster>, events: seq<Event>, i: nat)
    requires Run(masters, states, events) && i < |events|
    requires forall k :: 0 <= k < |states| ==> Genuine(masters, states[k])
    ensures ElectionInv(masters, states[i]) && Orderly(states[i], events[i])
  {
    hide Step, Init, ElectionInv, Orderly, Genuine;
    if i == 0 {
      InitElection(masters, states[0]);
    } else {
      GenuineUpTo(masters, states, events, i - 1);
      StepElection(masters, states[i - 1], events[i - 1], states[i]);
    }
    StepGenuineIff(masters, states[i], events[i], states[i + 1]);
  }

  /** Two majorities of the same masters share a master, who has only one vote per epoch. */
  lemma MajoritiesMeet(masters: set<Id>, s: Cluster, a: Id, b: Id, e: nat)
    requires |Supporters(masters, s, a, e)| >= Quorum(masters) && |Supporters(masters, s, b, e)| >= Quorum(masters)
    ensures a == b
  {
    if a != b {
      var x, y := Supporters(masters, s, a, e), Supporters(masters, s, b, e);
      assert x !! y;
      assert |x + y| == |x| + |y|;
      CardLe(x + y, masters);
    }
  }

  /** No two slaves win the same epoch, at whatever times of the run they win it. */
  lemma ElectionSafety(masters: set<Id>, states: seq<Cluster>, events: seq<Event>, i: nat, a: Id, b: Id, e: nat)
    requires OrderlyRun(masters, states, events) && i < |states|
    requires (a, e) in states[i].won && (b, e) in states[i].won
    ensures a == b
  {
    hide OrderlyRun;
    RunElection(masters, states, events, i);
    MajoritiesMeet(masters, states[i], a, b, e);
  }

  /** Wins are never forgotten, so the previous statement covers wins at different times. */
  lemma {:induction false} WonKept(masters: set<Id>, states: seq<Cluster>, events: seq<Event>, i: nat, j: nat)
    requires Run(masters, states, events) && i <= j < |states|
    ensures states[i].won <= states[j].won
    decreases j
  {
    if i < j {
      WonKept(masters, states, events, i, j - 1);
      assert Step(masters, states[j - 1], events[j - 1], states[j]);
    }
  }

  // ------------------------------------------------------------------------- the voters' side

  /** The epoch of the vote that a request obtains. */
  ghost function VoteEpoch(masters: set<Id>, s: Cluster, e: Event): nat
    requires Enabled(masters, s, e)
  {
    Handle(masters, s, e).lastVoteEpoch
  }

  ghost predicate VotedInPast(s: Cluster) {
    forall n :: n in s.nodes ==> s.nodes[n].lastVoteEpoch <= s.nodes[n].currentEpoch
  }

  /** Whatever the schedule, a vote epoch is not ahead of the current epoch and never decreases,
      and a vote raises it. */
  lemma StepVotes(masters: set<Id>, s: Cluster, e: Event, t: Cluster, n: Id)
    requires VotedInPast(s) && Step(masters, s, e, t) && n in s.nodes
    ensures Enabled(masters, s, e) && VotedInPast(t) && n in t.nodes
    ensures s.nodes[n].lastVoteEpoch <= t.nodes[n].lastVoteEpoch
    ensures n == e.n && Granted(masters, s, e) ==>
              s.nodes[n].lastVoteEpoch < VoteEpoch(masters, s, e) == t.nodes[n].lastVoteEpoch
  {
    HandleFrame(masters, s, e);
    Parts(masters, s, e, t);
    hide Handle, Step, Enabled;
  }

  lemma {:induction false} RunVotes(masters: set<Id>, states: seq<Cluster>, events: seq<Event>, i: nat)
    requires Run(masters, states, events) && i < |states|
    ensures VotedInPast(states[i]) && states[i].nodes.Keys == states[0].nodes.Keys
  {
    hide Step;
    if i > 0 {
      RunVotes(masters, states, events, i - 1);
      assert Step(masters, states[i - 1], events[i - 1], states[i]);
      Parts(masters, states[i - 1], events[i - 1], states[i]);
      StepVotes(masters, states[i - 1], events[i - 1], states[i], events[i - 1].n);
    }
  }

  lemma {:induction false} LastVoteGrows(masters: set<Id>, states: seq<Cluster>, events: seq<Event>, i: nat, j: nat,
                                         n: Id)
    requires Run(masters, states, events) && i <= j < |states| && n in states[i].nodes
    ensures n in states[j].nodes && states[i].nodes[n].lastVoteEpoch <= states[j].nodes[n].lastVoteEpoch
    decreases j
  {
    hide Step, Init;
    if i < j {
      LastVoteGrows(masters, states, events, i, j - 1, n);
      RunVotes(masters, states, events, j - 1);
      StepVotes(masters, states[j - 1], events[j - 1], states[j], n);
    }
  }

  /** Over any run, the epochs of the votes that a master grants strictly increase. */
  lemma VoteEpochsIncrease(masters: set<Id>, states: seq<Cluster>, events: seq<Event>, i: nat, j: nat)
    requires Run(masters, states, events) && i < j < |events| && events[i].n == events[j].n
    requires Granted(masters, states[i], events[i]) && Granted(masters, states[j], events[j])
    ensures Enabled(masters, states[i], events[i]) && Enabled(masters, states[j], events[j])
    ensures VoteEpoch(masters, states[i], events[i]) < VoteEpoch(masters, states[j], events[j])
  {
    hide Step, Init, VoteEpoch, Enabled;
    var n := events[i].n;
    RunVotes(masters, states, events, i);
    RunVotes(masters, states, events, j);
    StepVotes(masters, states[i], events[i], states[i + 1], n);
    LastVoteGrows(masters, states, events, i + 1, j, n);
    StepVotes(masters, states[j], events[j], states[j + 1], n);
  }

  // ------------------------------------------------------------------------ the condition matters

  lemma Extend(masters: set<Id>, states: seq<Cluster>, events: seq<Event>, e: Event)
    requires Run(masters, states, events) && Enabled(masters, states[|events|], e)
    ensures Run(masters, states + [Next(masters, states[|events|], e)], events + [e])
  {
    hide Enabled, Next, Init;
  }

  datatype Trace = Trace(states: seq<Cluster>, events: seq<Event>) {
    ghost predicate Valid(masters: set<Id>) { Run(masters, states, events) }

    ghost function Last(masters: set<Id>): Cluster
      requires Valid(masters)
    {
      states[|events|]
    }
  }

  lemma NothingAdded(s: Cluster, n: Id)
    ensures s.msgs + {} == s.msgs && s.acks + {} == s.acks && s.won + {} == s.won
    ensures n in s.counted ==> s.counted[n] + {} == s.counted[n]
  {
  }

  lemma DoSchedule(masters: set<Id>, r: Trace, n: Id) returns (r': Trace)
    requires r.Valid(masters) && Candidate(masters, r.Last(masters), n)
    ensures r'.Valid(masters)
    ensures var s := r.Last(masters);
            r'.Last(masters) == s.(nodes := s.nodes[n := Reschedule(s.nodes[n])], counted := s.counted[n := {}])
  {
    var e := Schedule(n);
    NothingAdded(r.Last(masters), n);
    Extend(masters, r.states, r.events, e);
    r' := Trace(r.states + [Next(masters, r.Last(masters), e)], r.events + [e]);
  }

  ghost predicate Here(s: Cluster, n: Id) {
    n in s.nodes && n in s.nodes[n].configEpoch && n in s.counted
  }

  ghost predicate Candidate(masters: set<Id>, s: Cluster, n: Id) {
    Here(s, n) && MayFailover(masters, s.nodes[n])
  }

  lemma DoElect(masters: set<Id>, r: Trace, n: Id) returns (r': Trace)
    requires r.Valid(masters) && Candidate(masters, r.Last(masters), n) && !r.Last(masters).nodes[n].authSent
    ensures r'.Valid(masters)
    ensures var s := r.Last(masters); var l := StartElection(s.nodes[n]);
            r'.Last(masters) == s.(nodes := s.nodes[n := l], msgs := s.msgs + {Header(n, l, AuthRequest)},
                                   counted := s.counted[n := s.counted[n]])
  {
    var e := Elect(n);
    NothingAdded(r.Last(masters), n);
    Extend(masters, r.states, r.events, e);
    r' := Trace(r.states + [Next(masters, r.Last(masters), e)], r.events + [e]);
  }

  lemma DoWin(masters: set<Id>, r: Trace, n: Id) returns (r': Trace)
    requires r.Valid(masters) && Candidate(masters, r.Last(masters), n)
    requires r.Last(masters).nodes[n].authSent && r.Last(masters).nodes[n].authCount >= Quorum(masters)
    ensures r'.Valid(masters)
    ensures var s := r.Last(masters); var l := WinElection(n, s.nodes[n]);
            r'.Last(masters) == s.(nodes := s.nodes[n := l], won := s.won + {(n, l.authEpoch)},
                                   counted := s.counted[n := s.counted[n]])
  {
    var e := Win(n);
    NothingAdded(r.Last(masters), n);
    Extend(masters, r.states, r.events, e);
    r' := Trace(r.states + [Next(masters, r.Last(masters), e)], r.events + [e]);
  }

  /** The request of `from` in epoch `epoch` reaches master `n`, who votes; the vote is delivered
      when `DoAck` says so. */
  lemma DoVote(masters: set<Id>, r: Trace, n: Id, m: Msg) returns (r': Trace)
    requires r.Valid(masters) && Here(r.Last(masters), n) && m in r.Last(masters).msgs && m.body.AuthRequest?
    requires Grants(ProcessHeader(r.Last(masters).nodes[n], m), m, n in masters, true)
    ensures r'.Valid(masters)
    ensures var s := r.Last(masters); var l := Voted(ProcessHeader(s.nodes[n], m));
            r'.Last(masters) == s.(nodes := s.nodes[n := l], acks := s.acks + {Header(n, l, AuthAck(m.from))},
                                   votes := s.votes[(n, l.lastVoteEpoch) := m.from],
                                   counted := s.counted[n := s.counted[n]])
  {
    var e := DeliverRequest(n, m, true);
    NothingAdded(r.Last(masters), n);
    Extend(masters, r.states, r.events, e);
    r' := Trace(r.states + [Next(masters, r.Last(masters), e)], r.events + [e]);
  }

  lemma DoAck(masters: set<Id>, r: Trace, n: Id, m: Msg) returns (r': Trace)
    requires r.Valid(masters) && Here(r.Last(masters), n) && m in r.Last(masters).acks && m.body == AuthAck(n)
    requires m.from in r.Last(masters).nodes[n].configEpoch && m.from in masters
    requires m.currentEpoch >= r.Last(masters).nodes[n].authEpoch
    ensures r'.Valid(masters)
    ensures var s := r.Last(masters); var l := ProcessAck(s.nodes[n], m, true);
            r'.Last(masters) == s.(nodes := s.nodes[n := l], acks := s.acks - {m},
                                   counted := s.counted[n := s.counted[n] + {m.from}])
  {
    var e := DeliverAck(n, m);
    NothingAdded(r.Last(masters), n);
    Extend(masters, r.states, r.events, e);
    r' := Trace(r.states + [Next(masters, r.Last(masters), e)], r.events + [e]);
  }

  // Three masters 7, 8 and 9, which all serve slots, and two slaves 1 and 2 of 7, which has failed.

  const Masters: set<Id> := {7, 8, 9}
  const All: map<Id, nat> := map[1 := 0, 2 := 0, 7 := 0, 8 := 0, 9 := 0]

  function Slave(currentEpoch: nat, authEpoch: nat, authCount: nat, authSent: bool): Local {
    Local(currentEpoch, 0, All, Some(7), authEpoch, authCount, authSent)
  }

  function Master(epoch: nat): Local { Local(epoch, epoch, All, None, 0, 0, false) }

  function Nodes(one: Local, two: Local, voters: Local): map<Id, Local> {
    map[1 := one, 2 := two, 7 := Master(0), 8 := voters, 9 := voters]
  }

  lemma Start() returns (r: Trace)
    ensures r.Valid(Masters) && r.Last(Masters).acks == {} && r.Last(Masters).counted.Keys == All.Keys
    ensures r.Last(Masters).nodes == Nodes(Slave(0, 0, 0, false), Slave(0, 0, 0, false), Master(0))
  {
    var nodes := Nodes(Slave(0, 0, 0, false), Slave(0, 0, 0, false), Master(0));
    r := Trace([Cluster(nodes, {}, {}, map[], map[1 := {}, 2 := {}, 7 := {}, 8 := {}, 9 := {}], {})], []);
  }

  /** Slave `n` starts epoch `e`, and 8 and 9 vote for it; the votes are on their way. */
  lemma TwoVotes(r0: Trace, n: Id, e: nat, voted: nat) returns (r: Trace)
    requires r0.Valid(Masters) && (n == 1 || n == 2) && voted < e && r0.Last(Masters).counted.Keys == All.Keys
    requires var s := r0.Last(Masters);
             && s.nodes.Keys == All.Keys && s.nodes[8] == s.nodes[9] == Master(voted)
             && s.nodes[n].currentEpoch + 1 == e && s.nodes[n] == Slave(e - 1, s.nodes[n].authEpoch, 0, false)
    ensures r.Valid(Masters) && r.Last(Masters).counted.Keys == All.Keys
    ensures var s, t := r0.Last(Masters), r.Last(Masters);
            && t.nodes == s.nodes[n := Slave(e, e, 0, true)][8 := Master(e)][9 := Master(e)]
            && t.won == s.won && Msg(8, e, 0, AuthAck(n)) in t.acks && Msg(9, e, 0, AuthAck(n)) in t.acks
  {
    hide Run, Next, Handle;
    var m := Msg(n, e, 0, AuthRequest);
    r := DoElect(Masters, r0, n);
    assert r.Last(Masters).nodes[n] == Slave(e, e, 0, true) && Header(n, Slave(e, e, 0, true), AuthRequest) == m;
    r := DoVote(Masters, r, 8, m);
    assert r.Last(Masters).nodes[8] == Master(e);
    r := DoVote(Masters, r, 9, m);
  }

  /** Both votes reach slave `n`, whose attempt has epoch `e`. */
  lemma TwoAcks(r0: Trace, n: Id, e: nat, l: Local) returns (r: Trace)
    requires r0.Valid(Masters) && (n == 1 || n == 2) && r0.Last(Masters).counted.Keys == All.Keys
    requires var s := r0.Last(Masters);
             && s.nodes.Keys == All.Keys && s.nodes[n] == l == Slave(e, e, 0, l.authSent)
             && Msg(8, e, 0, AuthAck(n)) in s.acks && Msg(9, e, 0, AuthAck(n)) in s.acks
    ensures r.Valid(Masters) && r.Last(Masters).counted.Keys == All.Keys
    ensures var s, t := r0.Last(Masters), r.Last(Masters);
            t.nodes == s.nodes[n := l.(authCount := 2)] && t.won == s.won
  {
    hide Run, Next, Handle;
    r := DoAck(Masters, r0, n, Msg(8, e, 0, AuthAck(n)));
    assert r.Last(Masters).nodes[n] == l.(authCount := 1);
    r := DoAck(Masters, r, n, Msg(9, e, 0, AuthAck(n)));
    assert r.Last(Masters).nodes[n] == l.(authCount := 2);
    assert r.Last(Masters).nodes == r0.Last(Masters).nodes[n := l.(authCount := 2)];
  }

  /** Slave 1 gives up its attempt in epoch 1 before the votes arrive. */
  lemma VotesOnTheWay() returns (r: Trace)
    ensures r.Valid(Masters) && r.Last(Masters).counted.Keys == All.Keys
    ensures var s := r.Last(Masters);
            && s.nodes == Nodes(Slave(1, 1, 0, false), Slave(0, 0, 0, false), Master(1))
            && Msg(8, 1, 0, AuthAck(1)) in s.acks && Msg(9, 1, 0, AuthAck(1)) in s.acks
  {
    hide Run, Next, Handle;
    r := Start();
    r := TwoVotes(r, 1, 1, 0);
    r := DoSchedule(Masters, r, 1);
    assert r.Last(Masters).nodes[1] == Slave(1, 1, 0, false);
  }

  /** The votes of epoch 1 reach slave 1 after it has scheduled a new attempt; it starts epoch 2
      with two votes, which is a quorum. */
  lemma LateVotes() returns (r: Trace)
    ensures r.Valid(Masters) && r.Last(Masters).counted.Keys == All.Keys
    ensures var s := r.Last(Masters);
            && s.nodes.Keys == All.Keys && (1, 2) in s.won
            && s.nodes[8] == s.nodes[9] == Master(1) && s.nodes[2] == Slave(0, 0, 0, false)
  {
    hide Run, Next, Handle;
    r := VotesOnTheWay();
    r := TwoAcks(r, 1, 1, Slave(1, 1, 0, false));
    r := DoElect(Masters, r, 1);
    assert r.Last(Masters).nodes[1] == Slave(2, 2, 2, true);
    r := DoWin(Masters, r, 1);
  }

  /** Without the condition safety fails: slave 2 wins epoch 2 as well, with real votes. */
  lemma LateVoteBreaksSafety() returns (r: Trace)
    ensures r.Valid(Masters)
    ensures (1, 2) in r.Last(Masters).won && (2, 2) in r.Last(Masters).won
  {
    hide Run, Next, Handle;
    r := LateVotes();
    r := DoElect(Masters, r, 2);
    r := DoSchedule(Masters, r, 2);
    assert r.Last(Masters).nodes[2] == Slave(1, 1, 0, false);
    r := TwoVotes(r, 2, 2, 1);
    r := TwoAcks(r, 2, 2, Slave(2, 2, 0, true));
    r := DoWin(Masters, r, 2);
  }
}
