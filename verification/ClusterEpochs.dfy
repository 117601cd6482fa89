/** Epoch domination: over every run, a node's currentEpoch only grows and bounds every
    configEpoch the node records, and a packet's currentEpoch bounds every configEpoch the
    packet carries. */
module ClusterEpochs {
  import opened Options
  import opened ClusterBus

  ghost predicate Dominates(l: Local) {
    l.authEpoch <= l.currentEpoch && forall x :: x in l.configEpoch ==> l.configEpoch[x] <= l.currentEpoch
  }

  predicate Bounded(m: Msg) {
    m.configEpoch <= m.currentEpoch && (m.body.Update? ==> m.body.epoch <= m.currentEpoch)
  }

  ghost predicate EpochInv(s: Cluster) {
    && (forall n :: n in s.nodes ==> Dominates(s.nodes[n]))
    && (forall m :: m in s.msgs ==> Bounded(m))
    && (forall m :: m in s.acks ==> Bounded(m))
  }

  lemma ProcessDominates(l: Local, m: Msg)
    requires Dominates(l) && Bounded(m)
    ensures var r := ProcessHeader(l, m);
            && Dominates(r) && r.currentEpoch >= l.currentEpoch
            && (m.from in l.configEpoch ==> r.currentEpoch >= m.currentEpoch)
  {
  }

  lemma PingDominates(me: Id, l: Local, m: Msg, masters: bool)
    requires Dominates(l) && Bounded(m)
    ensures Dominates(ProcessPing(me, l, m, masters)) && ProcessPing(me, l, m, masters).currentEpoch >= l.currentEpoch
  {
    hide ProcessHeader, Bounded;
    ProcessDominates(l, m);
  }

  lemma UpdateDominates(l: Local, m: Msg)
    requires Dominates(l) && Bounded(m) && m.body.Update?
    ensures var r := ProcessUpdate(ProcessHeader(l, m), m); Dominates(r) && r.currentEpoch >= l.currentEpoch
  {
    ProcessDominates(l, m);
  }

  lemma HandleDominates(masters: set<Id>, s: Cluster, e: Event)
    requires EpochInv(s) && Enabled(masters, s, e)
    ensures Dominates(Handle(masters, s, e))
    ensures Handle(masters, s, e).currentEpoch >= s.nodes[e.n].currentEpoch
  {
    hide ProcessHeader, ProcessPing, ProcessUpdate, IsMaxEpoch;
    var l := s.nodes[e.n];
    assert Dominates(l);
    match e {
      case DeliverPing(n, m, both) => PingDominates(n, l, m, both);
      case DeliverUpdate(_, m) => UpdateDominates(l, m);
      case DeliverRequest(_, m, _) => ProcessDominates(l, m);
      case DeliverAck(_, m) => ProcessDominates(l, m);
      case _ =>
    }
  }

  lemma HeaderBounded(me: Id, l: Local, body: Body)
    requires me in l.configEpoch && Dominates(l) && (body.Update? ==> body.epoch <= l.currentEpoch)
    ensures Bounded(Header(me, l, body))
  {
  }

  /** Every step keeps domination, and no currentEpoch ever decreases. */
  lemma StepDominates(masters: set<Id>, s: Cluster, e: Event, t: Cluster)
    requires EpochInv(s) && Step(masters, s, e, t)
    ensures EpochInv(t)
    ensures t.nodes.Keys == s.nodes.Keys
    ensures forall n :: n in s.nodes ==> s.nodes[n].currentEpoch <= t.nodes[n].currentEpoch
  {
    HandleDominates(masters, s, e);
    var l := Handle(masters, s, e);
    hide Dominates, Bounded, Handle;
    KeepsItself(masters, s, e);
    assert Dominates(l);
    if e.Send? {
      SendBounded(e.n, l, e.about);
    } else if e.Elect? {
      HeaderBounded(e.n, l, AuthRequest);
    } else if Granted(masters, s, e) {
      HeaderBounded(e.n, l, AuthAck(e.m.from));
    }
  }

  lemma SendBounded(me: Id, l: Local, about: Option<Id>)
    requires me in l.configEpoch && Dominates(l) && (about.Some? ==> about.value in l.configEpoch)
    ensures Bounded(Header(me, l, if about.Some? then Update(about.value, l.configEpoch[about.value]) else Ping))
  {
    if about.Some? {
      HeaderBounded(me, l, Update(about.value, l.configEpoch[about.value]));
    } else {
      HeaderBounded(me, l, Ping);
    }
  }

  lemma {:induction false} RunDominates(masters: set<Id>, states: seq<Cluster>, events: seq<Event>, i: nat)
    requires Run(masters, states, events) && i < |states|
    ensures EpochInv(states[i])
  {
    hide Step, EpochInv;
    if i == 0 {
      InitDominates(masters, states[0]);
    } else {
      RunDominates(masters, states, events, i - 1);
      StepDominates(masters, states[i - 1], events[i - 1], states[i]);
    }
  }

  lemma InitDominates(masters: set<Id>, s: Cluster)
    requires Init(masters, s)
    ensures EpochInv(s)
  {
  }

  /** The currentEpoch of a node is monotone over the whole run. */
  lemma {:induction false} CurrentEpochMonotone(masters: set<Id>, states: seq<Cluster>, events: seq<Event>, i: nat,
                                                j: nat, n: Id)
    requires Run(masters, states, events) && i <= j < |states| && n in states[i].nodes
    ensures n in states[j].nodes && states[i].nodes[n].currentEpoch <= states[j].nodes[n].currentEpoch
    decreases j
  {
    hide Step, Init, EpochInv;
    if i < j {
      CurrentEpochMonotone(masters, states, events, i, j - 1, n);
      RunDominates(masters, states, events, j - 1);
      StepDominates(masters, states[j - 1], events[j - 1], states[j]);
    }
  }

  /** Hence a unilateral bump in any reachable state makes the node's own configEpoch greater
      than every other one it knows; and it is refused exactly when the node's configEpoch is
      already the greatest epoch around, and not zero. */
  lemma BumpWins(masters: set<Id>, states: seq<Cluster>, events: seq<Event>, i: nat, n: Id, maxEpoch: nat)
    requires Run(masters, states, events) && i < |states| && n in states[i].nodes
    requires n in states[i].nodes[n].configEpoch && IsMaxEpoch(states[i].nodes[n], maxEpoch)
    ensures var l := states[i].nodes[n]; var r := Bump(n, l, maxEpoch);
            && (r != l ==> forall x :: x in l.configEpoch && x != n ==> r.configEpoch[x] < r.configEpoch[n])
            && (r == l <==> l.configEpoch[n] != 0 && l.configEpoch[n] == l.currentEpoch)
            && (r == l ==> forall x :: x in l.configEpoch ==> l.configEpoch[x] <= l.configEpoch[n])
  {
    hide Run;
    RunDominates(masters, states, events, i);
    assert Dominates(states[i].nodes[n]);
  }

  /** CLUSTER SET-CONFIG-EPOCH sets the epoch of a node that has none and knows nobody else, and is
      refused otherwise. */
  lemma EpochIsSet(n: Id, l: Local, e: nat)
    requires n in l.configEpoch && Dominates(l)
    ensures var r := SetConfigEpoch(n, l, e);
            && (r != l ==> l.configEpoch == map[n := 0] && r.configEpoch == map[n := e] && r.currentEpoch >= e)
            && (l.configEpoch == map[n := 0] ==> r.configEpoch == map[n := e])
            && Dominates(r)
  {
  }
}
