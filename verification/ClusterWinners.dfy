/** What a win means for the epochs: the winner is a master with a configEpoch that is not older
    than its attempt, and greater than everything it knew of when the attempt started. */
module ClusterWinners {
  import opened Options
  import opened ClusterBus
  import opened ClusterEpochs
  import opened ClusterElection

  /** A node's own configEpoch never falls; a win raises it to the epoch of the attempt. */
  lemma HandleOwn(masters: set<Id>, s: Cluster, e: Event)
    requires EpochInv(s) && Enabled(masters, s, e)
    ensures e.n in s.nodes && e.n in s.nodes[e.n].configEpoch && e.n in Handle(masters, s, e).configEpoch
    ensures var l, r := s.nodes[e.n], Handle(masters, s, e);
            && l.configEpoch[e.n] <= r.configEpoch[e.n]
            && (!e.Elect? ==> r.authEpoch == l.authEpoch)
            && (e.Win? ==> r.master.None? && r.configEpoch[e.n] ==
                           if l.configEpoch[e.n] < l.authEpoch then l.authEpoch else l.configEpoch[e.n])
            && (e.Win? ==> forall x :: x in l.configEpoch && x != e.n ==>
                             x in r.configEpoch && r.configEpoch[x] == l.configEpoch[x])
  {
    assert Dominates(s.nodes[e.n]);
    KeepsItself(masters, s, e);
  }

  lemma StepOwn(masters: set<Id>, s: Cluster, e: Event, t: Cluster, n: Id)
    requires EpochInv(s) && Step(masters, s, e, t) && n in s.nodes && n in s.nodes[n].configEpoch
    ensures n in t.nodes && n in t.nodes[n].configEpoch
    ensures s.nodes[n].configEpoch[n] <= t.nodes[n].configEpoch[n]
    ensures e != Elect(n) ==> t.nodes[n].authEpoch == s.nodes[n].authEpoch
  {
    Parts(masters, s, e, t);
    hide Step, Handle, Enabled, EpochInv;
    if n == e.n { HandleOwn(masters, s, e); }
  }

  lemma {:induction false} OwnKept(masters: set<Id>, states: seq<Cluster>, events: seq<Event>, i: nat, j: nat, n: Id)
    requires Run(masters, states, events) && i <= j < |states| && n in states[i].nodes
    requires n in states[i].nodes[n].configEpoch
    ensures n in states[j].nodes && n in states[j].nodes[n].configEpoch
    ensures states[i].nodes[n].configEpoch[n] <= states[j].nodes[n].configEpoch[n]
    ensures (forall k :: i <= k < j ==> events[k] != Elect(n)) ==>
              states[j].nodes[n].authEpoch == states[i].nodes[n].authEpoch
    decreases j
  {
    hide Step, Init, EpochInv;
    if i < j {
      OwnKept(masters, states, events, i, j - 1, n);
      RunDominates(masters, states, events, j - 1);
      StepOwn(masters, states[j - 1], events[j - 1], states[j], n);
    }
  }

  /** The start of an attempt takes an epoch greater than every one on record. */
  lemma AttemptLeads(masters: set<Id>, s: Cluster, t: Cluster, n: Id)
    requires EpochInv(s) && Step(masters, s, Elect(n), t)
    ensures n in s.nodes && n in t.nodes && n in s.nodes[n].configEpoch && n in t.nodes[n].configEpoch
    ensures forall x :: x in s.nodes[n].configEpoch ==> s.nodes[n].configEpoch[x] < t.nodes[n].authEpoch
  {
    assert Dominates(s.nodes[n]);
    Parts(masters, s, Elect(n), t);
    ElectEffect(masters, s, Elect(n));
  }

  /** The header of a slave carries the epoch of its master, and that of a master its own. */
  lemma HeaderCarries(n: Id, l: Local, body: Body)
    requires n in l.configEpoch
    ensures Header(n, l, body).from == n && Header(n, l, body).currentEpoch == l.currentEpoch
    ensures l.master.None? ==> Header(n, l, body).configEpoch == l.configEpoch[n]
    ensures l.master.Some? && l.master.value in l.configEpoch ==>
              Header(n, l, body).configEpoch == l.configEpoch[l.master.value]
  {
  }

  /** Over any run: a slave that wins is a master, its packets carry an epoch that is not older than
      its attempt, and that epoch is greater than every one it had on record when the attempt
      started, the one of the failed master among them; and its own epoch stays as great. */
  lemma WinnerLeads(masters: set<Id>, states: seq<Cluster>, events: seq<Event>, i: nat, j: nat, n: Id, body: Body)
    requires Run(masters, states, events) && i < j < |events| && events[i] == Elect(n) && events[j] == Win(n)
    requires forall k :: i < k < j ==> events[k] != Elect(n)
    ensures n in states[i].nodes && n in states[j + 1].nodes && n in states[j + 1].nodes[n].configEpoch
    ensures var before, after := states[i].nodes[n], states[j + 1].nodes[n]; var epoch := after.authEpoch;
            && after.master.None? && (n, epoch) in states[j + 1].won
            && epoch <= after.configEpoch[n] == Header(n, after, body).configEpoch
            && (forall x :: x in before.configEpoch ==> before.configEpoch[x] < epoch)
            && (forall k :: j < k < |states| ==>
                  n in states[k].nodes && n in states[k].nodes[n].configEpoch
                    && epoch <= states[k].nodes[n].configEpoch[n])
  {
    hide Step, Init, EpochInv;
    RunDominates(masters, states, events, i);
    RunDominates(masters, states, events, j);
    AttemptLeads(masters, states[i], states[i + 1], n);
    OwnKept(masters, states, events, i + 1, j, n);
    WinRecorded(masters, states[j], states[j + 1], n);
    HeaderCarries(n, states[j + 1].nodes[n], body);
    forall k | j < k < |states|
      ensures n in states[k].nodes && n in states[k].nodes[n].configEpoch
      ensures states[j + 1].nodes[n].authEpoch <= states[k].nodes[n].configEpoch[n]
    {
      OwnKept(masters, states, events, j + 1, k, n);
    }
  }

  lemma WinRecorded(masters: set<Id>, s: Cluster, t: Cluster, n: Id)
    requires EpochInv(s) && Step(masters, s, Win(n), t)
    ensures n in s.nodes && n in t.nodes && n in t.nodes[n].configEpoch && t.nodes[n].master.None?
    ensures t.nodes[n].authEpoch == s.nodes[n].authEpoch <= t.nodes[n].configEpoch[n]
    ensures (n, t.nodes[n].authEpoch) in t.won
  {
    Parts(masters, s, Win(n), t);
    HandleOwn(masters, s, Win(n));
    hide Handle, EpochInv;
  }
}
