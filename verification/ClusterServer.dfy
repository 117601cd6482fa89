/** The epoch and vote handlers of a node as they update its fields.  Each is shown to be the
    corresponding step of the distributed model, of which the whole-run properties are proved. */
module ClusterServer {
  import opened Options
  import opened ClusterBus

  const SLOTS := 16384

  /** What is recorded about a node; a failed master is one flagged FAIL. */
  datatype Peer = Peer(configEpoch: nat, master: bool, numslots: nat, slaveOf: Option<Id>, failed: bool, votedTime: int)

  /** Loop over a set of nodes: an upper bound of their epochs that is attained, or the start. */
  ghost predicate MaxOver(nodes: map<Id, Peer>, seen: set<Id>, max: nat) {
    && (forall x :: x in seen && x in nodes ==> nodes[x].configEpoch <= max)
    && (max == 0 || exists x :: x in seen && x in nodes && nodes[x].configEpoch == max)
  }

  lemma MaxStep(nodes: map<Id, Peer>, seen: set<Id>, max: nat, x: Id)
    requires MaxOver(nodes, seen, max) && x in nodes
    ensures MaxOver(nodes, seen + {x}, Max(max, nodes[x].configEpoch))
  {
    assert x in seen + {x};
    if max != 0 {
      var y :| y in seen && y in nodes && nodes[y].configEpoch == max;
      assert y in seen + {x};
    }
  }

  class Server {
    const me: Id
    var currentEpoch: nat
    var lastVoteEpoch: nat
    var nodes: map<Id, Peer>
    var slots: seq<Option<Id>>
    var authEpoch: nat
    var authCount: nat
    var authSent: bool

    ghost predicate Valid()
      reads this
    {
      me in nodes && |slots| == SLOTS && forall j :: 0 <= j < SLOTS && slots[j].Some? ==> slots[j].value in nodes
    }

    /** The record of the distributed model. */
    ghost function State(): Local
      requires me in nodes
      reads this
    {
      Local(currentEpoch, lastVoteEpoch, map x | x in nodes :: nodes[x].configEpoch, nodes[me].slaveOf, authEpoch,
            authCount, authSent)
    }

    /** A node that knows itself alone. */
    constructor (me: Id)
      ensures Valid() && this.me == me && Fresh(me, State())
    {
      this.me := me;
      currentEpoch, lastVoteEpoch, authEpoch, authCount, authSent := 0, 0, 0, 0, false;
      nodes := map[me := Peer(0, true, 0, None, false, 0)];
      slots := seq(SLOTS, _ => None);
    }

    /** `clusterGetMaxEpoch`. */
    method GetMaxEpoch() returns (max: nat)
      requires Valid()
      ensures IsMaxEpoch(State(), max)
    {
      max := 0;
      var todo := nodes.Keys;
      ghost var seen: set<Id> := {};
      while todo != {}
        invariant todo + seen == nodes.Keys && MaxOver(nodes, seen, max)
        decreases |todo|
      {
        var x :| x in todo;
        MaxStep(nodes, seen, max, x);
        if nodes[x].configEpoch > max { max := nodes[x].configEpoch; }
        todo, seen := todo - {x}, seen + {x};
      }
      MaxIsAttained(State(), nodes, seen, max);
      if max < currentEpoch { max := currentEpoch; }
    }

    /** `clusterBumpConfigEpochWithoutConsensus`. */
    method BumpConfigEpoch() returns (ok: bool, max: nat)
      requires Valid()
      modifies `currentEpoch, `nodes
      ensures Valid() && IsMaxEpoch(old(State()), max) && State() == Bump(me, old(State()), max)
      ensures ok <==> State() != old(State())
      ensures ok <==> old(nodes[me].configEpoch) == 0 || old(nodes[me].configEpoch) != max
      ensures ok ==> nodes[me].configEpoch == currentEpoch == old(currentEpoch) + 1
    {
      max := GetMaxEpoch();
      ok := nodes[me].configEpoch == 0 || nodes[me].configEpoch != max;
      if ok {
        currentEpoch := currentEpoch + 1;
        nodes := nodes[me := nodes[me].(configEpoch := currentEpoch)];
        assert State() == Bump(me, old(State()), max);
      }
    }

    /** A greater currentEpoch is taken over, and a greater configEpoch is recorded for the sender, if
        it is known. */
    ghost predicate HeaderRecorded(current: nat, before: map<Id, Peer>, m: Msg)
      reads this
    {
      var known := m.from in before;
      && currentEpoch == (if known && m.currentEpoch > current then m.currentEpoch else current)
      && nodes == if known && m.configEpoch > before[m.from].configEpoch
                  then before[m.from := before[m.from].(configEpoch := m.configEpoch)] else before
    }

    /** The header of a packet (lines 1617-1630). */
    method ReceiveHeader(m: Msg)
      requires Valid()
      modifies `currentEpoch, `nodes
      ensures Valid() && State() == ProcessHeader(old(State()), m)
      ensures nodes.Keys == old(nodes.Keys)
      ensures forall x :: x in nodes ==> nodes[x] == old(nodes)[x].(configEpoch := nodes[x].configEpoch)
      ensures HeaderRecorded(old(currentEpoch), old(nodes), m)
    {
      if m.from in nodes {
        if m.currentEpoch > currentEpoch { currentEpoch := m.currentEpoch; }
        if m.configEpoch > nodes[m.from].configEpoch {
          nodes := nodes[m.from := nodes[m.from].(configEpoch := m.configEpoch)];
        }
      }
      assert State() == ProcessHeader(old(State()), m);
    }

    /** A PING or PONG, with the epoch part of `clusterHandleConfigEpochCollision`. */
    method ReceivePing(m: Msg)
      requires Valid() && m.body.Ping?
      modifies `currentEpoch, `nodes
      ensures Valid()
      ensures State() == ProcessPing(me, old(State()), m,
                                     m.from in old(nodes) && old(nodes[me].master) && old(nodes)[m.from].master)
      ensures var collides := && m.from in old(nodes) && old(nodes[me].master) && old(nodes)[m.from].master
                              && m.configEpoch == old(nodes[me].configEpoch) && m.from > me
                              && old(nodes)[m.from].configEpoch <= m.configEpoch;
              if collides
              then nodes[me].configEpoch == currentEpoch > old(currentEpoch) && currentEpoch > m.currentEpoch
              else HeaderRecorded(old(currentEpoch), old(nodes), m)
    {
      ReceiveHeader(m);
      if m.from in nodes && nodes[me].master && nodes[m.from].master && m.configEpoch == nodes[me].configEpoch {
        if nodes[m.from].configEpoch != nodes[me].configEpoch { return; }
        if m.from <= me { return; }
        ghost var before := State();
        currentEpoch := currentEpoch + 1;
        nodes := nodes[me := nodes[me].(configEpoch := currentEpoch)];
        assert State() == NewEpoch(me, before);
      }
    }

    /** The epoch part of an UPDATE packet (lines 1970-1985). */
    method ReceiveUpdate(m: Msg)
      requires Valid() && m.body.Update?
      modifies `currentEpoch, `nodes
      ensures Valid() && State().configEpoch == ProcessUpdate(ProcessHeader(old(State()), m), m).configEpoch
      ensures State().currentEpoch == ProcessUpdate(ProcessHeader(old(State()), m), m).currentEpoch
      ensures var headed := ProcessHeader(old(State()), m).configEpoch; var n := m.body.about;
              && nodes.Keys == old(nodes.Keys)
              && (forall x :: x in nodes && x != n ==> nodes[x] == old(nodes)[x].(configEpoch := headed[x]))
              && (n in nodes ==>
                    var was := old(nodes)[n];
                    nodes[n] == if m.from in nodes && headed[n] < m.body.epoch
                                then was.(master := true, configEpoch := m.body.epoch,
                                          slaveOf := if was.master then was.slaveOf else None)
                                else was.(configEpoch := headed[n]))
    {
      ReceiveHeader(m);
      ghost var before := State();
      if m.from !in nodes || m.body.about !in nodes { return; }
      var n := m.body.about;
      if nodes[n].configEpoch >= m.body.epoch { return; }
      nodes := nodes[n := nodes[n].(master := true, slaveOf := if nodes[n].master then nodes[n].slaveOf else None,
                                    configEpoch := m.body.epoch)];
      assert State().configEpoch == before.configEpoch[n := m.body.epoch];
    }

    /** Does a claimed slot have an owner with a greater epoch than the request (lines 2596-2614)? */
    method SlotsAllow(claimed: seq<bool>, epoch: nat) returns (ok: bool)
      requires Valid() && |claimed| == SLOTS
      ensures ok <==> forall j :: 0 <= j < SLOTS && claimed[j] && slots[j].Some?
                                  ==> nodes[slots[j].value].configEpoch <= epoch
    {
      var j := 0;
      while j < SLOTS
        invariant 0 <= j <= SLOTS
        invariant forall k :: 0 <= k < j && claimed[k] && slots[k].Some? ==> nodes[slots[k].value].configEpoch <= epoch
      {
        if claimed[j] && slots[j].Some? && nodes[slots[j].value].configEpoch > epoch { return false; }
        j := j + 1;
      }
      return true;
    }

    /** The tests of `clusterSendFailoverAuthIfNeeded` other than those on epochs. */
    ghost predicate Eligible(m: Msg, claimed: seq<bool>, force: bool, now: int, timeout: int)
      requires Valid() && |claimed| == SLOTS && m.from in nodes
      reads this
    {
      var node := nodes[m.from];
      && !node.master && node.slaveOf.Some? && node.slaveOf.value in nodes
      && (nodes[node.slaveOf.value].failed || force)
      && now - nodes[node.slaveOf.value].votedTime >= timeout * 2
      && forall j :: 0 <= j < SLOTS && claimed[j] && slots[j].Some?
                     ==> nodes[slots[j].value].configEpoch <= m.configEpoch
    }

    /** `clusterSendFailoverAuthIfNeeded`, on a request whose header has been processed: the vote
        is granted exactly under the conditions of the model, and recorded. */
    method SendFailoverAuthIfNeeded(m: Msg, claimed: seq<bool>, force: bool, now: int, timeout: int)
      returns (vote: bool)
      requires Valid() && m.from in nodes && |claimed| == SLOTS
      requires nodes[m.from].slaveOf.Some? ==> nodes[m.from].slaveOf.value in nodes
      modifies `lastVoteEpoch, `nodes
      ensures Valid()
      ensures vote <==> Grants(old(State()), m, old(nodes[me].master && nodes[me].numslots > 0),
                               old(Eligible(m, claimed, force, now, timeout)))
      ensures State() == if vote then Voted(old(State())) else old(State())
      ensures vote ==> old(nodes)[m.from].slaveOf.Some? && lastVoteEpoch == currentEpoch
      ensures var of := old(nodes)[m.from].slaveOf;
              vote <==>
                && old(nodes[me].master) && old(nodes[me].numslots) > 0
                && m.currentEpoch >= old(currentEpoch) && old(lastVoteEpoch) != old(currentEpoch)
                && !old(nodes)[m.from].master && of.Some? && (old(nodes)[of.value].failed || force)
                && now - old(nodes)[of.value].votedTime >= timeout * 2
                && forall j :: 0 <= j < SLOTS && claimed[j] && slots[j].Some?
                               ==> old(nodes)[slots[j].value].configEpoch <= m.configEpoch
      ensures nodes == if vote then var master := old(nodes)[m.from].slaveOf.value;
                                    old(nodes)[master := old(nodes)[master].(votedTime := now)]
                       else old(nodes)
    {
      if !nodes[me].master || nodes[me].numslots == 0 { return false; }
      if m.currentEpoch < currentEpoch { return false; }
      if lastVoteEpoch == currentEpoch { return false; }
      var node := nodes[m.from];
      if node.master || node.slaveOf.None? || (!nodes[node.slaveOf.value].failed && !force) { return false; }
      var master := node.slaveOf.value;
      if now - nodes[master].votedTime < timeout * 2 { return false; }
      var ok := SlotsAllow(claimed, m.configEpoch);
      if !ok { return false; }
      lastVoteEpoch := currentEpoch;
      nodes := nodes[master := nodes[master].(votedTime := now)];
      assert State() == Voted(old(State()));
      return true;
    }

    /** An AUTH_ACK (lines 1945-1957). */
    method ReceiveAck(m: Msg)
      requires Valid()
      modifies `currentEpoch, `nodes, `authCount
      ensures Valid()
      ensures State() == ProcessAck(old(State()), m,
                                    m.from in old(nodes) && old(nodes)[m.from].master
                                    && old(nodes)[m.from].numslots > 0)
      ensures HeaderRecorded(old(currentEpoch), old(nodes), m)
      ensures authCount == old(authCount) + if m.from in old(nodes) && old(nodes)[m.from].master
                                               && old(nodes)[m.from].numslots > 0 && m.currentEpoch >= authEpoch
                                            then 1 else 0
    {
      ReceiveHeader(m);
      ghost var before := State();
      if m.from in nodes && nodes[m.from].master && nodes[m.from].numslots > 0 && m.currentEpoch >= authEpoch {
        authCount := authCount + 1;
        assert State() == before.(authCount := authCount);
      }
    }

    /** `clusterHandleSlaveFailover`: `tooOld` is the test on the age of the data, `retry`, `early`
        and `expired` are the three tests on the age of the attempt, and `size` is the number of
        masters that serve slots. */
    method HandleSlaveFailover(manual: bool, tooOld: bool, retry: bool, early: bool, expired: bool, size: nat)
      returns (won: bool)
      requires Valid() && (nodes[me].slaveOf.Some? ==> nodes[me].slaveOf.value in nodes)
      modifies `currentEpoch, `nodes, `authEpoch, `authCount, `authSent
      ensures Valid()
      ensures var of := old(nodes[me].slaveOf);
              // a slave of a master with slots that is flagged FAIL, or is being replaced by hand
              var runs := && !old(nodes[me].master) && of.Some? && (old(nodes)[of.value].failed || manual)
                          && old(nodes)[of.value].numslots != 0 && (manual || !tooOld);
              && (won <==> runs && !retry && !early && !expired && old(authSent) && old(authCount) >= size / 2 + 1)
              && State() == if !runs then old(State())
                            else if retry then Reschedule(old(State()))
                            else if early || expired then old(State())
                            else if !old(authSent) then StartElection(old(State()))
                            else if won then WinElection(me, old(State()))
                            else old(State())
      ensures nodes.Keys == old(nodes.Keys) && forall x :: x in nodes && x != me ==> nodes[x] == old(nodes)[x]
      ensures nodes[me] == if won then old(nodes[me]).(master := true, slaveOf := None,
                                                       configEpoch := nodes[me].configEpoch)
                           else old(nodes[me])
      ensures won ==> nodes[me].configEpoch >= authEpoch
                      && (nodes[me].configEpoch == authEpoch || nodes[me].configEpoch == old(nodes[me].configEpoch))
    {
      won := false;
      if nodes[me].master || nodes[me].slaveOf.None? || (!nodes[nodes[me].slaveOf.value].failed && !manual)
         || nodes[nodes[me].slaveOf.value].numslots == 0 {
        return;
      }
      if tooOld && !manual { return; }
      if retry {
        authCount, authSent := 0, false;
      } else if !early && !expired {
        if !authSent {
          currentEpoch := currentEpoch + 1;
          authEpoch := currentEpoch;
          authSent := true;
        } else if authCount >= size / 2 + 1 {
          won := true;
          var node := nodes[me];
          if node.configEpoch < authEpoch { node := node.(configEpoch := authEpoch); }
          nodes := nodes[me := node.(master := true, slaveOf := None)];
          assert State() == WinElection(me, old(State()));
        }
      }
    }
  }

  lemma MaxIsAttained(l: Local, nodes: map<Id, Peer>, seen: set<Id>, max: nat)
    requires seen == nodes.Keys == l.configEpoch.Keys && MaxOver(nodes, seen, max)
    requires forall x :: x in nodes ==> l.configEpoch[x] == nodes[x].configEpoch
    ensures IsMaxEpoch(l, Max(max, l.currentEpoch))
  {
  }
}
