/** Resolution of colliding configEpochs: masters that have no other source of epochs, and
    exchange packets in any order, repeated or stale, move a bounded number of times and can
    only come to rest with distinct configEpochs. */
module ClusterCollision {
  import opened Options
  import opened ClusterBus

  /** The masters, the packets ever sent, and for each master the configEpochs it has had and
      the number of times it moved. */
  datatype State = State(nodes: map<Id, Local>, msgs: set<Msg>, taken: map<Id, set<nat>>, moves: map<Id, nat>) {
    predicate Formed() {
      taken.Keys == nodes.Keys && moves.Keys == nodes.Keys && forall n :: n in nodes ==> Knows(n)
    }

    predicate Knows(n: Id)
      requires n in nodes
    {
      nodes[n].configEpoch.Keys == nodes.Keys
    }

    /** The configEpoch that master `n` claims. */
    function Epoch(n: Id): nat
      requires Formed() && n in nodes
    {
      assert Knows(n);
      nodes[n].configEpoch[n]
    }
  }

  /** What `n` records of `x` is not ahead of `x`. */
  ghost predicate NotAhead(s: State, n: Id, x: Id)
    requires s.Formed() && n in s.nodes && x in s.nodes
  {
    assert s.Knows(n);
    s.nodes[n].configEpoch[x] <= s.Epoch(x)
  }

  /** Masters that know each other, with any configEpochs; what they record of others is not
      ahead of them. */
  ghost predicate Init(s: State) {
    && s.Formed() && s.msgs == {}
    && (forall n :: n in s.nodes ==>
          && s.nodes[n].master == None && s.Epoch(n) <= s.nodes[n].currentEpoch
          && s.taken[n] == {s.Epoch(n)} && s.moves[n] == 0)
    && (forall n, x :: n in s.nodes && x in s.nodes ==> NotAhead(s, n, x))
  }

  datatype Exchange = Announce(n: Id) | Deliver(n: Id, m: Msg)

  ghost predicate Enabled(s: State, e: Exchange) {
    s.Formed() && e.n in s.nodes && (e.Deliver? ==> e.m in s.msgs && e.m.from != e.n)
  }

  function Receive(n: Id, l: Local, m: Msg): Local { ProcessPing(n, l, m, true) }

  ghost predicate Step(s: State, e: Exchange, t: State) {
    && Enabled(s, e)
    && match e
       case Announce(n) => s.Knows(n) && t == s.(msgs := s.msgs + {Header(n, s.nodes[n], Ping)})
       case Deliver(n, m) =>
         var l := Receive(n, s.nodes[n], m);
         && n in l.configEpoch
         && t == s.(nodes := s.nodes[n := l], taken := s.taken[n := s.taken[n] + {l.configEpoch[n]}],
                    moves := s.moves[n := s.moves[n] + if l.configEpoch[n] != s.Epoch(n) then 1 else 0])
  }

  // --------------------------------------------------------------------------- the invariant

  /** The epochs that the masters in `u` have had. */
  ghost function Values(s: State, u: set<Id>): set<nat>
    requires u <= s.taken.Keys
  {
    set n, e | n in u && e in s.taken[n] :: e
  }

  ghost function Above(s: State, n: Id): set<Id> { set x | x in s.nodes && x > n }

  ghost predicate NodeInv(s: State, n: Id)
    requires s.Formed() && n in s.nodes
  {
    && s.nodes[n].master == None && s.Epoch(n) <= s.nodes[n].currentEpoch
    && History(s.taken[n], s.Epoch(n), s.moves[n], Values(s, Above(s, n)))
  }

  /** The epochs taken up to the present one, each by a move; an epoch is left only because a
      master with a greater name has had it. */
  ghost predicate History(taken: set<nat>, epoch: nat, moves: nat, above: set<nat>) {
    && epoch in taken && (forall e :: e in taken ==> e <= epoch)
    && moves + 1 == |taken| && taken - {epoch} <= above
  }

  ghost predicate Inv(s: State) {
    && s.Formed()
    && (forall n :: n in s.nodes ==> NodeInv(s, n))
    && (forall n, x :: n in s.nodes && x in s.nodes ==> NotAhead(s, n, x))
    && (forall m :: m in s.msgs ==> m.from in s.nodes && m.configEpoch in s.taken[m.from])
  }

  lemma Facts(s: State, n: Id)
    requires Inv(s) && n in s.nodes
    ensures s.Formed() && s.Knows(n) && NodeInv(s, n) && n in s.taken && n in s.moves
  {
  }

  lemma FactsOf(s: State, n: Id, x: Id)
    requires Inv(s) && n in s.nodes && x in s.nodes
    ensures s.Formed() && s.Knows(n) && s.Knows(x) && s.nodes[n].configEpoch[x] <= s.Epoch(x)
  {
    assert NotAhead(s, n, x);
  }

  lemma MsgFacts(s: State, m: Msg)
    requires Inv(s) && m in s.msgs
    ensures s.Formed() && m.from in s.nodes && m.from in s.taken && m.configEpoch in s.taken[m.from]
  {
  }

  /** One packet, one record: either the own epoch stays, or it collided with a greater name. */
  lemma PingCases(n: Id, l: Local, m: Msg)
    requires n in l.configEpoch && m.from in l.configEpoch && m.from != n && l.configEpoch[n] <= l.currentEpoch
    ensures var r := Receive(n, l, m);
            && r.configEpoch.Keys == l.configEpoch.Keys && r.master == l.master && r.configEpoch[n] <= r.currentEpoch
            && (forall x :: x in l.configEpoch && x != n && x != m.from ==> r.configEpoch[x] == l.configEpoch[x])
            && r.configEpoch[m.from] == Max(l.configEpoch[m.from], m.configEpoch)
            && (r.configEpoch[n] == l.configEpoch[n] ||
                (r.configEpoch[n] > l.configEpoch[n] && m.from > n && l.configEpoch[n] == m.configEpoch))
  {
  }

  /** Receiving a packet from another master: either nothing moves, or there was a collision
      with a greater name and the new epoch is fresh. */
  lemma ReceiveCases(s: State, n: Id, m: Msg)
    requires Inv(s) && n in s.nodes && m in s.msgs && m.from != n
    ensures s.Formed() && s.Knows(n) && m.from in s.nodes
    ensures var l, r := s.nodes[n], Receive(n, s.nodes[n], m);
            && r.configEpoch.Keys == s.nodes.Keys && r.master == None
            && r.configEpoch[n] <= r.currentEpoch && r.configEpoch[n] >= s.Epoch(n)
            && (r.configEpoch[n] != s.Epoch(n) ==> m.from > n && s.Epoch(n) in s.taken[m.from])
  {
    hide Inv, Receive, State.Formed;
    MsgFacts(s, m);
    Facts(s, n);
    PingCases(n, s.nodes[n], m);
  }

  /** What is recorded of others stays behind them. */
  lemma ReceiveBehind(s: State, n: Id, m: Msg, x: Id)
    requires Inv(s) && n in s.nodes && m in s.msgs && m.from != n && x in s.nodes && x != n
    ensures s.Formed() && x in Receive(n, s.nodes[n], m).configEpoch
    ensures Receive(n, s.nodes[n], m).configEpoch[x] <= s.Epoch(x)
  {
    hide Inv, Receive, State.Formed;
    MsgFacts(s, m);
    Facts(s, n);
    FactsOf(s, n, x);
    Facts(s, m.from);
    PingCases(n, s.nodes[n], m);
  }

  lemma ValuesGrow(s: State, t: State, u: set<Id>)
    requires u <= s.taken.Keys && s.taken.Keys == t.taken.Keys
    requires forall n :: n in u ==> s.taken[n] <= t.taken[n]
    ensures Values(s, u) <= Values(t, u)
  {
  }

  lemma UpdatedFormed(s: State, t: State, n: Id, l: Local)
    requires s.Formed() && n in s.nodes && t.nodes == s.nodes[n := l] && l.configEpoch.Keys == s.nodes.Keys
    requires t.taken.Keys == s.taken.Keys && t.moves.Keys == s.moves.Keys
    ensures t.Formed() && t.nodes.Keys == s.nodes.Keys
  {
    hide State.Knows;
    assert t.nodes.Keys == s.nodes.Keys;
    forall x | x in t.nodes ensures t.Knows(x) {
      assert s.Knows(x);
      KnowsKept(s, t, n, l, x);
    }
  }

  lemma KnowsKept(s: State, t: State, n: Id, l: Local, x: Id)
    requires x in s.nodes && s.Knows(x) && t.nodes.Keys == s.nodes.Keys
    requires t.nodes == s.nodes[n := l] && l.configEpoch.Keys == s.nodes.Keys
    ensures t.Knows(x)
  {
  }

  lemma DeliverFormed(s: State, n: Id, m: Msg, t: State)
    requires Inv(s) && Step(s, Deliver(n, m), t)
    ensures t.Formed() && t.nodes.Keys == s.nodes.Keys && t.Epoch(n) == Receive(n, s.nodes[n], m).configEpoch[n]
    ensures forall x :: x in s.nodes && x != n ==> t.nodes[x] == s.nodes[x] && t.Epoch(x) == s.Epoch(x)
  {
    hide Receive, Inv, State.Formed;
    ReceiveCases(s, n, m);
    FormedKeys(s);
    UpdatedFormed(s, t, n, Receive(n, s.nodes[n], m));
  }

  lemma HistoryStays(taken: set<nat>, epoch: nat, moves: nat, above: set<nat>, more: set<nat>)
    requires History(taken, epoch, moves, above) && above <= more
    ensures History(taken + {epoch}, epoch, moves, more)
  {
    assert taken + {epoch} == taken;
  }

  lemma HistoryMoves(taken: set<nat>, epoch: nat, moves: nat, above: set<nat>, more: set<nat>, next: nat)
    requires History(taken, epoch, moves, above) && above <= more && epoch < next && epoch in more
    ensures History(taken + {next}, next, moves + 1, more)
  {
    assert next !in taken;
    assert (taken + {next}) - {next} == taken;
  }

  lemma HadAbove(s: State, n: Id, x: Id, e: nat)
    requires s.taken.Keys == s.nodes.Keys && x in s.nodes && x > n && e in s.taken[x]
    ensures e in Values(s, Above(s, n))
  {
    assert x in Above(s, n);
  }

  /** The receiver. */
  lemma DeliverTo(s: State, n: Id, m: Msg, t: State)
    requires Inv(s) && Step(s, Deliver(n, m), t) && t.Formed() && t.nodes.Keys == s.nodes.Keys
    ensures NodeInv(t, n)
  {
    hide Receive, Inv, State.Formed, History, Values;
    ReceiveCases(s, n, m);
    Facts(s, n);
    FormedKeys(s);
    DeliverFormed(s, n, m, t);
    assert Above(t, n) == Above(s, n);
    var above, more := Values(s, Above(s, n)), Values(t, Above(t, n));
    ValuesGrow(s, t, Above(s, n));
    if t.Epoch(n) != s.Epoch(n) {
      HadAbove(s, n, m.from, s.Epoch(n));
      HistoryMoves(s.taken[n], s.Epoch(n), s.moves[n], above, more, t.Epoch(n));
    } else {
      HistoryStays(s.taken[n], s.Epoch(n), s.moves[n], above, more);
    }
  }

  /** Everybody else. */
  lemma OthersKept(s: State, t: State, x: Id)
    requires Inv(s) && t.Formed() && x in s.nodes && t.nodes.Keys == s.nodes.Keys
    requires t.nodes[x] == s.nodes[x] && t.taken[x] == s.taken[x] && t.moves[x] == s.moves[x]
    requires forall k :: k in s.nodes ==> k in s.taken && s.taken[k] <= t.taken[k]
    ensures NodeInv(t, x)
  {
    hide Inv, State.Formed;
    Facts(s, x);
    FormedKeys(s);
    FormedKeys(t);
    assert t.Epoch(x) == s.Epoch(x);
    assert Above(t, x) == Above(s, x);
    ValuesGrow(s, t, Above(s, x));
  }

  lemma FormedKeys(s: State)
    requires s.Formed()
    ensures s.taken.Keys == s.nodes.Keys && s.moves.Keys == s.nodes.Keys
  {
  }

  lemma DeliverInv(s: State, n: Id, m: Msg, t: State)
    requires Inv(s) && Step(s, Deliver(n, m), t)
    ensures Inv(t)
  {
    hide Receive, NodeInv, State.Formed, NotAhead;
    DeliverFormed(s, n, m, t);
    FormedKeys(s);
    forall x | x in t.nodes ensures NodeInv(t, x) {
      if x == n { DeliverTo(s, n, m, t); } else { OthersKept(s, t, x); }
    }
    forall y, x | y in t.nodes && x in t.nodes ensures NotAhead(t, y, x) { DeliverBehind(s, n, m, t, y, x); }
  }

  lemma DeliverBehind(s: State, n: Id, m: Msg, t: State, y: Id, x: Id)
    requires Inv(s) && Step(s, Deliver(n, m), t) && t.Formed() && y in t.nodes && x in t.nodes
    ensures NotAhead(t, y, x)
  {
    hide Receive, Inv, State.Formed, NodeInv;
    DeliverFormed(s, n, m, t);
    ReceiveCases(s, n, m);
    FactsOf(s, y, x);
    if y == n && x != n { ReceiveBehind(s, n, m, x); }
  }

  lemma AnnounceInv(s: State, n: Id, t: State)
    requires Inv(s) && Step(s, Announce(n), t)
    ensures Inv(t)
  {
    hide NodeInv, State.Formed, NotAhead;
    SameNodes(s, t);
    FormedKeys(s);
    forall x | x in t.nodes ensures NodeInv(t, x) { OthersKept(s, t, x); }
    Announced(s, n);
    forall y, x | y in t.nodes && x in t.nodes ensures NotAhead(t, y, x) { SameRecords(s, t, y, x); }
  }

  lemma SameNodes(s: State, t: State)
    requires s.Formed() && t.nodes == s.nodes && t.taken == s.taken && t.moves == s.moves
    ensures t.Formed()
  {
    forall x | x in t.nodes ensures t.Knows(x) { assert s.Knows(x); }
  }

  lemma SameRecords(s: State, t: State, y: Id, x: Id)
    requires Inv(s) && t.Formed() && t.nodes == s.nodes && y in s.nodes && x in s.nodes
    ensures NotAhead(t, y, x)
  {
    hide Inv, State.Formed;
    FactsOf(s, y, x);
  }

  lemma Announced(s: State, n: Id)
    requires Inv(s) && n in s.nodes
    ensures s.Formed() && s.Knows(n) && n in s.taken && Header(n, s.nodes[n], Ping).configEpoch in s.taken[n]
  {
    hide Inv, State.Formed;
    Facts(s, n);
  }

  lemma StepInv(s: State, e: Exchange, t: State)
    requires Inv(s) && Step(s, e, t)
    ensures Inv(t)
  {
    hide Inv, Step;
    match e {
      case Announce(n) => AnnounceInv(s, n, t);
      case Deliver(n, m) => DeliverInv(s, n, m, t);
    }
  }

  // ------------------------------------------------------------------------------ the bound

  /** `u` contains, with a master, all masters with greater names. */
  ghost predicate UpClosed(s: State, u: set<Id>) {
    u <= s.nodes.Keys && forall n, x :: n in u && x in s.nodes && x > n ==> x in u
  }

  lemma {:induction false} Least(u: set<Id>) returns (n: Id)
    requires u != {}
    ensures n in u && forall x :: x in u ==> n <= x
    decreases |u|
  {
    var k :| k in u;
    var v := u - {k};
    assert forall x :: x in u ==> x == k || x in v;
    if v == {} {
      n := k;
    } else {
      n := Least(v);
      if k < n { n := k; }
    }
  }

  /** The masters with the greatest names have, together, at most one epoch each. */
  lemma {:induction false} FewValues(s: State, u: set<Id>)
    requires Inv(s) && UpClosed(s, u)
    ensures |Values(s, u)| <= |u|
    decreases |u|
  {
    hide Inv, State.Formed;
    InvFacts(s);
    if u == {} {
      assert Values(s, u) == {};
    } else {
      var n := Least(u);
      var v := u - {n};
      FewValues(s, v);
      TakenWithin(s, n);
      assert Above(s, n) <= v;
      assert Values(s, u) <= Values(s, v) + {s.Epoch(n)} by {
        assert Values(s, Above(s, n)) <= Values(s, v);
      }
      CardLe(Values(s, u), Values(s, v) + {s.Epoch(n)});
    }
  }

  lemma InvFacts(s: State)
    requires Inv(s)
    ensures s.Formed() && s.taken.Keys == s.nodes.Keys && s.moves.Keys == s.nodes.Keys
  {
  }

  lemma TakenWithin(s: State, n: Id)
    requires Inv(s) && n in s.nodes
    ensures s.Formed() && s.taken.Keys == s.nodes.Keys && s.moves.Keys == s.nodes.Keys
    ensures s.taken[n] <= Values(s, Above(s, n)) + {s.Epoch(n)}
    ensures s.moves[n] + 1 == |s.taken[n]|
  {
    hide Inv, State.Formed;
    InvFacts(s);
    Facts(s, n);
  }

  lemma CardLe<T>(a: set<T>, b: set<T>)
    requires a <= b
    ensures |a| <= |b|
  {
    assert b == a + (b - a);
  }

  /** In any reachable state a master has moved at most once for each greater name; so the
      master with the greatest name never moves. */
  lemma MovesBound(s: State, n: Id)
    requires Inv(s) && n in s.nodes
    ensures n in s.moves && s.moves[n] <= |Above(s, n)|
  {
    hide Inv, State.Formed;
    InvFacts(s);
    var u := Above(s, n) + {n};
    FewValues(s, u);
    CardLe(s.taken[n], Values(s, u));
    TakenWithin(s, n);
  }

  /** The masters with names from `b`, and the number of moves they have made. */
  ghost function From(s: State, b: nat): set<Id> { set x | x in s.nodes && x >= b }

  ghost function TotalFrom(s: State, b: nat, top: nat): nat
    requires s.moves.Keys == s.nodes.Keys && b <= top
    decreases top - b
  {
    if b == top then 0 else (if b in s.nodes then s.moves[b] else 0) + TotalFrom(s, b + 1, top)
  }

  /** All together, the masters have moved at most `N * (N - 1) / 2` times. */
  lemma {:induction false} TotalBound(s: State, b: nat, top: nat)
    requires Inv(s) && b <= top && forall x :: x in s.nodes ==> x < top
    ensures s.moves.Keys == s.nodes.Keys && 2 * TotalFrom(s, b, top) <= |From(s, b)| * (|From(s, b)| - 1)
    decreases top - b
  {
    hide Inv, State.Formed;
    InvFacts(s);
    if b == top {
      assert From(s, b) == {};
    } else {
      TotalBound(s, b + 1, top);
      if b in s.nodes {
        MovesBound(s, b);
        assert Above(s, b) == From(s, b + 1);
        assert From(s, b) == From(s, b + 1) + {b};
        Triangle(|From(s, b + 1)|);
      } else {
        assert From(s, b) == From(s, b + 1);
      }
    }
  }

  lemma Triangle(k: nat)
    ensures 2 * k + k * (k - 1) == (k + 1) * k
  {
  }

  // -------------------------------------------------------------------------------- whole runs

  ghost predicate Run(states: seq<State>, events: seq<Exchange>) {
    && |states| == |events| + 1 && Init(states[0])
    && forall i :: 0 <= i < |events| ==> Step(states[i], events[i], states[i + 1])
  }

  lemma InitInv(s: State)
    requires Init(s)
    ensures Inv(s)
  {
    forall n | n in s.nodes ensures NodeInv(s, n) {
      assert s.taken[n] - {s.Epoch(n)} == {};
    }
  }

  lemma {:induction false} RunInv(states: seq<State>, events: seq<Exchange>, i: nat)
    requires Run(states, events) && i < |states|
    ensures Inv(states[i])
  {
    hide Step, Init, Inv;
    if i == 0 {
      InitInv(states[0]);
    } else {
      RunInv(states, events, i - 1);
      StepInv(states[i - 1], events[i - 1], states[i]);
    }
  }

  /** Termination: under any delivery order a master moves at most once per greater name, and
      all masters together at most `N * (N - 1) / 2` times, however long the run. */
  lemma CollisionsTerminate(states: seq<State>, events: seq<Exchange>, i: nat, top: nat)
    requires Run(states, events) && i < |states| && forall x :: x in states[i].nodes ==> x < top
    ensures states[i].moves.Keys == states[i].nodes.Keys
    ensures forall n :: n in states[i].nodes ==> states[i].moves[n] <= |Above(states[i], n)|
    ensures 2 * TotalFrom(states[i], 0, top) <= |states[i].nodes.Keys| * (|states[i].nodes.Keys| - 1)
  {
    hide Run, Inv, TotalFrom, State.Formed;
    RunInv(states, events, i);
    InvFacts(states[i]);
    forall n | n in states[i].nodes ensures states[i].moves[n] <= |Above(states[i], n)| { MovesBound(states[i], n); }
    TotalBound(states[i], 0, top);
    assert From(states[i], 0) == states[i].nodes.Keys;
  }

  /** A fresh packet from `x` to `n` would move `n`. */
  ghost predicate Moves(s: State, n: Id, x: Id)
    requires s.Formed() && n in s.nodes && x in s.nodes
  {
    assert s.Knows(x);
    var r := Receive(n, s.nodes[n], Header(x, s.nodes[x], Ping));
    n in r.configEpoch && r.configEpoch[n] != s.Epoch(n)
  }

  /** A fresh packet moves its receiver exactly when the epochs are equal and the sender's
      name is greater. */
  lemma FreshPacket(s: State, n: Id, x: Id)
    requires Inv(s) && n in s.nodes && x in s.nodes && n != x
    ensures s.Formed() && (Moves(s, n, x) <==> x > n && s.Epoch(x) == s.Epoch(n))
  {
    hide Inv, State.Formed;
    Facts(s, n);
    Facts(s, x);
    FactsOf(s, n, x);
  }

  /** A reachable state is at rest, no fresh packet between any two masters moving anybody,
      exactly when all configEpochs are distinct. */
  lemma RestIffDistinct(states: seq<State>, events: seq<Exchange>, i: nat)
    requires Run(states, events) && i < |states|
    ensures states[i].Formed()
    ensures (forall n, x :: n in states[i].nodes && x in states[i].nodes && n != x ==> !Moves(states[i], n, x)) <==>
            (forall n, x :: n in states[i].nodes && x in states[i].nodes && n != x
                            ==> states[i].Epoch(n) != states[i].Epoch(x))
  {
    hide Run, Inv, Moves, State.Formed, State.Epoch;
    RunInv(states, events, i);
    var s := states[i];
    InvFacts(s);
    forall n, x | n in s.nodes && x in s.nodes && n != x
      ensures Moves(s, n, x) <==> x > n && s.Epoch(x) == s.Epoch(n)
    {
      FreshPacket(s, n, x);
    }
  }
}
