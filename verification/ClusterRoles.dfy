/** Masters and slaves, as a node has them on record. */
module ClusterRoles {
  import opened Options
  import opened ClusterOwnership

  datatype Node = Node(bits: seq<bv8>, numslots: nat, configEpoch: nat, master: bool, slaveOf: Option<Id>,
                       slaves: set<Id>)

  function Epochs(nodes: map<Id, Node>): map<Id, nat> { map x | x in nodes :: nodes[x].configEpoch }

  /** The epoch of `n`, if it is newer than the one recorded. */
  function Newer(nodes: map<Id, Node>, n: Id, epoch: nat): map<Id, Node>
    requires n in nodes
  {
    if nodes[n].configEpoch < epoch then nodes[n := nodes[n].(configEpoch := epoch)] else nodes
  }

  /** The other nodes that are masters. */
  function Others(nodes: map<Id, Node>, me: Id): set<Id> { set x | x in nodes && x != me && nodes[x].master }

  function WithoutSlave(nodes: map<Id, Node>, master: Option<Id>, n: Id): map<Id, Node> {
    if master.Some? && master.value in nodes
    then nodes[master.value := nodes[master.value].(slaves := nodes[master.value].slaves - {n})] else nodes
  }

  /** `clusterSetNodeAsMaster` on a slave. */
  function Promoted(nodes: map<Id, Node>, n: Id): map<Id, Node>
    requires n in nodes
  {
    var rest := WithoutSlave(nodes, nodes[n].slaveOf, n);
    rest[n := rest[n].(master := true, slaveOf := None)]
  }

  /** The roles after `clusterSetMaster`. */
  function Following(nodes: map<Id, Node>, me: Id, n: Id): map<Id, Node>
    requires me in nodes && n in nodes
  {
    var rest := if nodes[me].master then nodes else WithoutSlave(nodes, nodes[me].slaveOf, me);
    var mine := rest[me := rest[me].(master := false, slaveOf := Some(n))];
    mine[n := mine[n].(slaves := mine[n].slaves + {me})]
  }

  /** `freeClusterNode`. */
  function Unlinked(nodes: map<Id, Node>, n: Id): map<Id, Node>
    requires n in nodes
  {
    map x | x in nodes && x != n :: nodes[x].(
      slaveOf := if nodes[n].master && x in nodes[n].slaves then None else nodes[x].slaveOf,
      slaves := if !nodes[n].master && nodes[n].slaveOf == Some(x) then nodes[x].slaves - {n} else nodes[x].slaves)
  }

  /** A master turns into a slave: it loses its list of slaves, whose back pointers stay. */
  function Demoted(nodes: map<Id, Node>, n: Id): map<Id, Node>
    requires n in nodes
  {
    if nodes[n].master then nodes[n := nodes[n].(master := false, slaves := {})] else nodes
  }

  /** Slave `n` gets master `m`, and changes lists. */
  function Attached(nodes: map<Id, Node>, n: Id, m: Id): map<Id, Node>
    requires n in nodes && m in nodes
  {
    var rest := WithoutSlave(nodes, nodes[n].slaveOf, n);
    var added := rest[m := rest[m].(slaves := rest[m].slaves + {n})];
    added[n := added[n].(slaveOf := Some(m))]
  }

  /** The role that a PING announces (lines 1781-1817): `to` is the name of the sender's master,
      if it has one; that node need not be known. */
  function Turned(nodes: map<Id, Node>, n: Id, to: Option<Id>): map<Id, Node>
    requires n in nodes
  {
    if to.None? then (if nodes[n].master then nodes else Promoted(nodes, n))
    else if to.value !in nodes || nodes[n].slaveOf == to then Demoted(nodes, n)
    else Attached(Demoted(nodes, n), n, to.value)
  }

  /** Nothing but pointers and lists differs. */
  ghost predicate OnlyLinks(a: map<Id, Node>, b: map<Id, Node>) {
    a.Keys == b.Keys && forall x :: x in a ==> b[x] == a[x].(slaveOf := b[x].slaveOf, slaves := b[x].slaves)
  }

  lemma AttachedLinks(nodes: map<Id, Node>, n: Id, m: Id)
    requires n in nodes && m in nodes
    ensures OnlyLinks(nodes, Attached(nodes, n, m))
  {
  }

  // -------------------------------------------------------------- what the changes come to

  /** Node `n` is a master, or a slave of `to` and in its list.  It has left the list of the master
      that it had as a slave; nothing else has changed but slots. */
  ghost predicate Placed(before: map<Id, Node>, after: map<Id, Node>, n: Id, to: Option<Id>) {
    && before.Keys == after.Keys && n in before
    && after[n].slaveOf == to && (after[n].master <==> to.None?)
    && forall x :: x in before ==>
         && after[x].configEpoch == before[x].configEpoch
         && (x != n ==> after[x].master == before[x].master && after[x].slaveOf == before[x].slaveOf)
         && after[x].slaves == (if to == Some(x) then before[x].slaves + {n}
                                else if !before[n].master && before[n].slaveOf == Some(x) then before[x].slaves - {n}
                                else before[x].slaves)
  }

  lemma SamePlaced(before: map<Id, Node>, mid: map<Id, Node>, after: map<Id, Node>, n: Id, to: Option<Id>)
    requires Placed(before, mid, n, to) && SameNodes(after, mid)
    ensures Placed(before, after, n, to)
  {
  }

  lemma FollowingPlaced(before: map<Id, Node>, after: map<Id, Node>, me: Id, n: Id)
    requires me in before && n in before
    requires after == Following(before, me, n) || SameNodes(after, Following(before, me, n))
    ensures Placed(before, after, me, Some(n))
  {
    FollowingDoes(before, me, n);
    hide Following, Placed;
    if after != Following(before, me, n) { SamePlaced(before, Following(before, me, n), after, me, Some(n)); }
  }

  lemma FollowingDoes(before: map<Id, Node>, me: Id, n: Id)
    requires me in before && n in before
    ensures Placed(before, Following(before, me, n), me, Some(n))
  {
  }

  lemma PromotedPlaced(before: map<Id, Node>, after: map<Id, Node>, n: Id)
    requires n in before && !before[n].master && SameNodes(after, Promoted(before, n))
    ensures Placed(before, after, n, None)
  {
  }

  /** In no list but that of its master. */
  lemma PlacedAlone(before: map<Id, Node>, after: map<Id, Node>, me: Id, to: Option<Id>)
    requires Fits(before, me) && Placed(before, after, me, to)
    ensures forall x :: x in after ==> (me in after[x].slaves <==> to == Some(x))
  {
  }

  /** Node `x` after `n` announced that it is a slave of `m`: `n` is in the list of `m`, if that is
      known, and no longer in that of its old master; its own slaves are off its list if it was a
      master. */
  function SlaveAt(nodes: map<Id, Node>, n: Id, m: Id, x: Id): Node
    requires n in nodes && x in nodes
  {
    var was := nodes[x];
    var kept := if x == n && was.master then {} else was.slaves;
    was.(master := x != n && was.master,
         slaveOf := if x == n && m in nodes then Some(m) else was.slaveOf,
         slaves := if m !in nodes || nodes[n].slaveOf == Some(m) then kept
                   else if x == m then kept + {n}
                   else if nodes[n].slaveOf == Some(x) then kept - {n}
                   else kept)
  }

  /** What the role that `n` announces makes of it: a master stays what it is and a slave is
      promoted, when it announces no master; otherwise it is a slave. */
  ghost predicate Announces(before: map<Id, Node>, after: map<Id, Node>, n: Id, to: Option<Id>) {
    && before.Keys == after.Keys && n in before
    && (to.None? && before[n].master ==> SameNodes(after, before))
    && (to.None? && !before[n].master ==> Placed(before, after, n, None))
    && (to.Some? ==> forall x :: x in before ==> SameNode(after[x], SlaveAt(before, n, to.value, x)))
  }

  lemma TurnedAnnounces(before: map<Id, Node>, after: map<Id, Node>, n: Id, to: Option<Id>)
    requires n in before && SameNodes(after, Turned(before, n, to))
    ensures Announces(before, after, n, to)
  {
    hide Turned, Promoted, Placed, SlaveAt;
    TurnedSlots(before, n, to);
    if to.None? {
      Unturned(before, n);
      if !before[n].master { PromotedPlaced(before, after, n); }
    } else {
      forall x | x in before ensures x in after && SameNode(after[x], SlaveAt(before, n, to.value, x)) {
        TurnedAt(before, n, to.value, x);
      }
    }
  }

  lemma Unturned(nodes: map<Id, Node>, n: Id)
    requires n in nodes
    ensures Turned(nodes, n, None) == if nodes[n].master then nodes else Promoted(nodes, n)
  {
  }

  lemma TurnedAt(nodes: map<Id, Node>, n: Id, m: Id, x: Id)
    requires n in nodes && x in nodes
    ensures x in Turned(nodes, n, Some(m)) && SameNode(Turned(nodes, n, Some(m))[x], SlaveAt(nodes, n, m, x))
  {
    var demoted := Demoted(nodes, n);
    if m in nodes && nodes[n].slaveOf != Some(m) {
      assert Turned(nodes, n, Some(m)) == Attached(demoted, n, m);
    } else {
      assert Turned(nodes, n, Some(m)) == demoted;
    }
  }

  /** Node `n` is gone.  Of the others, those in the list of `n`, if it was a master, have no master
      any more, and the master of `n`, if it was a slave, has it in its list no more. */
  ghost predicate Gone(before: map<Id, Node>, after: map<Id, Node>, n: Id) {
    && n in before && after.Keys == before.Keys - {n}
    && forall x :: x in after ==>
         && after[x].configEpoch == before[x].configEpoch && after[x].master == before[x].master
         && (if before[n].master && x in before[n].slaves then after[x].slaveOf == None
             else after[x].slaveOf == before[x].slaveOf)
         && (if !before[n].master && before[n].slaveOf == Some(x) then after[x].slaves == before[x].slaves - {n}
             else after[x].slaves == before[x].slaves)
  }

  lemma UnlinkedGone(before: map<Id, Node>, after: map<Id, Node>, n: Id)
    requires n in before && SameNodes(after, Unlinked(before, n))
    ensures Gone(before, after, n)
  {
  }

  // ---------------------------------------------------------------------- our own master

  /** A slave has a master pointer to another node that is known, a master has none, and no node
      lists us as a slave but our master. */
  ghost predicate Fits(nodes: map<Id, Node>, me: Id) {
    && me in nodes
    && (if nodes[me].master then nodes[me].slaveOf.None?
        else nodes[me].slaveOf.Some? && nodes[me].slaveOf.value in nodes && nodes[me].slaveOf.value != me)
    && forall x :: x in nodes && me in nodes[x].slaves ==> nodes[me].slaveOf == Some(x)
  }

  lemma FollowingFits(nodes: map<Id, Node>, me: Id, n: Id)
    requires Fits(nodes, me) && n in nodes && n != me
    ensures Fits(Following(nodes, me, n), me)
  {
  }

  lemma PromotedFits(nodes: map<Id, Node>, me: Id, n: Id)
    requires Fits(nodes, me) && n in nodes
    ensures Fits(Promoted(nodes, n), me)
  {
  }

  lemma TurnedFits(nodes: map<Id, Node>, me: Id, n: Id, to: Option<Id>)
    requires Fits(nodes, me) && n in nodes && n != me
    ensures Fits(Turned(nodes, n, to), me)
  {
    hide Promoted, Demoted, Attached, Fits;
    PromotedFits(nodes, me, n);
    DemotedFits(nodes, me, n);
    if to.Some? && to.value in nodes { AttachedFits(Demoted(nodes, n), me, n, to.value); }
  }

  lemma DemotedFits(nodes: map<Id, Node>, me: Id, n: Id)
    requires Fits(nodes, me) && n in nodes && n != me
    ensures Fits(Demoted(nodes, n), me) && Demoted(nodes, n).Keys == nodes.Keys
  {
  }

  lemma AttachedFits(nodes: map<Id, Node>, me: Id, n: Id, m: Id)
    requires Fits(nodes, me) && n in nodes && n != me && m in nodes
    ensures Fits(Attached(nodes, n, m), me)
  {
  }

  /** CLUSTER FORGET refuses this node and its master (lines 4165-4170). */
  lemma UnlinkedFits(nodes: map<Id, Node>, me: Id, n: Id)
    requires Fits(nodes, me) && n in nodes && n != me && nodes[me].slaveOf != Some(n)
    ensures Fits(Unlinked(nodes, n), me)
  {
  }

  lemma SameFits(a: map<Id, Node>, b: map<Id, Node>, me: Id)
    requires SameNodes(a, b) && Fits(b, me)
    ensures Fits(a, me)
  {
  }

  // -------------------------------------------------------------------------------- masters

  lemma PromotedMasters(nodes: map<Id, Node>, me: Id, n: Id)
    requires n in nodes
    ensures Others(Promoted(nodes, n), me) == if n == me then Others(nodes, me) else Others(nodes, me) + {n}
    ensures Epochs(Promoted(nodes, n)) == Epochs(nodes)
  {
    PromotedSelf(nodes, n, Promoted(nodes, n));
    hide Promoted;
  }

  lemma TurnedMasters(nodes: map<Id, Node>, me: Id, n: Id, to: Option<Id>)
    requires n in nodes && n != me
    ensures Others(Turned(nodes, n, to), me) == if to.None? then Others(nodes, me) + {n} else Others(nodes, me) - {n}
    ensures Epochs(Turned(nodes, n, to)) == Epochs(nodes)
  {
    hide Promoted, Attached, Demoted, Others, Epochs;
    PromotedMasters(nodes, me, n);
    DemotedMasters(nodes, me, n);
    if nodes[n].master { AlreadyMaster(nodes, me, n); }
    if to.Some? && to.value in nodes {
      AttachedLinks(Demoted(nodes, n), n, to.value);
      LinkedMasters(Demoted(nodes, n), Attached(Demoted(nodes, n), n, to.value), me);
    }
  }

  lemma AlreadyMaster(nodes: map<Id, Node>, me: Id, n: Id)
    requires n in nodes && n != me && nodes[n].master
    ensures Others(nodes, me) + {n} == Others(nodes, me)
  {
  }

  lemma DemotedMasters(nodes: map<Id, Node>, me: Id, n: Id)
    requires n in nodes && n != me
    ensures Others(Demoted(nodes, n), me) == Others(nodes, me) - {n}
    ensures Epochs(Demoted(nodes, n)) == Epochs(nodes) && Demoted(nodes, n).Keys == nodes.Keys
  {
  }

  lemma LinkedMasters(a: map<Id, Node>, b: map<Id, Node>, me: Id)
    requires OnlyLinks(a, b)
    ensures Others(a, me) == Others(b, me) && Epochs(a) == Epochs(b) && SameSlots(a, b)
  {
  }

  lemma FollowingMasters(nodes: map<Id, Node>, me: Id, n: Id)
    requires n in nodes && me in nodes
    ensures Others(Following(nodes, me, n), me) == Others(nodes, me)
  {
    assert forall x :: x in nodes && x != me ==> Following(nodes, me, n)[x].master == nodes[x].master;
  }

  lemma FollowingFlags(nodes: map<Id, Node>, me: Id, n: Id)
    requires n in nodes && me in nodes
    ensures forall x :: x in nodes && x != me ==> Following(nodes, me, n)[x].master == nodes[x].master
  {
  }

  lemma SameMasters(a: map<Id, Node>, b: map<Id, Node>, me: Id)
    requires SameNodes(a, b)
    ensures Others(a, me) == Others(b, me)
  {
  }

  /** Epoch and role of a PING. */
  function Announced(nodes: map<Id, Node>, n: Id, epoch: nat, to: Option<Id>): (r: map<Id, Node>)
    requires n in nodes
    ensures r.Keys == nodes.Keys
  {
    TurnedSlots(Newer(nodes, n, epoch), n, to);
    Turned(Newer(nodes, n, epoch), n, to)
  }

  lemma InOthers(nodes: map<Id, Node>, me: Id, x: Id)
    requires x in nodes && x != me
    ensures x in Others(nodes, me) <==> nodes[x].master
  {
  }

  lemma TurnedFlags(nodes: map<Id, Node>, n: Id, to: Option<Id>)
    requires n in nodes
    ensures Turned(nodes, n, to).Keys == nodes.Keys
    ensures forall x :: x in nodes ==> Turned(nodes, n, to)[x].master == if x == n then to.None? else nodes[x].master
  {
    hide Promoted, Attached, Demoted;
    PromotedSelf(nodes, n, Promoted(nodes, n));
    DemotedFlags(nodes, n);
    if to.Some? && to.value in nodes { AttachedLinks(Demoted(nodes, n), n, to.value); }
  }

  lemma DemotedFlags(nodes: map<Id, Node>, n: Id)
    requires n in nodes
    ensures Demoted(nodes, n).Keys == nodes.Keys
    ensures forall x :: x in nodes ==> Demoted(nodes, n)[x].master == (x != n && nodes[x].master)
  {
  }

  lemma NewerFacts(nodes: map<Id, Node>, me: Id, n: Id, epoch: nat)
    requires n in nodes
    ensures var r := Newer(nodes, n, epoch);
            && r.Keys == nodes.Keys && SameSlots(nodes, r) && Others(r, me) == Others(nodes, me)
            && (Fits(nodes, me) ==> Fits(r, me)) && (forall x :: x in nodes ==> r[x].master == nodes[x].master)
            && Epochs(r) == Epochs(nodes)[n := if nodes[n].configEpoch < epoch then epoch else nodes[n].configEpoch]
  {
  }

  /** A node that is promoted is a master, and the others are what they were. */
  lemma PromotedSelf(nodes: map<Id, Node>, n: Id, after: map<Id, Node>)
    requires n in nodes && (SameNodes(after, Promoted(nodes, n)) || after == Promoted(nodes, n))
    ensures after.Keys == nodes.Keys && forall x :: x in nodes ==> after[x].master == (x == n || nodes[x].master)
    ensures forall x :: x in nodes ==> after[x].configEpoch == nodes[x].configEpoch
  {
  }

  lemma UnlinkedRoles(nodes: map<Id, Node>, after: map<Id, Node>, n: Id)
    requires n in nodes && SameNodes(after, Unlinked(nodes, n))
    ensures after.Keys == nodes.Keys - {n} && forall x :: x in after ==> after[x].master == nodes[x].master
  {
  }

  // ---------------------------------------------------------------------- what stays the same

  /** Slots and slot counts are kept. */
  ghost predicate SameSlots(a: map<Id, Node>, b: map<Id, Node>) {
    b.Keys <= a.Keys && forall x :: x in b ==> b[x].bits == a[x].bits && b[x].numslots == a[x].numslots
  }

  lemma PromotedSlots(nodes: map<Id, Node>, n: Id)
    requires n in nodes
    ensures SameSlots(nodes, Promoted(nodes, n)) && Promoted(nodes, n).Keys == nodes.Keys
  {
  }

  lemma FollowingSlots(nodes: map<Id, Node>, me: Id, n: Id)
    requires me in nodes && n in nodes
    ensures SameSlots(nodes, Following(nodes, me, n)) && Following(nodes, me, n).Keys == nodes.Keys
  {
  }

  /** The slots of the node that goes must have been given away. */
  lemma UnlinkedSlots(nodes: map<Id, Node>, n: Id)
    requires n in nodes
    ensures SameSlots(nodes, Unlinked(nodes, n)) && Unlinked(nodes, n).Keys == nodes.Keys - {n}
  {
  }

  lemma TurnedSlots(nodes: map<Id, Node>, n: Id, to: Option<Id>)
    requires n in nodes
    ensures SameSlots(nodes, Turned(nodes, n, to)) && Turned(nodes, n, to).Keys == nodes.Keys
  {
    hide Promoted, Attached, Demoted;
    PromotedSlots(nodes, n);
    DemotedSlots(nodes, n);
    if to.Some? && to.value in nodes {
      AttachedLinks(Demoted(nodes, n), n, to.value);
      LinkedMasters(Demoted(nodes, n), Attached(Demoted(nodes, n), n, to.value), n);
    }
  }

  lemma DemotedSlots(nodes: map<Id, Node>, n: Id)
    requires n in nodes
    ensures SameSlots(nodes, Demoted(nodes, n)) && Demoted(nodes, n).Keys == nodes.Keys
  {
  }

  lemma SameTurned(a: map<Id, Node>, b: map<Id, Node>, n: Id, to: Option<Id>)
    requires SameNodes(a, b) && n in a
    ensures n in b && SameNodes(Turned(a, n, to), Turned(b, n, to))
  {
    hide Promoted, Attached, Demoted;
    SamePromoted(a, b, n);
    SameDemoted(a, b, n);
    if to.Some? && to.value in a { SameAttached(Demoted(a, n), Demoted(b, n), n, to.value); }
  }

  lemma SamePromoted(a: map<Id, Node>, b: map<Id, Node>, n: Id)
    requires SameNodes(a, b) && n in a
    ensures n in b && SameNodes(Promoted(a, n), Promoted(b, n))
  {
  }

  lemma SameDemoted(a: map<Id, Node>, b: map<Id, Node>, n: Id)
    requires SameNodes(a, b) && n in a
    ensures n in b && SameNodes(Demoted(a, n), Demoted(b, n)) && Demoted(a, n).Keys == a.Keys
  {
  }

  lemma SameAttached(a: map<Id, Node>, b: map<Id, Node>, n: Id, m: Id)
    requires SameNodes(a, b) && n in a && m in a
    ensures n in b && m in b && SameNodes(Attached(a, n, m), Attached(b, n, m))
  {
  }

  lemma SameUnlinked(a: map<Id, Node>, b: map<Id, Node>, n: Id)
    requires SameNodes(a, b) && n in a
    ensures n in b && SameNodes(Unlinked(a, n), Unlinked(b, n))
  {
  }

  lemma SameFollowing(a: map<Id, Node>, b: map<Id, Node>, me: Id, n: Id)
    requires SameNodes(a, b) && n in a && me in a
    ensures n in b && me in b && SameNodes(Following(a, me, n), Following(b, me, n))
  {
  }

  lemma SameEpochs(a: map<Id, Node>, b: map<Id, Node>)
    requires SameNodes(a, b)
    ensures Epochs(a) == Epochs(b)
  {
  }

  lemma FollowingEpochs(a: map<Id, Node>, me: Id, n: Id)
    requires n in a && me in a
    ensures Epochs(Following(a, me, n)) == Epochs(a) && Following(a, me, n).Keys == a.Keys
  {
  }

  lemma SameKeys(a: map<Id, Node>, b: map<Id, Node>)
    requires SameNodes(a, b)
    ensures a.Keys == b.Keys
  {
  }

  lemma SameRole(a: map<Id, Node>, b: map<Id, Node>, n: Id)
    requires SameNodes(a, b) && n in a
    ensures n in b && a[n].master == b[n].master && a[n].slaveOf == b[n].slaveOf
  {
  }

  lemma SameStart(a: map<Id, Node>)
    ensures SameNodes(a, a)
  {
  }

  lemma SameTrans(a: map<Id, Node>, b: map<Id, Node>, c: map<Id, Node>)
    requires SameNodes(a, b) && SameNodes(b, c)
    ensures SameNodes(a, c)
  {
  }

  /** Equal except for the slots served. */
  predicate SameNode(a: Node, b: Node) {
    a.configEpoch == b.configEpoch && a.master == b.master && a.slaveOf == b.slaveOf && a.slaves == b.slaves
  }

  ghost predicate SameNodes(a: map<Id, Node>, b: map<Id, Node>) {
    a.Keys == b.Keys && forall x :: x in a ==> SameNode(a[x], b[x])
  }
}
