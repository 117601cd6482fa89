/** The slot table of a node: for every slot its owner, and for every node the bitmap and the
    number of its slots.  The two views agree through every update. */
module ClusterSlots {
  import opened Options
  import opened ClusterOwnership
  import opened ClusterRoles
  import B = SlotBitmap

  /** How a configuration update ends: nothing, or we follow the sender, or the process aborts: by a
      null pointer if a slave without a master sees an unassigned slot taken, or by an assertion if
      a node that has slots of its own is to follow the sender. */
  datatype Outcome = Kept | Follows | Aborted

  class Table {
    const me: Id
    var nodes: map<Id, Node>
    var slots: seq<Option<Id>>
    var importing: seq<Option<Id>>
    var migrating: seq<Option<Id>>
    /** Number of keys held in each slot. */
    var keys: seq<nat>

    ghost predicate Coherent()
      reads this
    {
      && |slots| == |importing| == |migrating| == |keys| == SLOTS && me in nodes
      && (forall j :: 0 <= j < SLOTS && slots[j].Some? ==> slots[j].value in nodes)
      && (forall n :: n in nodes ==> Agrees(slots, nodes[n], n))
    }

    /** Our role fits, and only masters own slots. */
    ghost predicate Settled()
      reads this
    {
      && Fits(nodes, me)
      && forall j :: 0 <= j < |slots| && slots[j].Some?
                     ==> slots[j].value in nodes && nodes[slots[j].value].master
    }

    /** The table as the runs of packets see it. */
    ghost function Current(): (s: Owners)
      requires Coherent()
      reads this
      ensures s.Formed() && s.me == me && s.epochs.Keys == nodes.Keys
    {
      Owners(me, Epochs(nodes), Others(nodes, me), slots)
    }

    constructor (me: Id)
      ensures Coherent() && Settled() && this.me == me && nodes.Keys == {me} && slots == seq(SLOTS, _ => None)
    {
      this.me := me;
      nodes := map[me := Node(seq(SLOTS / 8, _ => 0), 0, 0, true, None, {})];
      slots, importing, migrating := seq(SLOTS, _ => None), seq(SLOTS, _ => None), seq(SLOTS, _ => None);
      keys := seq(SLOTS, _ => 0);
      new;
      forall j: nat | j < SLOTS ensures !B.Test(nodes[me].bits, j) { NoBit(nodes[me].bits, j); }
      assert Owned(slots, me) == {};
    }

    /** `clusterAddSlot`, with `clusterNodeSetSlotBit`. */
    method AddSlot(n: Id, slot: nat) returns (ok: bool)
      requires Coherent() && n in nodes && slot < SLOTS
      modifies `nodes, `slots
      ensures Coherent() && SameNodes(nodes, old(nodes))
      ensures ok == old(slots[slot]).None?
      ensures slots == if ok then old(slots)[slot := Some(n)] else old(slots)
    {
      hide B.Test, B.Set, Agrees, Owned;
      if slots[slot].Some? { return false; }
      AgreesAt(slots, nodes[n], n, slot);
      var node := nodes[n];
      var was := B.Test(node.bits, slot);
      forall x | x in nodes && x != n ensures Agrees(slots[slot := Some(n)], nodes[x], x) {
        OtherAgrees(slots, nodes[x], slot, Some(n), x);
      }
      NewAgrees(slots, node, slot, n);
      nodes := nodes[n := node.(bits := B.Set(node.bits, slot),
                                numslots := if was then node.numslots else node.numslots + 1)];
      slots := slots[slot := Some(n)];
      return true;
    }

    /** `clusterDelSlot`, with `clusterNodeClearSlotBit`; the assertion that the bit was set is
        the one of line 3429. */
    method DelSlot(slot: nat) returns (ok: bool)
      requires Coherent() && slot < SLOTS
      modifies `nodes, `slots
      ensures Coherent() && SameNodes(nodes, old(nodes))
      ensures ok == old(slots[slot]).Some?
      ensures slots == old(slots)[slot := None]
    {
      hide B.Test, B.Clear, Agrees, Owned;
      if slots[slot].None? { return false; }
      var n := slots[slot].value;
      AgreesAt(slots, nodes[n], n, slot);
      var node := nodes[n];
      var was := B.Test(node.bits, slot);
      assert was;
      forall x | x in nodes && x != n ensures Agrees(slots[slot := None], nodes[x], x) {
        OtherAgrees(slots, nodes[x], slot, None, x);
      }
      OldAgrees(slots, node, slot, n);
      nodes := nodes[n := node.(bits := B.Clear(node.bits, slot), numslots := node.numslots - 1)];
      slots := slots[slot := None];
      return true;
    }

    /** `clusterDelSlot` followed by `clusterAddSlot`. */
    method MoveSlot(slot: nat, n: Id)
      requires Coherent() && n in nodes && slot < SLOTS
      modifies `nodes, `slots
      ensures Coherent() && SameNodes(nodes, old(nodes)) && slots == old(slots)[slot := Some(n)]
    {
      hide B.Test, Agrees;
      var ok := DelSlot(slot);
      ok := AddSlot(n, slot);
    }

    /** `clusterDelNodeSlots`: all slots of the node become unassigned, and no other slot changes. */
    method DelNodeSlots(n: Id)
      requires Coherent() && n in nodes
      modifies `nodes, `slots
      ensures Coherent() && SameNodes(nodes, old(nodes)) && slots == Reassigned(old(slots), n, None)
      ensures nodes[n].numslots == 0
    {
      hide B.Test, Agrees;
      var j := 0;
      while j < SLOTS
        invariant 0 <= j <= SLOTS && Coherent() && SameNodes(nodes, old(nodes))
        invariant forall k :: 0 <= k < SLOTS ==>
                  slots[k] == if k < j && old(slots)[k] == Some(n) then None else old(slots)[k]
      {
        AgreesAt(slots, nodes[n], n, j);
        if B.Test(nodes[n].bits, j) { var ok := DelSlot(j); }
        j := j + 1;
      }
      assert slots == Reassigned(old(slots), n, None);
      AgreesAt(slots, nodes[n], n, 0);
      assert Owned(slots, n) == {};
    }

    /** The slot part of `clusterFailoverReplaceYourMaster`: every slot of the old master, and
        no other, becomes ours. */
    method ReplaceYourMaster() returns (done: bool)
      requires Coherent() && (nodes[me].slaveOf.Some? ==> nodes[me].slaveOf.value in nodes)
      modifies `nodes, `slots
      ensures Coherent() && nodes.Keys == old(nodes.Keys)
      ensures done == (!old(nodes[me].master) && old(nodes[me].slaveOf).Some?)
      ensures !done ==> slots == old(slots) && nodes == old(nodes)
      ensures done ==> slots == Reassigned(old(slots), old(nodes[me].slaveOf).value, Some(me))
                       && SameNodes(nodes, Promoted(old(nodes), me)) && Placed(old(nodes), nodes, me, None)
      ensures old(Settled()) ==> Settled()
    {
      hide B.Test, Agrees, SameNodes, Promoted, Fits, Placed;
      if nodes[me].master || nodes[me].slaveOf.None? { return false; }
      var oldmaster := nodes[me].slaveOf.value;
      PromotedSlots(nodes, me);
      RolesAgree(slots, nodes, Promoted(nodes, me));
      nodes := Promoted(nodes, me);
      SameStart(nodes);
      var j := 0;
      while j < SLOTS
        invariant 0 <= j <= SLOTS && Coherent() && SameNodes(nodes, Promoted(old(nodes), me))
        invariant oldmaster in nodes && nodes.Keys == old(nodes.Keys)
        invariant forall k :: 0 <= k < SLOTS ==>
                    slots[k] == if k < j && old(slots)[k] == Some(oldmaster) then Some(me) else old(slots)[k]
      {
        AgreesAt(slots, nodes[oldmaster], oldmaster, j);
        if B.Test(nodes[oldmaster].bits, j) {
          ghost var before := nodes;
          MoveSlot(j, me);
          SameTrans(nodes, before, Promoted(old(nodes), me));
          SameKeys(nodes, before);
        }
        j := j + 1;
      }
      assert slots == Reassigned(old(slots), oldmaster, Some(me));
      PromotedPlaced(old(nodes), nodes, me);
      if old(Settled()) {
        PromotedFits(old(nodes), me, me);
        SameFits(nodes, Promoted(old(nodes), me), me);
        PromotedSelf(old(nodes), me, nodes);
      }
      return true;
    }

    /** `clusterDelNode`: the node disappears from the slot tables.  Back pointers to it are
        cleared only if it is a master, and only those of the slaves in its list. */
    method DelNode(n: Id)
      requires Coherent() && n in nodes && n != me
      modifies `nodes, `slots, `importing, `migrating
      ensures Coherent() && SameNodes(nodes, Unlinked(old(nodes), n)) && Gone(old(nodes), nodes, n)
      ensures slots == Reassigned(old(slots), n, None)
      ensures importing == Reassigned(old(importing), n, None) && migrating == Reassigned(old(migrating), n, None)
      ensures old(Settled()) && old(nodes[me].slaveOf) != Some(n) ==> Settled()
    {
      hide B.Test, Agrees, SameNodes, Unlinked, Fits, Gone;
      if Fits(nodes, me) && nodes[me].slaveOf != Some(n) { UnlinkedFits(nodes, me, n); }
      UnassignAll(n);
      SameKeys(nodes, old(nodes));
      UnlinkedSlots(nodes, n);
      RolesAgree(slots, nodes, Unlinked(nodes, n));
      SameUnlinked(nodes, old(nodes), n);
      nodes := Unlinked(nodes, n);
      if Fits(Unlinked(old(nodes), n), me) { SameFits(nodes, Unlinked(old(nodes), n), me); }
      UnlinkedRoles(old(nodes), nodes, n);
      UnlinkedGone(old(nodes), nodes, n);
    }

    /** Step 1 of `clusterDelNode`. */
    method UnassignAll(n: Id)
      requires Coherent() && n in nodes
      modifies `nodes, `slots, `importing, `migrating
      ensures Coherent() && SameNodes(nodes, old(nodes))
      ensures slots == Reassigned(old(slots), n, None)
      ensures importing == Reassigned(old(importing), n, None) && migrating == Reassigned(old(migrating), n, None)
    {
      hide B.Test, Agrees, SameNodes;
      SameStart(nodes);
      var j := 0;
      while j < SLOTS
        invariant 0 <= j <= SLOTS && Coherent() && SameNodes(nodes, old(nodes)) && nodes.Keys == old(nodes.Keys)
        invariant forall k :: 0 <= k < SLOTS ==>
                  slots[k] == if k < j && old(slots)[k] == Some(n) then None else old(slots)[k]
        invariant forall k :: 0 <= k < SLOTS ==>
                  importing[k] == if k < j && old(importing)[k] == Some(n) then None else old(importing)[k]
        invariant forall k :: 0 <= k < SLOTS ==>
                  migrating[k] == if k < j && old(migrating)[k] == Some(n) then None else old(migrating)[k]
      {
        if importing[j] == Some(n) { importing := importing[j := None]; }
        if migrating[j] == Some(n) { migrating := migrating[j := None]; }
        if slots[j] == Some(n) {
          ghost var before := nodes;
          var ok := DelSlot(j);
          SameTrans(nodes, before, old(nodes));
          SameKeys(nodes, before);
        }
        j := j + 1;
      }
      assert slots == Reassigned(old(slots), n, None);
      assert importing == Reassigned(old(importing), n, None) && migrating == Reassigned(old(migrating), n, None);
    }

    /** No slot is open any more if we were a master, and none was opened or closed otherwise. */
    ghost predicate SlotsClosed(nodes0: map<Id, Node>, importing0: seq<Option<Id>>, migrating0: seq<Option<Id>>)
      reads this
    {
      && me in nodes0
      && if nodes0[me].master then importing == migrating == seq(SLOTS, _ => None)
         else importing == importing0 && migrating == migrating0
    }

    /** `clusterSetMaster`; that this node serves no slot is the assertion of line 3637. */
    method SetMaster(n: Id)
      requires Coherent() && n in nodes && n != me && nodes[me].numslots == 0
      modifies `nodes, `importing, `migrating
      ensures Coherent() && nodes == Following(old(nodes), me, n)
      ensures SlotsClosed(old(nodes), old(importing), old(migrating))
      ensures Placed(old(nodes), nodes, me, Some(n))
      ensures old(Settled()) ==> Settled() && forall x :: x in nodes ==> (me in nodes[x].slaves <==> x == n)
    {
      hide B.Test, Agrees, Following, Fits, Placed;
      FollowingPlaced(nodes, Following(nodes, me, n), me, n);
      if Fits(nodes, me) { PlacedAlone(nodes, Following(nodes, me, n), me, Some(n)); }
      FollowingSlots(nodes, me, n);
      FollowingFlags(nodes, me, n);
      if Fits(nodes, me) { FollowingFits(nodes, me, n); }
      AgreesAt(slots, nodes[me], me, 0);
      NoneOwned(slots, me);
      if nodes[me].master {
        importing, migrating := seq(SLOTS, _ => None), seq(SLOTS, _ => None);
      }
      RolesAgree(slots, nodes, Following(nodes, me, n));
      nodes := Following(nodes, me, n);
    }

    /** The node whose slots we watch: ourselves, or our master, if we know one. */
    function Watched(): Option<Id>
      requires me in nodes
      reads this
    {
      if nodes[me].master then Some(me) else nodes[me].slaveOf
    }

    /** The loop of `clusterUpdateSlotsConfigWith` (lines 1488-1525). */
    method Claim(sender: Id, epoch: nat, claimed: seq<bv8>, cur: Option<Id>) returns (lost: bool, dirty: seq<nat>)
      requires Coherent() && sender in nodes && sender != me && B.IsBitmap(claimed)
      modifies `nodes, `slots
      ensures Coherent() && SameNodes(nodes, old(nodes))
      ensures Claims(old(Current()), Claimed(sender, epoch, claimed, importing), slots, SLOTS)
      ensures Losses(old(Current()), slots, cur, keys, lost, dirty, SLOTS)
    {
      hide B.Test, Agrees, SameNodes, Claims, Losses, Takes;
      ghost var s, c := Current(), Claimed(sender, epoch, claimed, importing);
      lost, dirty := false, [];
      SameStart(nodes);
      NoClaims(s, c, cur, keys);
      var j := 0;
      while j < SLOTS
        invariant 0 <= j <= SLOTS && Coherent() && SameNodes(nodes, old(nodes)) && sender in nodes
        invariant Claims(s, c, slots, j) && Losses(s, slots, cur, keys, lost, dirty, j)
      {
        ghost var before, was, wasLost, wasDirty := nodes, slots, lost, dirty;
        SameEpochs(nodes, old(nodes));
        Untouched(s, c, slots, j);
        if B.Test(claimed, j) && slots[j] != Some(sender) && importing[j].None? {
          if slots[j].None? || nodes[slots[j].value].configEpoch < epoch {
            if slots[j] == Some(me) && keys[j] > 0 { dirty := dirty + [j]; }
            if slots[j] == cur { lost := true; }
            MoveSlot(j, sender);
            SameTrans(nodes, before, old(nodes));
            SameKeys(nodes, before);
          }
        }
        OneClaim(s, c, was, j);
        OneLoss(s, was, cur, keys, sender, j, Takes(s, c, j), wasLost, wasDirty);
        j := j + 1;
      }
    }

    /** `delKeysInSlot` on the dirty slots (lines 1549-1550). */
    method DeleteKeys(dirty: seq<nat>)
      requires Coherent() && forall k :: 0 <= k < |dirty| ==> dirty[k] < SLOTS
      modifies `keys
      ensures Coherent()
      ensures forall j :: 0 <= j < SLOTS ==> keys[j] == if j in dirty then 0 else old(keys)[j]
    {
      var k := 0;
      while k < |dirty|
        invariant 0 <= k <= |dirty| && |keys| == SLOTS
        invariant forall j :: 0 <= j < SLOTS ==> keys[j] == if j in dirty[..k] then 0 else old(keys)[j]
      {
        keys := keys[dirty[k] := 0];
        assert dirty[..k + 1] == dirty[..k] + [dirty[k]];
        k := k + 1;
      }
      assert dirty[..k] == dirty;
    }

    /** The keys of the slots that we lost are gone, unless we follow another master. */
    ghost predicate KeysLeft(follows: bool, slots0: seq<Option<Id>>, keys0: seq<nat>)
      reads this
    {
      && |slots| == |slots0| == |keys| == |keys0|
      && forall j :: 0 <= j < |keys| ==>
           keys[j] == if !follows && slots0[j] == Some(me) && slots[j] != Some(me) then 0 else keys0[j]
    }

    /** `clusterUpdateSlotsConfigWith`: claims are applied slot by slot; if our master (or we)
        lost the last slot we follow the sender, and otherwise the keys of the slots that we
        lost are deleted. */
    method UpdateSlotsConfigWith(sender: Id, epoch: nat, claimed: seq<bv8>) returns (r: Outcome)
      requires Coherent() && Masters() && sender in nodes && B.IsBitmap(claimed)
      modifies this
      ensures Coherent() && nodes.Keys == old(nodes.Keys)
      ensures sender == me ==> r.Kept? && slots == old(slots) && nodes == old(nodes) && keys == old(keys)
      ensures sender != me ==> Current() == ClaimsHeard(old(Current()), Claimed(sender, epoch, claimed, old(importing)))
      ensures var s, c := old(Current()), Claimed(sender, epoch, claimed, old(importing));
              var cur := if old(nodes[me].master) then Some(me) else old(nodes[me].slaveOf);
              && (r.Aborted? <==> sender != me && Bereft(s, c, cur) && (cur.None? || !LosesAll(s, c, me)))
              && (r.Follows? <==> sender != me && Bereft(s, c, cur) && cur.Some? && LosesAll(s, c, me))
      ensures r.Follows? ==> SameNodes(nodes, Following(old(nodes), me, sender)) && keys == old(keys)
      ensures r.Follows? ==> Placed(old(nodes), nodes, me, Some(sender))
      ensures r.Follows? ==> SlotsClosed(old(nodes), old(importing), old(migrating))
      ensures !r.Follows? ==> SameNodes(nodes, old(nodes)) && importing == old(importing) && migrating == old(migrating)
      ensures !r.Aborted? ==> KeysLeft(r.Follows?, old(slots), old(keys))
      ensures old(Settled()) && old(nodes)[sender].master ==> Settled() && !r.Aborted?
    {
      hide B.Test, Agrees, Owned, SameNodes, Bereft, LosesAll, Following, Losses, Claims, Takes, Fits, Others, Epochs,
        Placed;
      SameStart(nodes);
      if sender == me { return Kept; }
      var cur := Watched();
      ghost var s, c := Current(), Claimed(sender, epoch, claimed, importing);
      var lost, dirty := Claim(sender, epoch, claimed, cur);
      ghost var claims, mid := slots, nodes;
      ClaimsAll(s, c, slots);
      LossesAll(s, c, slots, cur, keys, lost, dirty);
      LeftWithNone(s, c, slots, me);
      SameKeys(nodes, old(nodes));
      SameEpochs(nodes, old(nodes));
      SameMasters(nodes, old(nodes), me);
      if cur.Some? { AgreesAt(slots, nodes[cur.value], cur.value, 0); }
      AgreesAt(slots, nodes[me], me, 0);
      SameFollowing(nodes, old(nodes), me, sender);
      FollowingMasters(nodes, me, sender);
      FollowingEpochs(nodes, me, sender);
      BereftLosesAll(s, c, me);
      if old(Settled()) && old(nodes)[sender].master {
        FitsKnown(old(nodes), me);
        ClaimsSettle(old(nodes), s, c, nodes, slots);
      }
      r := Settle(sender, cur, lost, dirty);
      if r.Follows? { FollowingPlaced(old(nodes), nodes, me, sender); }
      SameRole(mid, old(nodes), me);
    }

    /** What follows from the claims (lines 1534-1552). */
    method Settle(sender: Id, cur: Option<Id>, lost: bool, dirty: seq<nat>) returns (r: Outcome)
      requires Coherent() && sender in nodes && sender != me && (cur.Some? ==> cur.value in nodes)
      requires forall k :: 0 <= k < |dirty| ==> dirty[k] < SLOTS
      modifies this
      ensures Coherent() && nodes.Keys == old(nodes.Keys) && slots == old(slots)
      ensures var left := lost && (cur.None? || old(nodes)[cur.value].numslots == 0);
              && (r.Aborted? <==> left && (cur.None? || old(nodes[me].numslots) != 0))
              && (r.Follows? <==> left && cur.Some? && old(nodes[me].numslots) == 0)
      ensures r.Follows? ==> nodes == Following(old(nodes), me, sender) && keys == old(keys)
                             && SlotsClosed(old(nodes), old(importing), old(migrating))
      ensures !r.Follows? ==> nodes == old(nodes) && importing == old(importing) && migrating == old(migrating)
      ensures r.Kept? ==> forall j :: 0 <= j < SLOTS ==> keys[j] == if j in dirty then 0 else old(keys)[j]
      ensures old(Settled()) ==> Settled()
    {
      hide B.Test, Agrees, Owned, Following, Fits;
      if lost && cur.None? { return Aborted; }
      if lost && nodes[cur.value].numslots == 0 {
        if nodes[me].numslots != 0 { return Aborted; }
        SetMaster(sender);
        FollowingSlots(old(nodes), me, sender);
        return Follows;
      }
      DeleteKeys(dirty);
      return Kept;
    }

    /** A slave that has a master pointer points to a node. */
    ghost predicate Masters()
      reads this
    {
      me in nodes && (!nodes[me].master && nodes[me].slaveOf.Some? ==> nodes[me].slaveOf.value in nodes)
    }

    // ------------------------------------------------------------------------- packets

    method RecordEpoch(sender: Id, epoch: nat)
      requires Coherent() && Settled() && sender in nodes
      modifies `nodes
      ensures Coherent() && Settled() && nodes == Newer(old(nodes), sender, epoch)
      ensures Current() == Recorded(old(Current()), sender, epoch)
    {
      hide B.Test, Agrees;
      NewerFacts(nodes, me, sender, epoch);
      RolesAgree(slots, nodes, Newer(nodes, sender, epoch));
      nodes := Newer(nodes, sender, epoch);
    }

    /** The role that the sender of a PING announces (lines 1781-1817). */
    method RecordRole(sender: Id, to: Option<Id>)
      requires Coherent() && Settled() && sender in nodes && sender != me
      modifies `nodes, `slots
      ensures Coherent() && Settled() && SameNodes(nodes, Turned(old(nodes), sender, to))
      ensures Announces(old(nodes), nodes, sender, to) && nodes[sender].master == to.None?
      ensures KeepsOwn(slots, old(slots), me)
      ensures Current() == RoleHeard(old(Current()), sender, to.Some?)
    {
      hide B.Test, Agrees, SameNodes, Fits, Owned, Others, Epochs, Turned, Announces;
      SameStart(nodes);
      if to.Some? && nodes[sender].master { DelNodeSlots(sender); }
      SameKeys(nodes, old(nodes));
      SameTurned(nodes, old(nodes), sender, to);
      TurnedSlots(nodes, sender, to);
      SameFits(nodes, old(nodes), me);
      TurnedFits(nodes, me, sender, to);
      RolesAgree(slots, nodes, Turned(nodes, sender, to));
      RoleRecorded(old(nodes), old(slots), me, sender, to, nodes, slots);
      nodes := Turned(nodes, sender, to);
      TurnedAnnounces(old(nodes), nodes, sender, to);
      TurnedFlags(old(nodes), sender, to);
      SameRole(nodes, Turned(old(nodes), sender, to), sender);
    }

    method Announce(sender: Id, epoch: nat, to: Option<Id>)
      requires Coherent() && Settled() && sender in nodes && sender != me
      modifies `nodes, `slots
      ensures Coherent() && Settled() && nodes.Keys == old(nodes.Keys)
      ensures SameNodes(nodes, Announced(old(nodes), sender, epoch, to))
      ensures nodes[sender].master == to.None? && KeepsOwn(slots, old(slots), me)
      ensures Current() == RoleHeard(Recorded(old(Current()), sender, epoch), sender, to.Some?)
    {
      hide Coherent, Settled, SameNodes, Fits, Turned, RoleHeard, Recorded, Others, Epochs, Announces;
      NewerFacts(nodes, me, sender, epoch);
      TurnedSlots(Newer(nodes, sender, epoch), sender, to);
      RecordEpoch(sender, epoch);
      RecordRole(sender, to);
      SameKeys(nodes, Announced(old(nodes), sender, epoch, to));
    }

    /** The claims of a master, in a table that is settled. */
    method ApplyClaims(sender: Id, epoch: nat, claimed: seq<bv8>) returns (r: Outcome)
      requires Coherent() && Settled() && sender in nodes && sender != me && nodes[sender].master && B.IsBitmap(claimed)
      modifies this
      ensures Coherent() && Settled() && !r.Aborted? && nodes.Keys == old(nodes.Keys) && me in nodes
      ensures Current() == ClaimsHeard(old(Current()), Claimed(sender, epoch, claimed, old(importing)))
      ensures SameNodes(nodes, if r.Follows? then Following(old(nodes), me, sender) else old(nodes))
      ensures r.Follows? ==> Placed(old(nodes), nodes, me, Some(sender))
      ensures KeysLeft(r.Follows?, old(slots), old(keys))
    {
      hide Coherent, Settled, SameNodes, Following, Bereft, LosesAll, ClaimsHeard, Others, Epochs;
      TableFacts();
      MasterKnown();
      r := UpdateSlotsConfigWith(sender, epoch, claimed);
    }

    /** A PING or PONG: epoch, role, and the claims of a master.  The source skips the claims when
        they are the slots that the sender is known to have, which changes nothing. */
    method ReceivePing(sender: Id, epoch: nat, to: Option<Id>, claimed: seq<bv8>) returns (r: Outcome)
      requires Coherent() && Settled() && sender in nodes && sender != me && B.IsBitmap(claimed)
      modifies this
      ensures Coherent() && Settled() && !r.Aborted?
      ensures Current() == Heard(old(Current()), Ping(Claimed(sender, epoch, claimed, old(importing)), to.Some?))
      ensures me in nodes && nodes.Keys == old(nodes.Keys)
      ensures var roles := Announced(old(nodes), sender, epoch, to);
              SameNodes(nodes, if r.Follows? then Following(roles, me, sender) else roles)
      ensures var roles := Announced(old(nodes), sender, epoch, to);
              && Announces(Newer(old(nodes), sender, epoch), roles, sender, to)
              && (r.Follows? ==> to.None? && Placed(roles, nodes, me, Some(sender)))
      ensures KeysLeft(r.Follows?, old(slots), old(keys))
    {
      hide Announces, Placed, SameNodes, Turned, Newer, Following, ClaimsHeard, Heard, RoleHeard, Recorded, Others,
        Epochs, Coherent, Settled;
      TableFacts();
      NewerFacts(nodes, me, sender, epoch);
      SameStart(Announced(nodes, sender, epoch, to));
      TurnedAnnounces(Newer(nodes, sender, epoch), Turned(Newer(nodes, sender, epoch), sender, to), sender, to);
      PingSteps(Current(), Claimed(sender, epoch, claimed, importing), to.Some?);
      ghost var roles := Announced(nodes, sender, epoch, to);
      Announce(sender, epoch, to);
      ghost var mid := nodes;
      InOthers(nodes, me, sender);
      if !nodes[sender].master { return Kept; }
      SameFollowing(nodes, roles, me, sender);
      r := ApplyClaims(sender, epoch, claimed);
      if r.Follows? {
        SameTrans(nodes, Following(mid, me, sender), Following(roles, me, sender));
        FollowingPlaced(roles, nodes, me, sender);
      } else {
        SameTrans(nodes, mid, roles);
      }
    }

    lemma TableFacts()
      requires Coherent()
      ensures |importing| == |slots| == |keys| == SLOTS && me in nodes
    {
    }

    lemma MasterKnown()
      requires Settled()
      ensures Masters()
    {
      FitsKnown(nodes, me);
    }

    /** An UPDATE about a node (lines 1970-1991). */
    method ReceiveUpdate(about: Id, epoch: nat, claimed: seq<bv8>) returns (r: Outcome)
      requires Coherent() && Settled() && about in nodes && B.IsBitmap(claimed)
      modifies this
      ensures Coherent() && Settled() && !r.Aborted?
      ensures Current() == Heard(old(Current()), Update(Claimed(about, epoch, claimed, old(importing))))
      ensures about in nodes && KeysLeft(r.Follows?, old(slots), old(keys))
      ensures old(nodes)[about].configEpoch >= epoch ==> r.Kept? && nodes == old(nodes)
      ensures old(nodes)[about].configEpoch < epoch ==>
                var role := if old(nodes)[about].master then old(nodes) else Promoted(old(nodes), about);
                && (!old(nodes)[about].master ==> Placed(old(nodes), role, about, None))
                && about in role && (if r.Follows? then Placed(Newer(role, about, epoch), nodes, me, Some(about))
                                     else SameNodes(nodes, Newer(role, about, epoch)))
    {
      hide B.Test, Agrees, SameNodes, Fits, Owned, Promoted, Bereft, LosesAll, Following, ClaimsHeard, Heard,
        RoleHeard, Recorded, Placed, Newer;
      SameStart(nodes);
      UpdateSteps(Current(), Claimed(about, epoch, claimed, importing));
      if nodes[about].configEpoch >= epoch { return Kept; }
      BecomeMaster(about);
      NewerFacts(nodes, me, about, epoch);
      RecordEpoch(about, epoch);
      FitsKnown(nodes, me);
      r := UpdateSlotsConfigWith(about, epoch, claimed);
    }

    // --------------------------------------------------------------- slots given to a slave

    /** CLUSTER ADDSLOTS with one slot (lines 3925-3972), which is not refused to a slave. */
    method AddSlotsCommand(slot: nat) returns (ok: bool)
      requires Coherent() && slot < SLOTS
      modifies `nodes, `slots, `importing
      ensures Coherent() && SameNodes(nodes, old(nodes))
      ensures ok == old(slots[slot]).None?
      ensures slots == if ok then old(slots)[slot := Some(me)] else old(slots)
      ensures importing == if ok then old(importing)[slot := None] else old(importing)
    {
      hide B.Test, Agrees, SameNodes;
      SameStart(nodes);
      ok := slots[slot].None?;
      if ok {
        importing := importing[slot := None];
        ok := AddSlot(me, slot);
      }
    }

    /** A slave that was given a slot of its own aborts when another node takes all the slots of
        its master: it has to follow that node, and `clusterSetMaster` asserts that it has no
        slots (line 3637). */
    method GivenSlotAborts(slot: nat, sender: Id, epoch: nat, claimed: seq<bv8>) returns (r: Outcome)
      requires Coherent() && Settled() && !nodes[me].master && slot < SLOTS && slots[slot].None?
      requires sender in nodes && sender != me && B.IsBitmap(claimed) && !B.Test(claimed, slot)
      requires Bereft(Current(), Claimed(sender, epoch, claimed, importing), nodes[me].slaveOf)
      modifies this
      ensures r.Aborted?
    {
      hide B.Test, Agrees, SameNodes, Bereft, LosesAll, Following, ClaimsHeard, Fits, Epochs, Others;
      FitsKnown(nodes, me);
      ghost var s, c := Current(), Claimed(sender, epoch, claimed, importing);
      var ok := AddSlotsCommand(slot);
      SameKeys(nodes, old(nodes));
      SameEpochs(nodes, old(nodes));
      SameMasters(nodes, old(nodes), me);
      SameRole(nodes, old(nodes), me);
      GivenSlot(s, c, slot, old(nodes[me].slaveOf).value);
      r := UpdateSlotsConfigWith(sender, epoch, claimed);
    }

    /** `clusterSetNodeAsMaster`. */
    method BecomeMaster(n: Id)
      requires Coherent() && Settled() && n in nodes
      modifies `nodes
      ensures Coherent() && Settled() && nodes == (if old(nodes)[n].master then old(nodes) else Promoted(old(nodes), n))
      ensures !old(nodes)[n].master ==> Placed(old(nodes), nodes, n, None)
      ensures nodes.Keys == old(nodes.Keys) && nodes[n].master && nodes[n].configEpoch == old(nodes)[n].configEpoch
      ensures Current() == if n == me then old(Current()) else RoleHeard(old(Current()), n, false)
    {
      hide B.Test, Agrees, Fits, Owned, Promoted, Placed;
      if nodes[n].master {
        if n != me { AlreadyMaster(nodes, me, n); }
        return;
      }
      PromotedSlots(nodes, n);
      PromotedFits(nodes, me, n);
      PromotedMasters(nodes, me, n);
      PromotedSelf(nodes, n, Promoted(nodes, n));
      RolesAgree(slots, nodes, Promoted(nodes, n));
      SameStart(Promoted(nodes, n));
      PromotedPlaced(nodes, Promoted(nodes, n), n);
      nodes := Promoted(nodes, n);
    }
  }

  /** Our own slots are the same. */
  ghost predicate KeepsOwn(a: seq<Option<Id>>, b: seq<Option<Id>>, me: Id) {
    |a| == |b| && forall j :: 0 <= j < |a| ==> (a[j] == Some(me) <==> b[j] == Some(me))
  }

  /** Claims of a master settle, and a slave has no slot to lose. */
  lemma ClaimsSettle(before: map<Id, Node>, s: Owners, c: Claimed, nodes: map<Id, Node>, slots: seq<Option<Id>>)
    requires Claims(s, c, slots, SLOTS) && SameNodes(nodes, before) && Fits(before, s.me)
    requires c.sender in before && before[c.sender].master
    requires forall j :: 0 <= j < SLOTS && s.slots[j].Some?
                         ==> s.slots[j].value in before && before[s.slots[j].value].master
    ensures Fits(nodes, s.me) && s.Formed() && c.Formed(s)
    ensures forall j :: 0 <= j < SLOTS && slots[j].Some? ==> slots[j].value in nodes && nodes[slots[j].value].master
    ensures !before[s.me].master ==> LosesAll(s, c, s.me)
  {
    hide Takes, Fits;
    SameFits(nodes, before, s.me);
    assert s.me in before by { assert Fits(before, s.me); FitsKnown(before, s.me); }
    assert LosesAll(s, c, s.me) <== !before[s.me].master;
  }

  lemma RoleRecorded(before: map<Id, Node>, was: seq<Option<Id>>, me: Id, sender: Id, to: Option<Id>,
                     nodes: map<Id, Node>, slots: seq<Option<Id>>)
    requires sender in before && sender != me && SameNodes(nodes, before)
    requires forall j :: 0 <= j < |was| && was[j].Some? ==> was[j].value in before && before[was[j].value].master
    requires slots == if to.Some? && before[sender].master then Reassigned(was, sender, None) else was
    ensures sender in nodes
    ensures var after := Turned(nodes, sender, to);
            && (forall j :: 0 <= j < |slots| && slots[j].Some?
                            ==> slots[j].value in after && after[slots[j].value].master)
            && Owners(me, Epochs(after), Others(after, me), slots)
               == RoleHeard(Owners(me, Epochs(before), Others(before, me), was), sender, to.Some?)
  {
    hide Turned;
    TurnedFlags(nodes, sender, to);
    TurnedMasters(nodes, me, sender, to);
    SameMasters(nodes, before, me);
    SameEpochs(nodes, before);
    if to.Some? && !before[sender].master { assert Others(before, me) - {sender} == Others(before, me); }
  }

  lemma FitsKnown(nodes: map<Id, Node>, me: Id)
    requires Fits(nodes, me)
    ensures me in nodes && (!nodes[me].master ==> nodes[me].slaveOf.Some? && nodes[me].slaveOf.value in nodes)
    ensures nodes[me].slaveOf != Some(me)
  {
  }

  lemma RolesAgree(slots: seq<Option<Id>>, a: map<Id, Node>, b: map<Id, Node>)
    requires SameSlots(a, b) && forall x :: x in a ==> Agrees(slots, a[x], x)
    ensures forall x :: x in b ==> Agrees(slots, b[x], x)
  {
  }

  /** The bitmap and slot count of node `n` agree with the table of owners. */
  ghost predicate Agrees(slots: seq<Option<Id>>, node: Node, n: Id) {
    && B.IsBitmap(node.bits) && |slots| == SLOTS && node.numslots == |Owned(slots, n)|
    && forall j: nat :: j < SLOTS ==> (B.Test(node.bits, j) <==> slots[j] == Some(n))
  }

  lemma AgreesAt(slots: seq<Option<Id>>, node: Node, n: Id, slot: nat)
    requires Agrees(slots, node, n) && slot < SLOTS
    ensures B.IsBitmap(node.bits) && |slots| == SLOTS && (B.Test(node.bits, slot) <==> slots[slot] == Some(n))
    ensures node.numslots == |Owned(slots, n)| && (slots[slot] == Some(n) ==> node.numslots > 0)
  {
    if slots[slot] == Some(n) { assert slot in Owned(slots, n); }
  }

  /** A slot that changes hands between others does not concern `x`. */
  lemma OtherAgrees(slots: seq<Option<Id>>, node: Node, slot: nat, o: Option<Id>, x: Id)
    requires Agrees(slots, node, x) && slot < SLOTS && slots[slot] != Some(x) && o != Some(x)
    ensures Agrees(slots[slot := o], node, x)
  {
    hide B.Test;
    OwnedUpdate(slots, slot, o, x);
    assert Owned(slots, x) - {slot} == Owned(slots, x);
  }

  lemma NewAgrees(slots: seq<Option<Id>>, node: Node, slot: nat, n: Id)
    requires Agrees(slots, node, n) && slot < SLOTS && slots[slot] != Some(n)
    ensures Agrees(slots[slot := Some(n)], node.(bits := B.Set(node.bits, slot), numslots := node.numslots + 1), n)
  {
    hide B.Test, B.Set;
    OwnedUpdate(slots, slot, Some(n), n);
    forall j: nat | j < SLOTS ensures B.Test(B.Set(node.bits, slot), j) <==> slots[slot := Some(n)][j] == Some(n) {
      B.BitOver(node.bits, slot, j);
    }
  }

  lemma OldAgrees(slots: seq<Option<Id>>, node: Node, slot: nat, n: Id)
    requires Agrees(slots, node, n) && slot < SLOTS && slots[slot] == Some(n)
    ensures node.numslots > 0
    ensures Agrees(slots[slot := None], node.(bits := B.Clear(node.bits, slot), numslots := node.numslots - 1), n)
  {
    hide B.Test, B.Clear;
    assert slot in Owned(slots, n);
    OwnedUpdate(slots, slot, None, n);
    forall j: nat | j < SLOTS ensures B.Test(B.Clear(node.bits, slot), j) <==> slots[slot := None][j] == Some(n) {
      B.BitOver(node.bits, slot, j);
    }
  }

  lemma NoBit(b: seq<bv8>, j: nat)
    requires B.IsBitmap(b) && j < SLOTS && b[j / 8] == 0
    ensures !B.Test(b, j)
  {
  }
}
