/** Who owns the slots, as a node learns it from packets: what claims mean, and what becomes of
    the owner and the epoch of a slot over a run of packets. */
module ClusterOwnership {
  import opened Options
  import B = SlotBitmap

  const SLOTS := B.SLOTS

  type Id = nat

  /** This node, the epochs it has recorded, the other nodes that it takes for masters, and the
      owners of the slots. */
  datatype Owners = Owners(me: Id, epochs: map<Id, nat>, masters: set<Id>, slots: seq<Option<Id>>) {
    ghost predicate Formed() {
      && |slots| == SLOTS && me in epochs && me !in masters && masters <= epochs.Keys
      && forall j :: 0 <= j < SLOTS && slots[j].Some? ==> slots[j].value in epochs
    }

    /** Of the other nodes, only masters own slots. */
    ghost predicate MastersOwn()
      requires Formed()
    {
      forall j :: 0 <= j < SLOTS && slots[j].Some? && slots[j].value != me ==> slots[j].value in masters
    }
  }

  /** A node claims slots, with an epoch, while some slots are being imported. */
  datatype Claimed = Claimed(sender: Id, epoch: nat, bits: seq<bv8>, importing: seq<Option<Id>>) {
    ghost predicate Formed(s: Owners) {
      sender in s.epochs && |importing| == SLOTS && B.IsBitmap(bits)
    }
  }

  // ------------------------------------------------------------------------------- one claim

  /** Slot `j` is claimed and rebound (lines 1489-1504). */
  ghost predicate Takes(s: Owners, c: Claimed, j: int)
    requires s.Formed() && c.Formed(s) && 0 <= j < SLOTS
  {
    && B.Test(c.bits, j) && s.slots[j] != Some(c.sender) && c.importing[j].None?
    && (s.slots[j].None? || s.epochs[s.slots[j].value] < c.epoch)
  }

  /** The owner of slot `j` after the claims. */
  ghost function AfterClaim(s: Owners, c: Claimed, j: int): Option<Id>
    requires s.Formed() && c.Formed(s) && 0 <= j < SLOTS
  {
    if Takes(s, c, j) then Some(c.sender) else s.slots[j]
  }

  /** What claims mean: an unclaimed slot stays as it is; a claimed slot ends with the sender, or
      is being imported, or has an owner whose epoch is not older than the claim; and a slot
      changes owner only towards a strictly greater epoch. */
  lemma ClaimsOrdered(s: Owners, c: Claimed, j: nat)
    requires s.Formed() && c.Formed(s) && j < SLOTS && c.epoch <= s.epochs[c.sender]
    ensures var after := AfterClaim(s, c, j);
            && (!B.Test(c.bits, j) ==> after == s.slots[j])
            && (B.Test(c.bits, j) ==> after == Some(c.sender) || c.importing[j].Some?
                                      || (after.Some? && s.epochs[after.value] >= c.epoch))
            && (after != s.slots[j] ==> after == Some(c.sender) && B.Test(c.bits, j) && c.importing[j].None?)
            && (after != s.slots[j] && s.slots[j].Some? ==>
                  after.Some? && s.epochs[s.slots[j].value] < s.epochs[after.value])
  {
    hide B.Test;
  }

  /** What the node `cur` owns, and that it owns something, is taken; or, if there is no such
      node, some unassigned slot is taken. */
  ghost predicate Bereft(s: Owners, c: Claimed, cur: Option<Id>)
    requires s.Formed() && c.Formed(s)
  {
    if cur.Some? then (exists j :: 0 <= j < SLOTS && s.slots[j] == cur) && LosesAll(s, c, cur.value)
    else exists j :: 0 <= j < SLOTS && s.slots[j].None? && Takes(s, c, j)
  }

  ghost predicate LosesAll(s: Owners, c: Claimed, n: Id)
    requires s.Formed() && c.Formed(s)
  {
    forall j :: 0 <= j < SLOTS && s.slots[j] == Some(n) ==> Takes(s, c, j)
  }

  lemma BereftLosesAll(s: Owners, c: Claimed, n: Id)
    requires s.Formed() && c.Formed(s)
    ensures Bereft(s, c, Some(n)) ==> LosesAll(s, c, n)
  {
  }

  /** A free slot that is not claimed is given to this node, and no longer imported. */
  lemma GivenSlot(s: Owners, c: Claimed, j: nat, cur: Id)
    requires s.Formed() && c.Formed(s) && j < SLOTS && s.slots[j].None? && !B.Test(c.bits, j) && cur != s.me
    requires Bereft(s, c, Some(cur))
    ensures var t := s.(slots := s.slots[j := Some(s.me)]);
            var d := c.(importing := c.importing[j := None]);
            t.Formed() && d.Formed(t) && Bereft(t, d, Some(cur)) && !LosesAll(t, d, s.me)
  {
    var t := s.(slots := s.slots[j := Some(s.me)]);
    var k :| 0 <= k < SLOTS && s.slots[k] == Some(cur);
    assert t.slots[k] == Some(cur) && t.slots[j] == Some(s.me);
  }

  // ------------------------------------------------------------------------- runs of packets

  /** A PING or PONG with the role of its sender, or an UPDATE about a node. */
  datatype Packet = Ping(claim: Claimed, slave: bool) | Update(claim: Claimed) {
    ghost predicate Formed(s: Owners) {
      claim.Formed(s) && (Ping? ==> claim.sender != s.me)
    }
  }

  /** The epoch of the sender is recorded if it is newer. */
  ghost function Recorded(s: Owners, sender: Id, epoch: nat): Owners
    requires sender in s.epochs
  {
    s.(epochs := s.epochs[sender := if s.epochs[sender] < epoch then epoch else s.epochs[sender]])
  }

  /** The table after all slots of `n` went to `o`. */
  function Reassigned(slots: seq<Option<Id>>, n: Id, o: Option<Id>): (r: seq<Option<Id>>)
    ensures |r| == |slots|
  {
    seq(|slots|, j requires 0 <= j < |slots| => if slots[j] == Some(n) then o else slots[j])
  }

  /** A master that turns into a slave loses its slots; a slave may turn into a master. */
  ghost function RoleHeard(s: Owners, sender: Id, slave: bool): Owners {
    if slave then
      if sender in s.masters then s.(masters := s.masters - {sender}, slots := Reassigned(s.slots, sender, None)) else s
    else s.(masters := s.masters + {sender})
  }

  ghost function ClaimsHeard(s: Owners, c: Claimed): Owners
    requires s.Formed() && c.Formed(s)
  {
    s.(slots := seq(SLOTS, j requires 0 <= j < SLOTS => AfterClaim(s, c, j)))
  }

  /** Epoch, role and claims of a PING (lines 1617-1630, 1781-1817, 1842-1843); an UPDATE with
      nothing new is ignored, and one about this node has no claims (lines 1970-1991). */
  ghost function Heard(s: Owners, p: Packet): (t: Owners)
    requires s.Formed() && p.Formed(s)
    ensures t.Formed() && t.epochs.Keys == s.epochs.Keys && t.me == s.me
    ensures s.MastersOwn() ==> t.MastersOwn()
  {
    var c := p.claim;
    var r := Recorded(s, c.sender, c.epoch);
    if p.Update? && s.epochs[c.sender] >= c.epoch then s
    else if c.sender == s.me then r
    else
      var q := RoleHeard(r, c.sender, p.Ping? && p.slave);
      if c.sender in q.masters then ClaimsHeard(q, c) else q
  }

  lemma PingSteps(s: Owners, c: Claimed, slave: bool)
    requires s.Formed() && Ping(c, slave).Formed(s)
    ensures var q := RoleHeard(Recorded(s, c.sender, c.epoch), c.sender, slave);
            && q.Formed() && c.Formed(q)
            && Heard(s, Ping(c, slave)) == if c.sender in q.masters then ClaimsHeard(q, c) else q
  {
    hide ClaimsHeard;
  }

  /** The epoch and the role do not depend on each other. */
  lemma UpdateSteps(s: Owners, c: Claimed)
    requires s.Formed() && c.Formed(s)
    ensures var q := Recorded(if c.sender == s.me then s else RoleHeard(s, c.sender, false), c.sender, c.epoch);
            && q.Formed() && c.Formed(q)
            && Heard(s, Update(c)) == if s.epochs[c.sender] >= c.epoch then s
                                      else if c.sender == s.me then q else ClaimsHeard(q, c)
  {
    hide ClaimsHeard;
  }

  ghost predicate AllFormed(s: Owners, ps: seq<Packet>) {
    s.Formed() && s.MastersOwn() && forall i :: 0 <= i < |ps| ==> ps[i].Formed(s)
  }

  ghost function HeardAll(s: Owners, ps: seq<Packet>): (t: Owners)
    requires AllFormed(s, ps)
    ensures t.Formed() && t.MastersOwn() && t.epochs.Keys == s.epochs.Keys && t.me == s.me
  {
    if ps == [] then s else Heard(HeardAll(s, ps[..|ps| - 1]), ps[|ps| - 1])
  }

  /** The owner of the slot announces that it has turned into a slave. */
  ghost predicate Leaves(s: Owners, p: Packet, j: nat)
    requires s.Formed() && j < SLOTS
  {
    p.Ping? && p.slave && s.slots[j] == Some(p.claim.sender)
  }

  /** The slot is bound in both states, and its epoch did not fall, or rose. */
  ghost predicate Risen(s: Owners, t: Owners, j: nat, strictly: bool)
    requires s.Formed() && t.Formed() && j < SLOTS
  {
    && s.slots[j].Some? && t.slots[j].Some?
    && s.epochs[s.slots[j].value] <= t.epochs[t.slots[j].value]
    && (strictly ==> s.epochs[s.slots[j].value] < t.epochs[t.slots[j].value])
  }

  /** A packet unbinds a bound slot if and only if the owner leaves; otherwise the epoch of the
      slot does not fall, and rises strictly if the slot changes hands. */
  lemma HeardRises(s: Owners, p: Packet, j: nat)
    requires s.Formed() && s.MastersOwn() && p.Formed(s) && j < SLOTS && s.slots[j].Some?
    ensures Heard(s, p).slots[j].None? <==> Leaves(s, p, j)
    ensures !Leaves(s, p, j) ==> Risen(s, Heard(s, p), j, Heard(s, p).slots[j] != s.slots[j])
  {
    hide B.Test, AfterClaim, Takes;
    var c := p.claim;
    var q := RoleHeard(Recorded(s, c.sender, c.epoch), c.sender, p.Ping? && p.slave);
    if q.Formed() && c.sender in q.masters { ClaimsOrdered(q, c, j); }
  }

  /** At some packet the owner leaves. */
  ghost predicate Abandoned(s: Owners, ps: seq<Packet>, j: nat)
    requires AllFormed(s, ps) && j < SLOTS
  {
    ps != [] && (Abandoned(s, ps[..|ps| - 1], j) || Leaves(HeardAll(s, ps[..|ps| - 1]), ps[|ps| - 1], j))
  }

  /** After every packet the slot is bound. */
  ghost predicate BoundThroughout(s: Owners, ps: seq<Packet>, j: nat)
    requires AllFormed(s, ps) && j < SLOTS
  {
    HeardAll(s, ps).slots[j].Some? && (ps != [] ==> BoundThroughout(s, ps[..|ps| - 1], j))
  }

  /** The owner of the slot changed at some packet. */
  ghost predicate ChangedHands(s: Owners, ps: seq<Packet>, j: nat)
    requires AllFormed(s, ps) && j < SLOTS
  {
    ps != [] && (ChangedHands(s, ps[..|ps| - 1], j) || HeardAll(s, ps).slots[j] != HeardAll(s, ps[..|ps| - 1]).slots[j])
  }

  /** Over any run of packets, however old and in whatever order: a bound slot stays bound if and
      only if none of its owners announces that it has turned into a slave; and as long as it
      does, the epoch of its owner never falls, and rises strictly if the slot changes hands. */
  lemma {:induction false} OwnershipRises(s: Owners, ps: seq<Packet>, j: nat)
    requires AllFormed(s, ps) && j < SLOTS && s.slots[j].Some?
    ensures BoundThroughout(s, ps, j) <==> !Abandoned(s, ps, j)
    ensures !Abandoned(s, ps, j) ==> Risen(s, HeardAll(s, ps), j, ChangedHands(s, ps, j))
  {
    hide Heard, Leaves;
    if ps != [] {
      var front := ps[..|ps| - 1];
      OwnershipRises(s, front, j);
      if !Abandoned(s, front, j) { HeardRises(HeardAll(s, front), ps[|ps| - 1], j); }
    }
  }

  /** When an owner leaves, the epoch of the slot may fall: 8, with epoch 5, turns into a slave,
      and 7 claims its slot with epoch 3. */
  lemma LeavingLowers()
    ensures var none := seq(SLOTS, _ => Option<Id>.None);
            var s := Owners(1, map[1 := 0, 7 := 3, 8 := 5], {7, 8}, none[0 := Some(8)]);
            var leave := Ping(Claimed(8, 5, seq(SLOTS / 8, _ => 0), none), true);
            var claim := Ping(Claimed(7, 3, seq(SLOTS / 8, _ => 0)[0 := 1], none), false);
            && AllFormed(s, [leave, claim])
            && HeardAll(s, [leave, claim]).slots[0] == Some(7) && HeardAll(s, [leave, claim]).epochs[7] == 3
  {
    var none := seq(SLOTS, _ => Option<Id>.None);
    var s := Owners(1, map[1 := 0, 7 := 3, 8 := 5], {7, 8}, none[0 := Some(8)]);
    var bits: seq<bv8> := seq(SLOTS / 8, _ => 0);
    var leave := Ping(Claimed(8, 5, bits, none), true);
    var claim := Ping(Claimed(7, 3, bits[0 := 1], none), false);
    assert [leave, claim][..1] == [leave] && [leave][..0] == [];
    var t := Heard(s, leave);
    assert HeardAll(s, [leave]) == t && t.slots[0] == None && t.masters == {7};
    B.MaskTable(0);
    assert B.Test(bits[0 := 1], 0);
    assert Takes(RoleHeard(Recorded(t, 7, 3), 7, false), claim.claim, 0);
  }

  // --------------------------------------------------------------- the loop over the slots

  /** The slots before `end` have been looked at. */
  ghost predicate Claims(s: Owners, c: Claimed, after: seq<Option<Id>>, end: nat) {
    && s.Formed() && c.Formed(s) && |after| == SLOTS && end <= SLOTS
    && (forall j :: 0 <= j < end ==> after[j] == AfterClaim(s, c, j))
    && (forall j :: end <= j < SLOTS ==> after[j] == s.slots[j])
  }

  /** `lost` says that a slot of `cur` was lost, and `dirty` are the lost slots of this node with
      keys in them. */
  ghost predicate Losses(s: Owners, after: seq<Option<Id>>, cur: Option<Id>, keys: seq<nat>, lost: bool,
                         dirty: seq<nat>, end: nat) {
    && |s.slots| == |after| == |keys| == SLOTS && end <= SLOTS
    && (lost <==> exists j :: 0 <= j < end && s.slots[j] == cur && after[j] != cur)
    && (forall k :: 0 <= k < |dirty| ==> dirty[k] < end)
    && (forall j: nat :: j in dirty <==> j < end && s.slots[j] == Some(s.me) && after[j] != Some(s.me) && keys[j] > 0)
  }

  lemma NoClaims(s: Owners, c: Claimed, cur: Option<Id>, keys: seq<nat>)
    requires s.Formed() && c.Formed(s) && |keys| == SLOTS
    ensures Claims(s, c, s.slots, 0) && Losses(s, s.slots, cur, keys, false, [], 0)
  {
  }

  lemma Untouched(s: Owners, c: Claimed, after: seq<Option<Id>>, j: nat)
    requires Claims(s, c, after, j) && j < SLOTS
    ensures s.Formed() && c.Formed(s) && after[j] == s.slots[j] && (s.slots[j].Some? ==> s.slots[j].value in s.epochs)
    ensures Takes(s, c, j) <==> && B.Test(c.bits, j) && after[j] != Some(c.sender) && c.importing[j].None?
                                && (after[j].None? || s.epochs[after[j].value] < c.epoch)
  {
  }

  lemma OneClaim(s: Owners, c: Claimed, after: seq<Option<Id>>, j: nat)
    requires Claims(s, c, after, j) && j < SLOTS
    ensures Claims(s, c, if Takes(s, c, j) then after[j := Some(c.sender)] else after, j + 1)
  {
    hide Takes;
  }

  lemma OneLoss(s: Owners, after: seq<Option<Id>>, cur: Option<Id>, keys: seq<nat>, sender: Id, j: nat, taken: bool,
                was: bool, dirty: seq<nat>)
    requires Losses(s, after, cur, keys, was, dirty, j) && j < SLOTS && sender != s.me
    requires after[j] == s.slots[j] && (taken ==> s.slots[j] != Some(sender))
    ensures Losses(s, if taken then after[j := Some(sender)] else after, cur, keys, was || (taken && s.slots[j] == cur),
                   if taken && s.slots[j] == Some(s.me) && keys[j] > 0 then dirty + [j] else dirty, j + 1)
  {
  }

  lemma ClaimsAll(s: Owners, c: Claimed, after: seq<Option<Id>>)
    requires Claims(s, c, after, SLOTS)
    ensures s.Formed() && c.Formed(s) && after == ClaimsHeard(s, c).slots
    ensures forall j :: 0 <= j < SLOTS ==> after[j] == AfterClaim(s, c, j)
  {
    hide AfterClaim;
  }

  /** The slots of `n` according to the table of owners. */
  function Owned(slots: seq<Option<Id>>, n: Id): set<nat> {
    set j | 0 <= j < |slots| && slots[j] == Some(n)
  }

  lemma OwnedUpdate(slots: seq<Option<Id>>, j: nat, o: Option<Id>, n: Id)
    requires j < |slots|
    ensures Owned(slots[j := o], n) == if o == Some(n) then Owned(slots, n) + {j} else Owned(slots, n) - {j}
  {
  }

  lemma NoneOwned(slots: seq<Option<Id>>, n: Id)
    ensures |Owned(slots, n)| == 0 <==> forall j :: 0 <= j < |slots| ==> slots[j] != Some(n)
  {
    if |Owned(slots, n)| == 0 {
      forall j | 0 <= j < |slots| ensures slots[j] != Some(n) { assert j !in Owned(slots, n); }
    }
    if forall j :: 0 <= j < |slots| ==> slots[j] != Some(n) { assert Owned(slots, n) == {}; }
  }

  /** Losing some slot and being left without slots is losing all of them. */
  lemma LossesAll(s: Owners, c: Claimed, after: seq<Option<Id>>, cur: Option<Id>, keys: seq<nat>, lost: bool,
                  dirty: seq<nat>)
    requires Claims(s, c, after, SLOTS) && Losses(s, after, cur, keys, lost, dirty, SLOTS)
    ensures s.Formed() && c.Formed(s) && |keys| == SLOTS && forall k :: 0 <= k < |dirty| ==> dirty[k] < SLOTS
    ensures Bereft(s, c, cur) <==> lost && (cur.None? || |Owned(after, cur.value)| == 0)
    ensures forall j :: 0 <= j < SLOTS ==>
              (j in dirty <==> s.slots[j] == Some(s.me) && after[j] != Some(s.me) && keys[j] > 0)
  {
    hide Takes;
    SomeTaken(s, c, after, cur);
    if cur.Some? { NoneOwned(after, cur.value); }
  }

  lemma SomeTaken(s: Owners, c: Claimed, after: seq<Option<Id>>, cur: Option<Id>)
    requires Claims(s, c, after, SLOTS)
    ensures forall j :: 0 <= j < SLOTS && s.slots[j] == cur ==> (after[j] != cur <==> Takes(s, c, j))
    ensures cur != Some(c.sender) ==> forall j :: 0 <= j < SLOTS ==> (after[j] == cur ==> s.slots[j] == cur)
    ensures cur == Some(c.sender) ==> forall j :: 0 <= j < SLOTS && s.slots[j] == cur ==> after[j] == cur
  {
  }

  lemma LeftWithNone(s: Owners, c: Claimed, after: seq<Option<Id>>, n: Id)
    requires Claims(s, c, after, SLOTS) && n != c.sender
    ensures s.Formed() && c.Formed(s) && (LosesAll(s, c, n) <==> |Owned(after, n)| == 0)
  {
    hide Takes;
    SomeTaken(s, c, after, Some(n));
    NoneOwned(after, n);
  }
}
