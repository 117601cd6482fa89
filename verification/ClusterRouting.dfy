/** `getNodeByQuery`: which node may run a command, given the slot tables of this node. */
module ClusterRouting {
  import opened Options

  type Key = string
  type Id = string

  /** What a node knows: the owner of each bound slot, the slots it is migrating to or
      importing from another node, its master if it is a slave, and the keys it holds. */
  datatype View = View(me: Id, owner: map<nat, Id>, migrating: map<nat, Id>, importing: map<nat, Id>,
                       slaveOf: Option<Id>, keys: set<Key>)

  datatype Route = Serve | Ask(to: Id) | Moved(to: Id) | TryAgain | CrossSlot | Unbound

  function Flatten(cmds: seq<seq<Key>>): seq<Key> {
    if cmds == [] then [] else Flatten(cmds[..|cmds| - 1]) + cmds[|cmds| - 1]
  }

  predicate Migrating(v: View, slot: nat) {
    slot in v.owner && v.owner[slot] == v.me && slot in v.migrating
  }

  predicate Importing(v: View, slot: nat) {
    !Migrating(v, slot) && slot in v.importing
  }

  /** The routing decision, over all keys of the command or transaction at once.  `asking` is
      the client's ASKING flag or the command's, `readonly` a read-only command of a read-only
      client. */
  function RouteOf(v: View, slotOf: Key -> nat, ks: seq<Key>, asking: bool, readonly: bool): Route {
    if ks == [] then Serve else
    var slot := slotOf(ks[0]);
    if slot !in v.owner then Unbound
    else if exists k :: k in ks && slotOf(k) != slot then CrossSlot
    else Decide(v, slot, exists k :: k in ks && k !in v.keys, exists k :: k in ks && k != ks[0], asking, readonly)
  }

  /** The decision on a bound slot: are keys missing here, and are there different keys? */
  function Decide(v: View, slot: nat, missing: bool, multiple: bool, asking: bool, readonly: bool): Route
    requires slot in v.owner
  {
    if Migrating(v, slot) && missing then Ask(v.migrating[slot])
    else if Importing(v, slot) && asking then (if multiple && missing then TryAgain else Serve)
    else if readonly && v.slaveOf == Some(v.owner[slot]) then Serve
    else if v.owner[slot] != v.me then Moved(v.owner[slot])
    else Serve
  }

  /** What a reply tells the client about the slot of the keys: a MOVED names its owner, which is
      not this node; an ASK names the node it is migrating to, and some key is not here; and a
      command is served where the slot is owned and nothing is missing, where it is imported and
      the client asks, or by a slave of the owner that may read. */
  ghost predicate Tells(v: View, slotOf: Key -> nat, ks: seq<Key>, asking: bool, readonly: bool, r: Route) {
    if ks == [] then r == Serve else
    var slot := slotOf(ks[0]);
    var missing := exists k :: k in ks && k !in v.keys;
    && (r == Unbound <==> slot !in v.owner)
    && (r == CrossSlot ==> exists k :: k in ks && slotOf(k) != slot)
    && (r.Moved? ==> slot in v.owner && r.to == v.owner[slot] && r.to != v.me)
    && (r.Ask? ==>
          && slot in v.owner && v.owner[slot] == v.me && missing
          && slot in v.migrating && r.to == v.migrating[slot])
    && (r == TryAgain ==> asking && slot in v.importing && missing && exists k :: k in ks && k != ks[0])
    && (r == Serve ==>
          && slot in v.owner && (forall k :: k in ks ==> slotOf(k) == slot)
          && (|| (v.owner[slot] == v.me && (slot in v.migrating ==> !missing))
              || (asking && slot in v.importing)
              || (readonly && v.slaveOf == Some(v.owner[slot]))))
  }

  lemma RouteTells(v: View, slotOf: Key -> nat, ks: seq<Key>, asking: bool, readonly: bool)
    ensures Tells(v, slotOf, ks, asking, readonly, RouteOf(v, slotOf, ks, asking, readonly))
  {
  }

  // ------------------------------------------------------------------- following redirections

  /** The nodes agree on who owns the slot, and a node that it is migrating to imports it. */
  ghost predicate Consistent(nodes: map<Id, View>, slot: nat) {
    && (forall n :: n in nodes ==>
          && nodes[n].me == n && slot in nodes[n].owner && nodes[n].owner[slot] in nodes
          && (forall m :: m in nodes ==> slot in nodes[m].owner && nodes[m].owner[slot] == nodes[n].owner[slot])
          && (slot in nodes[n].migrating && nodes[n].owner[slot] == n ==>
                var to := nodes[n].migrating[slot]; to in nodes && to != n && slot in nodes[to].importing))
  }

  lemma AtNode(nodes: map<Id, View>, n: Id, slot: nat)
    requires Consistent(nodes, slot) && n in nodes
    ensures nodes[n].me == n && slot in nodes[n].owner
    ensures var o := nodes[n].owner[slot];
            o in nodes && nodes[o].me == o && slot in nodes[o].owner && nodes[o].owner[slot] == o
    ensures slot in nodes[n].migrating && nodes[n].owner[slot] == n ==>
              var to := nodes[n].migrating[slot];
              && to in nodes && to != n && nodes[to].me == to && slot in nodes[to].importing
              && slot in nodes[to].owner && nodes[to].owner[slot] == n
  {
    var o := nodes[n].owner[slot];
    assert o in nodes && nodes[o].owner[slot] == o;
  }

  /** The owner of the slot, to which a MOVED leads, does not send the client on with a MOVED:
      it serves, or has keys missing that it is migrating. */
  lemma MovedLeadsHome(nodes: map<Id, View>, n: Id, slotOf: Key -> nat, ks: seq<Key>, asking: bool, readonly: bool)
    requires ks != [] && Consistent(nodes, slotOf(ks[0])) && n in nodes
    requires RouteOf(nodes[n], slotOf, ks, asking, readonly).Moved?
    ensures var to := RouteOf(nodes[n], slotOf, ks, asking, readonly).to;
            && to in nodes && to != n && nodes[to].me == to
            && (RouteOf(nodes[to], slotOf, ks, false, readonly) == Serve
                || (RouteOf(nodes[to], slotOf, ks, false, readonly).Ask?
                    && exists k :: k in ks && k !in nodes[to].keys))
  {
    hide Consistent;
    AtNode(nodes, n, slotOf(ks[0]));
    OneSlot(nodes[n], slotOf, ks, asking, readonly);
    var to := nodes[n].owner[slotOf(ks[0])];
    OwnerRoutes(nodes[to], slotOf, ks, readonly);
  }

  lemma OneSlot(v: View, slotOf: Key -> nat, ks: seq<Key>, asking: bool, readonly: bool)
    requires var r := RouteOf(v, slotOf, ks, asking, readonly); ks != [] && (r.Moved? || r.Ask?)
    ensures forall k :: k in ks ==> slotOf(k) == slotOf(ks[0])
  {
  }

  lemma OwnerRoutes(v: View, slotOf: Key -> nat, ks: seq<Key>, readonly: bool)
    requires ks != [] && (forall k :: k in ks ==> slotOf(k) == slotOf(ks[0]))
    requires slotOf(ks[0]) in v.owner && v.owner[slotOf(ks[0])] == v.me
    ensures var r := RouteOf(v, slotOf, ks, false, readonly);
            r == Serve || (r.Ask? && exists k :: k in ks && k !in v.keys)
  {
  }

  lemma ImporterRoutes(v: View, slotOf: Key -> nat, ks: seq<Key>, readonly: bool)
    requires ks != [] && (forall k :: k in ks ==> slotOf(k) == slotOf(ks[0]))
    requires slotOf(ks[0]) in v.owner && v.owner[slotOf(ks[0])] != v.me && slotOf(ks[0]) in v.importing
    ensures RouteOf(v, slotOf, ks, true, readonly) ==
            if (exists k :: k in ks && k !in v.keys) && (exists k :: k in ks && k != ks[0]) then TryAgain else Serve
  {
  }

  /** The node that an ASK names serves a client that asks, or has it try again because different
      keys are not all there yet; and it serves one that holds all keys. */
  lemma AskLeadsOn(nodes: map<Id, View>, n: Id, slotOf: Key -> nat, ks: seq<Key>, asking: bool, readonly: bool)
    requires ks != [] && Consistent(nodes, slotOf(ks[0])) && n in nodes
    requires RouteOf(nodes[n], slotOf, ks, asking, readonly).Ask?
    ensures var to := RouteOf(nodes[n], slotOf, ks, asking, readonly).to;
            && to in nodes && to != n
            && RouteOf(nodes[to], slotOf, ks, true, readonly) ==
               if (exists k :: k in ks && k !in nodes[to].keys) && (exists k :: k in ks && k != ks[0])
               then TryAgain else Serve
  {
    hide Consistent;
    AtNode(nodes, n, slotOf(ks[0]));
    OneSlot(nodes[n], slotOf, ks, asking, readonly);
    var to := nodes[n].migrating[slotOf(ks[0])];
    ImporterRoutes(nodes[to], slotOf, ks, readonly);
  }

  /** The reply to a client that follows up to `hops` redirections. */
  ghost function Follow(nodes: map<Id, View>, n: Id, slotOf: Key -> nat, ks: seq<Key>, asking: bool, readonly: bool,
                        hops: nat): Route
    requires n in nodes
    decreases hops
  {
    var r := RouteOf(nodes[n], slotOf, ks, asking, readonly);
    if hops > 0 && (r.Moved? || r.Ask?) && r.to in nodes
    then Follow(nodes, r.to, slotOf, ks, r.Ask?, readonly, hops - 1) else r
  }

  /** From any node, two redirections are enough. */
  lemma TwoHops(nodes: map<Id, View>, n: Id, slotOf: Key -> nat, ks: seq<Key>, asking: bool, readonly: bool)
    requires n in nodes && (ks != [] ==> Consistent(nodes, slotOf(ks[0])))
    ensures !Follow(nodes, n, slotOf, ks, asking, readonly, 2).Moved?
    ensures !Follow(nodes, n, slotOf, ks, asking, readonly, 2).Ask?
  {
    hide RouteOf, Consistent;
    RouteTells(nodes[n], slotOf, ks, asking, readonly);
    var r := RouteOf(nodes[n], slotOf, ks, asking, readonly);
    if r.Moved? {
      MovedLeadsHome(nodes, n, slotOf, ks, asking, readonly);
      OneHop(nodes, r.to, slotOf, ks, readonly);
    } else if r.Ask? {
      AskLeadsOn(nodes, n, slotOf, ks, asking, readonly);
    }
  }

  lemma OneHop(nodes: map<Id, View>, n: Id, slotOf: Key -> nat, ks: seq<Key>, readonly: bool)
    requires n in nodes && ks != [] && Consistent(nodes, slotOf(ks[0]))
    requires var r := RouteOf(nodes[n], slotOf, ks, false, readonly); r == Serve || r.Ask?
    ensures !Follow(nodes, n, slotOf, ks, false, readonly, 1).Moved?
    ensures !Follow(nodes, n, slotOf, ks, false, readonly, 1).Ask?
  {
    hide RouteOf, Consistent;
    if RouteOf(nodes[n], slotOf, ks, false, readonly).Ask? { AskLeadsOn(nodes, n, slotOf, ks, false, readonly); }
  }

  // ------------------------------------------------------------------------------- the scan

  lemma FlattenNext(cmds: seq<seq<Key>>, i: nat)
    requires i < |cmds|
    ensures Flatten(cmds[..i + 1]) == Flatten(cmds[..i]) + cmds[i]
  {
    assert cmds[..i + 1][..i] == cmds[..i];
  }

  lemma {:induction false} FlattenPrefix(cmds: seq<seq<Key>>, i: nat)
    requires i <= |cmds|
    ensures Flatten(cmds[..i]) <= Flatten(cmds)
    decreases |cmds| - i
  {
    if i == |cmds| {
      assert cmds[..i] == cmds;
    } else {
      FlattenNext(cmds, i);
      FlattenPrefix(cmds, i + 1);
    }
  }

  /** The state of the scan after the keys `seen`: the slot is that of the first key, no key of
      another slot has been met, and missing and different keys have been noticed. */
  ghost predicate Scanned(v: View, slotOf: Key -> nat, seen: seq<Key>, first: Option<Key>,
                          slot: nat, missing: nat, multiple: bool)
  {
    && (seen == [] <==> first == None)
    && (seen == [] ==> missing == 0 && !multiple)
    && (seen != [] ==>
          && first == Some(seen[0]) && slot == slotOf(seen[0]) && slot in v.owner
          && (forall k :: k in seen ==> slotOf(k) == slot)
          && (missing > 0 <==> (Migrating(v, slot) || Importing(v, slot)) && exists k :: k in seen && k !in v.keys)
          && (multiple <==> exists k :: k in seen && k != seen[0]))
  }

  lemma ScannedNext(v: View, slotOf: Key -> nat, seen: seq<Key>, first: Option<Key>, slot: nat, missing: nat,
                    multiple: bool, k: Key, slot': nat, missing': nat, multiple': bool)
    requires Scanned(v, slotOf, seen, first, slot, missing, multiple)
    requires slotOf(k) in v.owner && slot' == slotOf(k) && (seen != [] ==> slot' == slot)
    requires missing' == missing + if (Migrating(v, slot') || Importing(v, slot')) && k !in v.keys then 1 else 0
    requires multiple' <==> multiple || (first != None && k != first.value)
    ensures Scanned(v, slotOf, seen + [k], if first == None then Some(k) else first, slot', missing', multiple')
  {
    var s := seen + [k];
    assert forall x :: x in s <==> x in seen || x == k;
    if seen == [] { assert s == [k]; } else { assert s[0] == seen[0]; }
    assert k in s;
    if multiple {
      var x :| x in seen && x != seen[0];
      assert x in s;
    }
  }

  /** The scan stops at the first key of an unbound slot, or of another slot. */
  lemma ScanStops(v: View, slotOf: Key -> nat, all: seq<Key>, seen: seq<Key>, first: Option<Key>, slot: nat,
                  missing: nat, multiple: bool, k: Key, asking: bool, readonly: bool)
    requires Scanned(v, slotOf, seen, first, slot, missing, multiple) && seen + [k] <= all
    ensures first == None && slotOf(k) !in v.owner ==> RouteOf(v, slotOf, all, asking, readonly) == Unbound
    ensures first != None && slotOf(k) != slot ==> RouteOf(v, slotOf, all, asking, readonly) == CrossSlot
  {
    assert (seen + [k])[|seen|] == k;
    assert all[|seen|] == k && k in all;
    if seen != [] { assert (seen + [k])[0] == seen[0] && all[0] == seen[0]; }
  }

  /** The decision once all keys have been scanned. */
  lemma ScanDone(v: View, slotOf: Key -> nat, all: seq<Key>, first: Option<Key>, slot: nat,
                 missing: nat, multiple: bool, asking: bool, readonly: bool)
    requires Scanned(v, slotOf, all, first, slot, missing, multiple)
    ensures first == None ==> RouteOf(v, slotOf, all, asking, readonly) == Serve
    ensures first != None ==> slot in v.owner
    ensures first != None ==>
              RouteOf(v, slotOf, all, asking, readonly) == Decide(v, slot, missing > 0, multiple, asking, readonly)
  {
  }

  lemma SlotBound(v: View, slotOf: Key -> nat, seen: seq<Key>, first: Option<Key>, slot: nat, missing: nat,
                  multiple: bool)
    requires Scanned(v, slotOf, seen, first, slot, missing, multiple)
    ensures seen == [] <==> first == None
    ensures first != None ==> slot in v.owner && slotOf(first.value) == slot
  {
  }

  lemma ScanStart(v: View, slotOf: Key -> nat)
    ensures Scanned(v, slotOf, [], None, 0, 0, false)
  {
  }

  method GetNodeByQuery(v: View, slotOf: Key -> nat, cmds: seq<seq<Key>>, asking: bool, readonly: bool)
    returns (r: Route)
    ensures r == RouteOf(v, slotOf, Flatten(cmds), asking, readonly)
    ensures Tells(v, slotOf, Flatten(cmds), asking, readonly, r)
  {
    hide Scanned, RouteOf, Tells;
    ghost var all := Flatten(cmds);
    RouteTells(v, slotOf, all, asking, readonly);
    ScanStart(v, slotOf);
    var first: Option<Key> := None;
    var slot, missing := 0, 0;
    var multiple, migratingSlot, importingSlot := false, false, false;
    var i := 0;
    while i < |cmds|
      invariant 0 <= i <= |cmds|
      invariant Scanned(v, slotOf, Flatten(cmds[..i]), first, slot, missing, multiple)
      invariant migratingSlot == (first != None && Migrating(v, slot))
      invariant importingSlot == (first != None && Importing(v, slot))
    {
      FlattenNext(cmds, i);
      FlattenPrefix(cmds, i + 1);
      ghost var before := Flatten(cmds[..i]);
      var keys := cmds[i];
      var j := 0;
      assert before + keys[..0] == before;
      while j < |keys|
        invariant 0 <= j <= |keys|
        invariant Scanned(v, slotOf, before + keys[..j], first, slot, missing, multiple)
        invariant migratingSlot == (first != None && Migrating(v, slot))
        invariant importingSlot == (first != None && Importing(v, slot))
      {
        var k := keys[j];
        ghost var seen, missing0, multiple0, first0, slot0 := before + keys[..j], missing, multiple, first, slot;
        assert seen + [k] == before + keys[..j + 1] <= all;
        ScanStops(v, slotOf, all, seen, first, slot, missing, multiple, k, asking, readonly);
        SlotBound(v, slotOf, seen, first, slot, missing, multiple);
        var thisSlot := slotOf(k);
        if first == None {
          first := Some(k);
          slot := thisSlot;
          if slot !in v.owner { return Unbound; }
          if v.owner[slot] == v.me && slot in v.migrating {
            migratingSlot := true;
          } else if slot in v.importing {
            importingSlot := true;
          }
        } else if first.value != k {
          if slot != thisSlot { return CrossSlot; }
          multiple := true;
        }
        if (migratingSlot || importingSlot) && k !in v.keys { missing := missing + 1; }
        ScannedNext(v, slotOf, seen, first0, slot0, missing0, multiple0, k, slot, missing, multiple);
        j := j + 1;
      }
      assert keys[..j] == keys;
      i := i + 1;
    }
    assert cmds[..i] == cmds;
    ScanDone(v, slotOf, all, first, slot, missing, multiple, asking, readonly);
    if first == None { return Serve; }
    var n := v.owner[slot];
    if migratingSlot && missing > 0 { return Ask(v.migrating[slot]); }
    if importingSlot && asking {
      if multiple && missing > 0 { return TryAgain; } else { return Serve; }
    }
    if readonly && v.slaveOf == Some(n) { return Serve; }
    if n != v.me { return Moved(n); }
    return Serve;
  }
}
