/** Transactions: the clients' flags, queues and watch lists, and the index from keys to the
    clients that watch them. */
module Multi {
  import opened Options
  import opened MultiLog

  datatype Client = Client(db: nat, watched: seq<Key>, multi: bool, dirtyCas: bool, dirtyExec: bool,
                           queue: seq<Command>)

  type Clients = map<Id, Client>
  type Index = map<Key, seq<Id>>

  const Blank: Client := Client(0, [], false, false, false, [])

  function At(clients: Clients, c: Id): Client { if c in clients then clients[c] else Blank }

  ghost predicate Distinct<T>(s: seq<T>) { forall i, j :: 0 <= i < j < |s| ==> s[i] != s[j] }

  /** Client lists and index are exact inverses, with no duplicates and no empty entry. */
  ghost predicate Coherent(clients: Clients, index: Index) {
    && (forall c :: Distinct(At(clients, c).watched))
    && (forall k <- index :: index[k] != [] && Distinct(index[k]))
    && (forall c, k :: k in At(clients, c).watched <==> k in index && c in index[k])
  }

  /** The client's fields say what the log says about it. */
  ghost predicate Matches(cl: Client, c: Id, log: Log) {
    && (forall k :: k in cl.watched <==> Watching(log, c, k))
    && (cl.dirtyCas <==> Stale(log, c))
    && (cl.multi <==> InMulti(log, c))
    && (cl.dirtyExec <==> Failed(log, c))
    && cl.queue == Queue(log, c)
  }

  ghost predicate Faithful(clients: Clients, log: Log) { forall c :: Matches(At(clients, c), c, log) }

  // ----------------------------------------------------------------------- one more event

  /** How an event changes what a client's fields should say. */
  ghost predicate Follows(cl: Client, now: Client, c: Id, f: Fact, hit: bool) {
    && (forall k :: k in now.watched <==> f == Watched(c, k) || (k in cl.watched && f != Released(c)))
    && (now.dirtyCas <==> f != Released(c) && (cl.dirtyCas || hit))
    && (now.multi <==> f == Opened(c) || (cl.multi && f != Closed(c)))
    && (now.dirtyExec <==> f != Closed(c) && (cl.dirtyExec || (cl.multi && f == Refused(c))))
    && now.queue == if f == Closed(c) then [] else if f.Queued? && f.c == c then cl.queue + [f.cmd] else cl.queue
  }

  /** The client watches a key that the event touches. */
  predicate Hit(cl: Client, f: Fact, store: map<Key, Value>) {
    || (f.Changed? && f.key in cl.watched)
    || (f.Flushed? && exists k <- cl.watched :: Covers(f.db, k) && k in store)
  }

  lemma HitHits(cl: Client, c: Id, log: Log, f: Fact)
    requires Matches(cl, c, log)
    ensures Hit(cl, f, Replay(log)) <==> Hits(log, f, c)
  {
    var more := log + [f];
    assert more[..|log|] == log && more[|log|] == f;
    if f.Changed? && f.key in cl.watched { assert Touches(more, |log|, f.key); }
    if f.Flushed? && Hit(cl, f, Replay(log)) {
      var k :| k in cl.watched && Covers(f.db, k) && k in Replay(log);
      assert Touches(more, |log|, k);
    }
  }

  lemma ClientFollows(cl: Client, now: Client, c: Id, log: Log, f: Fact)
    requires Matches(cl, c, log) && Follows(cl, now, c, f, Hit(cl, f, Replay(log)))
    ensures Matches(now, c, log + [f])
  {
    HitHits(cl, c, log, f);
    hide Watching, Stale, InMulti, Failed, Queue, Hits, Hit;
    StaleSnoc(log, f, c);
    InMultiSnoc(log, f, c);
    FailedSnoc(log, f, c);
    QueueSnoc(log, f, c);
    forall k ensures k in now.watched <==> Watching(log + [f], c, k) { WatchingSnoc(log, f, c, k); }
  }

  lemma AllFollow(clients: Clients, after: Clients, log: Log, f: Fact)
    requires Faithful(clients, log)
    requires forall c :: Follows(At(clients, c), At(after, c), c, f, Hit(At(clients, c), f, Replay(log)))
    ensures Faithful(after, log + [f])
  {
    forall c ensures Matches(At(after, c), c, log + [f]) { ClientFollows(At(clients, c), At(after, c), c, log, f); }
  }

  /** An event of one client, which touches no key, leaves the others alone. */
  lemma OneFollows(clients: Clients, c: Id, now: Client, log: Log, f: Fact)
    requires Faithful(clients, log) && c in clients && !f.Changed? && !f.Flushed? && f.c == c
    requires Follows(clients[c], now, c, f, false)
    ensures Faithful(clients[c := now], log + [f])
  {
    AllFollow(clients, clients[c := now], log, f);
  }

  lemma ClientFacts(clients: Clients, log: Log, c: Id)
    requires Faithful(clients, log) && c in clients
    ensures clients[c].multi <==> InMulti(log, c)
    ensures clients[c].dirtyCas <==> Stale(log, c)
    ensures clients[c].dirtyExec <==> Failed(log, c)
    ensures clients[c].queue == Queue(log, c)
  {
    assert Matches(At(clients, c), c, log);
  }

  lemma OpenedStep(clients: Clients, index: Index, c: Id, log: Log)
    requires Coherent(clients, index) && Faithful(clients, log) && c in clients
    ensures Coherent(clients[c := clients[c].(multi := true)], index)
    ensures Faithful(clients[c := clients[c].(multi := true)], log + [Opened(c)])
  {
    hide Coherent, Matches;
    OneFollows(clients, c, clients[c].(multi := true), log, Opened(c));
    SameWatches(clients, clients[c := clients[c].(multi := true)], index);
  }

  lemma QueuedStep(clients: Clients, index: Index, c: Id, log: Log, cmd: Command)
    requires Coherent(clients, index) && Faithful(clients, log) && c in clients
    ensures Coherent(clients[c := clients[c].(queue := clients[c].queue + [cmd])], index)
    ensures Faithful(clients[c := clients[c].(queue := clients[c].queue + [cmd])], log + [Queued(c, cmd)])
  {
    hide Coherent, Matches;
    var now := clients[c].(queue := clients[c].queue + [cmd]);
    OneFollows(clients, c, now, log, Queued(c, cmd));
    SameWatches(clients, clients[c := now], index);
  }

  /** Watches dropped and the mark cleared; the order of the two does not matter. */
  lemma ReleasedStep(clients: Clients, index: Index, c: Id, log: Log)
    requires Faithful(clients, log) && c in clients
    ensures Faithful(clients[c := clients[c].(watched := [], dirtyCas := false)], log + [Released(c)])
    ensures var dropped := clients[c := clients[c].(watched := [])];
            Coherent(dropped, index) ==> Coherent(dropped[c := dropped[c].(dirtyCas := false)], index)
  {
    hide Coherent, Matches;
    OneFollows(clients, c, clients[c].(watched := [], dirtyCas := false), log, Released(c));
    var dropped := clients[c := clients[c].(watched := [])];
    if Coherent(dropped, index) { SameWatches(dropped, dropped[c := dropped[c].(dirtyCas := false)], index); }
  }

  lemma WatchedStep(clients: Clients, c: Id, log: Log, key: Key)
    requires Faithful(clients, log) && c in clients
    ensures key in clients[c].watched ==> Faithful(clients, log + [Watched(c, key)])
    ensures key !in clients[c].watched ==>
              Faithful(clients[c := clients[c].(watched := clients[c].watched + [key])], log + [Watched(c, key)])
  {
    hide Matches;
    if key in clients[c].watched {
      OneFollows(clients, c, clients[c], log, Watched(c, key));
      assert clients[c := clients[c]] == clients;
    } else {
      OneFollows(clients, c, clients[c].(watched := clients[c].watched + [key]), log, Watched(c, key));
    }
  }

  lemma RefusedStep(clients: Clients, index: Index, c: Id, log: Log)
    requires Coherent(clients, index) && Faithful(clients, log) && c in clients
    ensures clients[c].multi ==> Coherent(clients[c := clients[c].(dirtyExec := true)], index)
    ensures clients[c].multi ==> Faithful(clients[c := clients[c].(dirtyExec := true)], log + [Refused(c)])
    ensures !clients[c].multi ==> Faithful(clients, log + [Refused(c)])
  {
    hide Coherent, Matches;
    var now := clients[c].(dirtyExec := clients[c].dirtyExec || clients[c].multi);
    OneFollows(clients, c, now, log, Refused(c));
    SameWatches(clients, clients[c := now], index);
    assert !clients[c].multi ==> clients[c := now] == clients;
  }

  lemma ClosedStep(clients: Clients, index: Index, c: Id, log: Log)
    requires Coherent(clients, index) && Faithful(clients, log) && c in clients
    ensures Coherent(clients[c := clients[c].(multi := false, dirtyExec := false, queue := [], dirtyCas := false)],
                     index)
    ensures Faithful(clients[c := Blank.(db := clients[c].db)], log + [Closed(c), Released(c)])
    ensures Replay(log + [Closed(c), Released(c)]) == Replay(log)
  {
    hide Coherent, Matches;
    var closed, now := clients[c].(multi := false, dirtyExec := false, queue := []), Blank.(db := clients[c].db);
    OneFollows(clients, c, closed, log, Closed(c));
    OneFollows(clients[c := closed], c, now, log + [Closed(c)], Released(c));
    assert clients[c := closed][c := now] == clients[c := now];
    ReplaySnoc(log, Closed(c));
    ReplaySnoc(log + [Closed(c)], Released(c));
    assert log + [Closed(c)] + [Released(c)] == log + [Closed(c), Released(c)];
    SameWatches(clients, clients[c := closed.(dirtyCas := false)], index);
  }

  // ------------------------------------------------------------------------- the index

  lemma WatchCoheres(clients: Clients, index: Index, c: Id, k: Key)
    requires Coherent(clients, index) && c in clients && k !in clients[c].watched
    ensures var ids := (if k in index then index[k] else []) + [c];
            Coherent(clients[c := clients[c].(watched := clients[c].watched + [k])], index[k := ids])
  {
    assert At(clients, c) == clients[c];
    var ids := (if k in index then index[k] else []) + [c];
    var after, index' := clients[c := clients[c].(watched := clients[c].watched + [k])], index[k := ids];
    assert Distinct(ids);
    forall d, x ensures x in At(after, d).watched <==> x in index' && d in index'[x] {
      assert x in At(clients, d).watched <==> x in index && d in index[x];
    }
    forall d ensures Distinct(At(after, d).watched) { assert Distinct(At(clients, d).watched); }
  }

  function Without<T(==)>(s: seq<T>, x: T): (r: seq<T>)
    requires x in s
    ensures |r| == |s| - 1
  {
    if s[0] == x then s[1..] else [s[0]] + Without(s[1..], x)
  }

  lemma {:induction false} WithoutFacts<T>(s: seq<T>, x: T)
    requires x in s && Distinct(s)
    ensures Distinct(Without(s, x)) && forall y :: y in Without(s, x) <==> y in s && y != x
  {
    assert s == [s[0]] + s[1..];
    if s[0] != x {
      WithoutFacts(s[1..], x);
      var r := Without(s[1..], x);
      assert s[0] !in r;
    }
  }

  /** The index after a client was taken off one key's list; an empty list is deleted. */
  function Taken(index: Index, k: Key, c: Id): Index
    requires k in index && c in index[k]
  {
    var ids := Without(index[k], c);
    if ids == [] then index - {k} else index[k := ids]
  }

  lemma UnwatchCoheres(clients: Clients, index: Index, c: Id)
    requires Coherent(clients, index) && c in clients && clients[c].watched != []
    ensures var k := clients[c].watched[0];
            && k in index && c in index[k]
            && Coherent(clients[c := clients[c].(watched := clients[c].watched[1..])], Taken(index, k, c))
  {
    assert At(clients, c) == clients[c];
    var k, rest := clients[c].watched[0], clients[c].watched[1..];
    assert clients[c].watched == [k] + rest;
    assert k in clients[c].watched;
    WithoutFacts(index[k], c);
    var after, index' := clients[c := clients[c].(watched := rest)], Taken(index, k, c);
    forall d, x ensures x in At(after, d).watched <==> x in index' && d in index'[x] {
      assert x in At(clients, d).watched <==> x in index && d in index[x];
    }
    forall d ensures Distinct(At(after, d).watched) { assert Distinct(At(clients, d).watched); }
  }

  /** Coherence looks at nothing but the watch lists. */
  lemma SameWatches(clients: Clients, after: Clients, index: Index)
    requires Coherent(clients, index) && forall c :: At(after, c).watched == At(clients, c).watched
    ensures Coherent(after, index)
  {
    forall c, k ensures k in At(after, c).watched <==> k in index && c in index[k] {
      assert k in At(clients, c).watched <==> k in index && c in index[k];
    }
    forall c ensures Distinct(At(after, c).watched) { assert Distinct(At(clients, c).watched); }
  }

  // ---------------------------------------------------------------------------- effects

  /** Every client that watches a key the event touches becomes dirty. */
  function Marked(clients: Clients, f: Fact, store: map<Key, Value>): Clients {
    map c | c in clients :: clients[c].(dirtyCas := clients[c].dirtyCas || Hit(clients[c], f, store))
  }

  lemma MarkedFollows(clients: Clients, index: Index, log: Log, f: Fact)
    requires Coherent(clients, index) && Faithful(clients, log) && (f.Changed? || f.Flushed?)
    ensures Coherent(Marked(clients, f, Replay(log)), index) && Faithful(Marked(clients, f, Replay(log)), log + [f])
  {
    hide Matches, Coherent;
    AllFollow(clients, Marked(clients, f, Replay(log)), log, f);
    SameWatches(clients, Marked(clients, f, Replay(log)), index);
  }

  function ChangeFacts(db: nat, changes: seq<(string, Option<Value>)>): Log {
    if changes == [] then []
    else ChangeFacts(db, changes[..|changes| - 1])
         + [Changed(Key(db, changes[|changes| - 1].0), changes[|changes| - 1].1)]
  }

  function WatchFacts(c: Id, db: nat, names: seq<string>): Log {
    if names == [] then [] else WatchFacts(c, db, names[..|names| - 1]) + [Watched(c, Key(db, names[|names| - 1]))]
  }

  /** The events that executing a command of client `c` in database `db` gives rise to. */
  function Effect(c: Id, db: nat, cmd: Command): Log {
    match cmd
    case Select(_) => []
    case Unwatch => [Released(c)]
    case FlushDb => [Flushed(Some(db))]
    case FlushAll => [Flushed(None)]
    case Data(changes) => ChangeFacts(db, changes)
  }

  /** What a command does to the data when database `db` is selected: a data command leaves its
      keys, which are in that database, with the last value it gives them. */
  ghost predicate Does(cmd: Command, db: nat, before: map<Key, Value>, after: map<Key, Value>) {
    match cmd
    case Select(_) => after == before
    case Unwatch => after == before
    case FlushDb => forall k: Key :: if k.db == db then k !in after else SameAt(after, before, k)
    case FlushAll => after == map[]
    case Data(changes) => Changes(changes, db, before, after)
  }

  ghost predicate Changes(changes: seq<(string, Option<Value>)>, db: nat, before: map<Key, Value>,
                          after: map<Key, Value>) {
    && (forall k: Key :: (k.db == db ==> forall j :: 0 <= j < |changes| ==> changes[j].0 != k.name) ==>
          SameAt(after, before, k))
    && (forall j :: 0 <= j < |changes| && (forall i :: j < i < |changes| ==> changes[i].0 != changes[j].0) ==>
          Holds(after, Key(db, changes[j].0), changes[j].1))
  }

  lemma ChangeNext(changes: seq<(string, Option<Value>)>, db: nat, before: map<Key, Value>, mid: map<Key, Value>,
                   n: nat)
    requires n < |changes| && Changes(changes[..n], db, before, mid)
    ensures Changes(changes[..n + 1], db, before,
                    if changes[n].1.Some? then mid[Key(db, changes[n].0) := changes[n].1.value]
                    else mid - {Key(db, changes[n].0)})
  {
    var more := changes[..n + 1];
    var after := if changes[n].1.Some? then mid[Key(db, changes[n].0) := changes[n].1.value]
                 else mid - {Key(db, changes[n].0)};
    forall k: Key | k.db == db ==> forall j :: 0 <= j < |more| ==> more[j].0 != k.name
      ensures SameAt(after, before, k)
    {
      assert k.db == db ==> more[n].0 != k.name && forall j :: 0 <= j < n ==> changes[..n][j].0 == more[j].0;
      assert SameAt(mid, before, k);
    }
    forall j | 0 <= j < |more| && (forall i :: j < i < |more| ==> more[i].0 != more[j].0)
      ensures Holds(after, Key(db, more[j].0), more[j].1)
    {
      if j < n {
        assert more[n].0 != more[j].0 && changes[..n][j] == more[j];
        assert forall i :: j < i < n ==> changes[..n][i].0 == more[i].0;
        assert Holds(mid, Key(db, more[j].0), more[j].1);
      }
    }
  }

  lemma NoChanges(changes: seq<(string, Option<Value>)>, db: nat, store: map<Key, Value>)
    requires changes == []
    ensures Changes(changes, db, store, store)
  {
  }

  function DbAfter(db: nat, cmds: seq<Command>): nat {
    if cmds == [] then db else
    match cmds[|cmds| - 1]
    case Select(n) => n
    case _ => DbAfter(db, cmds[..|cmds| - 1])
  }

  /** The events of a whole queue, one command after the other. */
  function Effects(c: Id, db: nat, cmds: seq<Command>): Log {
    if cmds == [] then [] else
    var rest := cmds[..|cmds| - 1];
    Effects(c, db, rest) + Effect(c, DbAfter(db, rest), cmds[|cmds| - 1])
  }

  lemma OneDb(db: nat, cmd: Command)
    ensures DbAfter(db, [cmd]) == if cmd.Select? then cmd.db else db
  {
    assert [cmd][..0] == [];
  }

  lemma NoEffects(c: Id, db: nat, cmds: seq<Command>)
    requires cmds == []
    ensures Effects(c, db, cmds) == [] && DbAfter(db, cmds) == db
  {
  }

  lemma EffectsNext(c: Id, db: nat, q: seq<Command>, j: nat)
    requires j < |q|
    ensures DbAfter(db, q[..j + 1]) == DbAfter(DbAfter(db, q[..j]), [q[j]])
    ensures Effects(c, db, q[..j + 1]) == Effects(c, db, q[..j]) + Effect(c, DbAfter(db, q[..j]), q[j])
  {
    hide Effect;
    assert q[..j + 1][..j] == q[..j];
    OneDb(DbAfter(db, q[..j]), q[j]);
  }

  /** The client watches those keys of its database too, and nothing else about it is different. */
  ghost predicate Watches(was: Client, now: Client, names: seq<string>) {
    && now == was.(watched := now.watched)
    && forall k: Key :: k in now.watched <==> k in was.watched || (k.db == was.db && k.name in names)
  }

  lemma WatchesNone(was: Client, names: seq<string>)
    requires names == []
    ensures Watches(was, was, names)
  {
  }

  lemma WatchesDb(was: Client, now: Client, names: seq<string>)
    requires Watches(was, now, names)
    ensures now.db == was.db
  {
  }

  lemma WatchFactsNone(c: Id, db: nat, names: seq<string>)
    requires names == []
    ensures WatchFacts(c, db, names) == []
  {
  }

  lemma WatchFactsNext(c: Id, db: nat, names: seq<string>, j: nat)
    requires j < |names|
    ensures WatchFacts(c, db, names[..j + 1]) == WatchFacts(c, db, names[..j]) + [Watched(c, Key(db, names[j]))]
  {
    assert names[..j + 1][..j] == names[..j];
  }

  lemma OneUpdated(clients: Clients, c: Id, cl: Client)
    requires c in clients && clients[c] == cl
    ensures clients == clients[c := cl]
  {
  }

  lemma UpdatedTwice(was: Clients, mid: Clients, now: Clients, c: Id)
    requires c in was && c in mid && c in now && mid == was[c := mid[c]] && now == mid[c := now[c]]
    ensures now == was[c := now[c]]
  {
  }

  lemma WatchesNext(was: Client, mid: Client, now: Client, names: seq<string>, j: nat)
    requires j < |names| && Watches(was, mid, names[..j])
    requires var key := Key(mid.db, names[j]);
             now == mid.(watched := if key in mid.watched then mid.watched else mid.watched + [key])
    ensures Watches(was, now, names[..j + 1])
  {
    assert names[..j + 1] == names[..j] + [names[j]];
    forall k: Key ensures k in now.watched <==> k in was.watched || (k.db == was.db && k.name in names[..j + 1]) {
      assert k == Key(k.db, k.name);
    }
  }

  datatype ExecReply =
    | NotInMulti                         // an error
    | ExecAbort                          // some command was refused
    | Null                               // some watched key was touched
    | Ran(cmds: seq<Command>)

  datatype Request =
    | Connect(c: Id)
    | Disconnect(c: Id)
    | Watch(c: Id, names: seq<string>)
    | BeginMulti(c: Id)
    | Exec(c: Id)
    | Discard(c: Id)
    | Send(c: Id, cmd: Command, accepted: bool)

  /** The search for a key that is already watched. */
  method Member(keys: seq<Key>, key: Key) returns (found: bool)
    ensures found <==> key in keys
  {
    var i := 0;
    while i < |keys|
      invariant 0 <= i <= |keys| && key !in keys[..i]
    {
      if keys[i] == key { return true; }
      i := i + 1;
    }
    return false;
  }

  class Server {
    var clients: Clients
    var index: Index
    var store: map<Key, Value>
    ghost var log: Log

    ghost predicate Valid() reads this {
      Coherent(clients, index) && Faithful(clients, log) && store == Replay(log)
    }

    constructor ()
      ensures Valid() && clients == map[] && log == []
    {
      clients, index, store, log := map[], map[], map[], [];
    }

    method NewClient(c: Id)
      requires Valid() && c !in clients
      modifies this
      ensures Valid() && clients == old(clients)[c := Blank] && log == old(log)
    {
      clients := clients[c := Blank];
      assert forall d :: At(clients, d) == At(old(clients), d);
      SameWatches(old(clients), clients, index);
    }

    /** The key goes on the client's list and the client on the key's, unless it is there. */
    method WatchForKey(c: Id, name: string)
      requires Valid() && c in clients
      modifies this
      ensures Valid() && log == old(log) + [Watched(c, Key(old(clients)[c].db, name))] && SameDbs(old(clients), clients)
      ensures c in clients && clients == old(clients)[c := clients[c]]
      ensures var key := Key(old(clients)[c].db, name); var was := old(clients)[c];
              clients[c] == was.(watched := if key in was.watched then was.watched else was.watched + [key])
    {
      hide Coherent, Faithful;
      var cl := clients[c];
      var key := Key(cl.db, name);
      WatchedStep(clients, c, log, key);
      ReplaySnoc(log, Watched(c, key));
      log := log + [Watched(c, key)];
      var already := Member(cl.watched, key);
      if already { return; }
      WatchCoheres(clients, index, c, key);
      index := index[key := (if key in index then index[key] else []) + [c]];
      DbsUpdated(clients, c, cl.(watched := cl.watched + [key]));
      clients := clients[c := cl.(watched := cl.watched + [key])];
    }

    /** The client is taken off the list of every key it watches. */
    method UnwatchAllKeys(c: Id)
      requires Coherent(clients, index) && c in clients
      modifies this`clients, this`index
      ensures Coherent(clients, index) && clients == old(clients)[c := old(clients)[c].(watched := [])]
    {
      hide Coherent, Taken;
      assert clients == clients[c := clients[c].(watched := clients[c].watched)];
      while clients[c].watched != []
        invariant c in clients && Coherent(clients, index)
        invariant clients == old(clients)[c := old(clients)[c].(watched := clients[c].watched)]
        decreases |clients[c].watched|
      {
        var cl := clients[c];
        var key := cl.watched[0];
        UnwatchCoheres(clients, index, c);
        index := Taken(index, key, c);
        clients := clients[c := cl.(watched := cl.watched[1..])];
      }
    }

    /** All clients that watch the key are marked. */
    method TouchWatchedKey(key: Key, ghost now: Option<Value>)
      requires Coherent(clients, index)
      modifies this`clients
      ensures clients == Marked(old(clients), Changed(key, now), store)
    {
      ghost var was := clients;
      forall c ensures key in At(was, c).watched <==> key in index && c in index[key] { }
      if key !in index {
        forall c <- was ensures key !in was[c].watched { assert At(was, c) == was[c]; }
        return;
      }
      var ids, i := index[key], 0;
      hide Coherent;
      while i < |ids|
        invariant 0 <= i <= |ids| && clients.Keys == was.Keys
        invariant forall c <- was :: clients[c] == was[c].(dirtyCas := was[c].dirtyCas || c in ids[..i])
      {
        var c := ids[i];
        assert c in ids && key in At(was, c).watched;
        clients := clients[c := clients[c].(dirtyCas := true)];
        assert ids[..i + 1] == ids[..i] + [c];
        i := i + 1;
      }
      assert ids[..|ids|] == ids;
      forall c <- was ensures c in ids <==> key in was[c].watched { assert At(was, c) == was[c]; }
    }

    /** The inner loop of the flush: does the client watch a key that is about to go? */
    method WatchesFlushed(cl: Client, db: Option<nat>) returns (hit: bool)
      ensures hit <==> Hit(cl, Flushed(db), store)
    {
      hit := false;
      var i := 0;
      while i < |cl.watched|
        invariant 0 <= i <= |cl.watched|
        invariant hit <==> exists k <- cl.watched[..i] :: Covers(db, k) && k in store
      {
        if Covers(db, cl.watched[i]) && cl.watched[i] in store { hit := true; }
        assert cl.watched[..i + 1] == cl.watched[..i] + [cl.watched[i]];
        i := i + 1;
      }
      assert cl.watched[..i] == cl.watched;
    }

    method TouchWatchedKeysOnFlush(db: Option<nat>)
      modifies this`clients
      ensures clients == Marked(old(clients), Flushed(db), store)
    {
      hide Hit;
      ghost var was := clients;
      var todo := clients.Keys;
      while todo != {}
        invariant todo <= clients.Keys == was.Keys
        invariant forall c <- was :: clients[c] == if c in todo then was[c]
                  else was[c].(dirtyCas := was[c].dirtyCas || Hit(was[c], Flushed(db), store))
        decreases todo
      {
        var c :| c in todo;
        var hit := WatchesFlushed(clients[c], db);
        if hit { clients := clients[c := clients[c].(dirtyCas := true)]; }
        todo := todo - {c};
      }
    }
  
    // -------------------------------------------------------------------------- commands

    method WatchCommand(c: Id, names: seq<string>) returns (ok: bool)
      requires Valid() && c in clients
      modifies this
      ensures Valid() && SameDbs(old(clients), clients) && (ok <==> !InMulti(old(log), c))
      ensures log == if ok then old(log) + WatchFacts(c, old(clients)[c].db, names) else old(log)
      ensures c in clients && clients == old(clients)[c := clients[c]]
      ensures Watches(old(clients)[c], clients[c], if ok then names else [])
    {
      hide Coherent, Faithful, Watches, Dbs, WatchFacts, Replay, InMulti;
      WatchesNone(clients[c], names[..0]);
      WatchFactsNone(c, clients[c].db, names[..0]);
      OneUpdated(clients, c, clients[c]);
      ClientFacts(clients, log, c);
      if clients[c].multi { WatchesNone(clients[c], []); return false; }
      ghost var was := clients;
      var j := 0;
      while j < |names|
        invariant 0 <= j <= |names| && Valid() && c in clients && SameDbs(was, clients)
        invariant clients == was[c := clients[c]] && Watches(was[c], clients[c], names[..j])
        invariant log == old(log) + WatchFacts(c, was[c].db, names[..j])
      {
        ghost var mid := clients;
        WatchesDb(was[c], mid[c], names[..j]);
        WatchForKey(c, names[j]);
        WatchFactsNext(c, was[c].db, names, j);
        WatchesNext(was[c], mid[c], clients[c], names, j);
        UpdatedTwice(was, mid, clients, c);
        j := j + 1;
      }
      assert names[..|names|] == names;
      return true;
    }

    method UnwatchCommand(c: Id)
      requires Valid() && c in clients
      modifies this
      ensures Valid() && log == old(log) + [Released(c)]
      ensures clients == old(clients)[c := old(clients)[c].(watched := [], dirtyCas := false)]
      ensures store == old(store)
    {
      hide Coherent, Faithful;
      ReplaySnoc(log, Released(c));
      UnwatchAllKeys(c);
      ReleasedStep(old(clients), index, c, log);
      clients := clients[c := clients[c].(dirtyCas := false)];
      assert clients == old(clients)[c := old(clients)[c].(watched := [], dirtyCas := false)];
      log := log + [Released(c)];
    }

    method MultiCommand(c: Id) returns (ok: bool)
      requires Valid() && c in clients
      modifies this
      ensures Valid() && SameDbs(old(clients), clients) && (ok <==> !InMulti(old(log), c))
      ensures log == if ok then old(log) + [Opened(c)] else old(log)
    {
      hide Coherent, Faithful;
      ClientFacts(clients, log, c);
      if clients[c].multi { return false; }
      OpenedStep(clients, index, c, log);
      DbsUpdated(clients, c, clients[c].(multi := true));
      ReplaySnoc(log, Opened(c));
      clients := clients[c := clients[c].(multi := true)];
      log := log + [Opened(c)];
      return true;
    }

    method FlagTransaction(c: Id)
      requires Valid() && c in clients
      modifies this
      ensures Valid() && SameDbs(old(clients), clients) && log == old(log) + [Refused(c)]
    {
      hide Coherent, Faithful;
      RefusedStep(clients, index, c, log);
      DbsUpdated(clients, c, clients[c].(dirtyExec := true));
      ReplaySnoc(log, Refused(c));
      log := log + [Refused(c)];
      if clients[c].multi {
        clients := clients[c := clients[c].(dirtyExec := true)];
      }
    }

    method QueueMultiCommand(c: Id, cmd: Command)
      requires Valid() && c in clients
      modifies this
      ensures Valid() && SameDbs(old(clients), clients) && log == old(log) + [Queued(c, cmd)]
    {
      hide Coherent, Faithful;
      QueuedStep(clients, index, c, log, cmd);
      DbsUpdated(clients, c, clients[c].(queue := clients[c].queue + [cmd]));
      ReplaySnoc(log, Queued(c, cmd));
      clients := clients[c := clients[c].(queue := clients[c].queue + [cmd])];
      log := log + [Queued(c, cmd)];
    }

    /** The flags are cleared and the queue emptied, and the watches are dropped. */
    method DiscardTransaction(c: Id)
      requires Valid() && c in clients
      modifies this
      ensures Valid() && log == old(log) + [Closed(c), Released(c)]
      ensures clients == old(clients)[c := Blank.(db := old(clients)[c].db)]
    {
      hide Coherent, Faithful;
      ClosedStep(clients, index, c, log);
      clients := clients[c := clients[c].(multi := false, dirtyExec := false, queue := [], dirtyCas := false)];
      UnwatchAllKeys(c);
      assert clients == old(clients)[c := Blank.(db := old(clients)[c].db)];
      log := log + [Closed(c), Released(c)];
    }

    method DiscardCommand(c: Id) returns (ok: bool)
      requires Valid() && c in clients
      modifies this
      ensures Valid() && SameDbs(old(clients), clients) && (ok <==> InMulti(old(log), c))
      ensures log == if ok then old(log) + [Closed(c), Released(c)] else old(log)
    {
      hide Coherent, Faithful;
      ClientFacts(clients, log, c);
      if !clients[c].multi { return false; }
      DbsUpdated(clients, c, Blank.(db := clients[c].db));
      DiscardTransaction(c);
      return true;
    }

    /** `freeClient`, as far as transactions go. */
    method FreeClient(c: Id)
      requires Valid() && c in clients
      modifies this
      ensures Valid() && clients == old(clients) - {c} && log == old(log) + [Closed(c), Released(c)]
    {
      DiscardTransaction(c);
      hide Matches, Coherent;
      ghost var was := clients;
      clients := clients - {c};
      ghost var blank := was[c := Blank];
      assert forall d :: At(clients, d) == At(blank, d);
      SameWatches(was, clients, index);
      SameFaith(was, clients, log);
    }

    /** A key changes, and is reported as modified. */
    method ChangeKey(key: Key, now: Option<Value>)
      requires Valid()
      modifies this
      ensures Valid() && log == old(log) + [Changed(key, now)] && SameButDirt(old(clients), clients)
      ensures store == if now.Some? then old(store)[key := now.value] else old(store) - {key}
    {
      hide Coherent, Faithful, Marked, SameButDirt;
      MarkedFollows(clients, index, log, Changed(key, now));
      MarkedSame(clients, Changed(key, now), store);
      ReplaySnoc(log, Changed(key, now));
      TouchWatchedKey(key, now);
      store := if now.Some? then store[key := now.value] else store - {key};
      log := log + [Changed(key, now)];
    }

    method ApplyChanges(db: nat, changes: seq<(string, Option<Value>)>)
      requires Valid()
      modifies this
      ensures Valid() && log == old(log) + ChangeFacts(db, changes) && SameButDirt(old(clients), clients)
      ensures Changes(changes, db, old(store), store)
    {
      hide Coherent, Faithful, Replay, Changes;
      NoChanges(changes[..0], db, store);
      var j := 0;
      assert changes[..0] == [];
      while j < |changes|
        invariant 0 <= j <= |changes| && Valid() && SameButDirt(old(clients), clients)
        invariant log == old(log) + ChangeFacts(db, changes[..j]) && Changes(changes[..j], db, old(store), store)
      {
        ChangeNext(changes, db, old(store), store, j);
        ChangeKey(Key(db, changes[j].0), changes[j].1);
        assert changes[..j + 1][..j] == changes[..j];
        j := j + 1;
      }
      assert changes[..|changes|] == changes;
    }

    /** The watches are touched before the data goes. */
    method Flush(db: Option<nat>)
      requires Valid()
      modifies this
      ensures Valid() && log == old(log) + [Flushed(db)] && SameButDirt(old(clients), clients)
      ensures forall k: Key :: if db == None || db.value == k.db then k !in store else SameAt(store, old(store), k)
    {
      hide Coherent, Faithful, Marked;
      MarkedFollows(clients, index, log, Flushed(db));
      MarkedSame(clients, Flushed(db), store);
      ReplaySnoc(log, Flushed(db));
      TouchWatchedKeysOnFlush(db);
      store := map k | k in store && !Covers(db, k) :: store[k];
      log := log + [Flushed(db)];
    }

    method SelectDb(c: Id, n: nat)
      requires Valid() && c in clients
      modifies this
      ensures Valid() && log == old(log) && clients == old(clients)[c := old(clients)[c].(db := n)]
      ensures store == old(store)
      ensures Dbs(clients) == Dbs(old(clients))[c := n]
    {
      hide Coherent, Matches;
      ghost var was := clients;
      DbsUpdated(clients, c, clients[c].(db := n));
      clients := clients[c := clients[c].(db := n)];
      SameWatches(was, clients, index);
      SameFaith(was, clients, log);
    }

    /** Executing one command. */
    method Call(c: Id, cmd: Command)
      requires Valid() && c in clients
      modifies this
      ensures Valid() && log == old(log) + Effect(c, old(clients)[c].db, cmd)
      ensures Runs(old(clients), clients, c, DbAfter(old(clients)[c].db, [cmd]))
      ensures Does(cmd, old(clients)[c].db, old(store), store)
      ensures c in clients && clients[c].db == if cmd.Select? then cmd.db else old(clients)[c].db
    {
      hide Coherent, Faithful, Changes, DbAfter, Runs, Replay, SameButDirt;
      ghost var was := clients;
      OneDb(clients[c].db, cmd);
      match cmd {
        case Select(n) =>
          RunsUpdated(was, c, was[c].(db := n));
          SelectDb(c, n);
        case Unwatch =>
          RunsUpdated(was, c, was[c].(watched := [], dirtyCas := false));
          UnwatchCommand(c);
        case FlushDb =>
          Flush(Some(clients[c].db));
          RunsButDirt(was, clients, c);
        case FlushAll =>
          Flush(None);
          RunsButDirt(was, clients, c);
        case Data(changes) =>
          ApplyChanges(clients[c].db, changes);
          RunsButDirt(was, clients, c);
      }
    }

    /** EXEC runs exactly the queued commands, one after the other, if and only if the client
        is in a transaction in which no command was refused and no key was touched after the
        client watched it; and then all the keys it watches have the values they had when it
        began to watch them. */
    method ExecCommand(c: Id) returns (r: ExecReply)
      requires Valid() && c in clients
      modifies this
      ensures Valid() && clients.Keys == old(clients.Keys)
      ensures Dbs(clients) == Dbs(old(clients))[c := if r.Ran? then DbAfter(old(clients)[c].db, r.cmds)
                                                else old(clients)[c].db]
      ensures r.NotInMulti? <==> !InMulti(old(log), c)
      ensures r.ExecAbort? <==> InMulti(old(log), c) && Failed(old(log), c)
      ensures r.Null? <==> InMulti(old(log), c) && !Failed(old(log), c) && Stale(old(log), c)
      ensures r.Ran? ==> r.cmds == Queue(old(log), c)
      ensures r.Ran? ==>
              log == old(log) + [Released(c)] + Effects(c, old(clients)[c].db, r.cmds) + [Closed(c), Released(c)]
      ensures r.ExecAbort? || r.Null? ==> log == old(log) + [Closed(c), Released(c)]
      ensures r.NotInMulti? ==> log == old(log)
      ensures r.Ran? ==> WatchedUnchanged(old(log), c)
    {
      hide Coherent, Faithful, Effect, Stale, InMulti, Failed, Queue, WatchedUnchanged, Replay;
      ClientFacts(clients, log, c);
      if !clients[c].multi { return NotInMulti; }
      if clients[c].dirtyCas || clients[c].dirtyExec {
        r := if clients[c].dirtyExec then ExecAbort else Null;
        DbsUpdated(clients, c, Blank.(db := clients[c].db));
        DiscardTransaction(c);
        return;
      }
      FreshKeepsAll(log, c);
      var q := clients[c].queue;
      DbsUpdated(clients, c, clients[c].(watched := []));
      DropWatches(c);
      RunQueue(c);
      DbsUpdated(clients, c, Blank.(db := clients[c].db));
      DiscardTransaction(c);
      return Ran(q);
    }

    /** The loop over the queue, with nothing between its commands. */
    method RunQueue(c: Id)
      requires Valid() && c in clients
      modifies this
      ensures Valid() && clients.Keys == old(clients.Keys)
      ensures Dbs(clients) == Dbs(old(clients))[c := DbAfter(old(clients)[c].db, old(clients)[c].queue)]
      ensures log == old(log) + Effects(c, old(clients)[c].db, old(clients)[c].queue)
    {
      hide Coherent, Faithful, Effect, Effects, DbAfter, Replay;
      var q, j := clients[c].queue, 0;
      NoEffects(c, clients[c].db, q[..0]);
      while j < |q|
        invariant 0 <= j <= |q| && Valid() && c in clients && clients[c].queue == q
        invariant clients.Keys == old(clients.Keys)
        invariant Dbs(clients) == Dbs(old(clients))[c := DbAfter(old(clients)[c].db, q[..j])]
        invariant log == old(log) + Effects(c, old(clients)[c].db, q[..j])
      {
        assert clients[c].db == Dbs(clients)[c];
        EffectsNext(c, old(clients)[c].db, q, j);
        Call(c, q[j]);
        j := j + 1;
      }
      assert q[..|q|] == q;
    }

    /** The early `unwatchAllKeys` of an EXEC that is going to run. */
    method DropWatches(c: Id)
      requires Valid() && c in clients && !clients[c].dirtyCas
      modifies this
      ensures Valid() && log == old(log) + [Released(c)]
              && clients == old(clients)[c := old(clients)[c].(watched := [])]
    {
      hide Coherent, Faithful;
      ReleasedStep(clients, index, c, log);
      ReplaySnoc(log, Released(c));
      UnwatchAllKeys(c);
      assert clients == old(clients)[c := old(clients)[c].(watched := [], dirtyCas := false)];
      log := log + [Released(c)];
    }

    /** A command other than EXEC, DISCARD, MULTI and WATCH, which the server accepts or not. */
    method ProcessCommand(c: Id, cmd: Command, accepted: bool)
      requires Valid() && c in clients
      modifies this
      ensures Valid() && clients.Keys == old(clients.Keys)
      ensures Dbs(clients) == Dbs(old(clients))[c := if accepted && !InMulti(old(log), c)
                                                     then DbAfter(old(clients)[c].db, [cmd])
                                                     else old(clients)[c].db]
      ensures log == old(log) + if !accepted then [Refused(c)]
                                else if InMulti(old(log), c) then [Queued(c, cmd)]
                                else Effect(c, old(clients)[c].db, cmd)
    {
      hide Coherent, Faithful;
      ClientFacts(clients, log, c);
      if !accepted {
        FlagTransaction(c);
      } else if clients[c].multi {
        QueueMultiCommand(c, cmd);
      } else {
        Call(c, cmd);
      }
    }

    ghost function Now(): Session
      reads this
    {
      Session(log, Dbs(clients))
    }

    method AnswerExec(c: Id) returns (r: ExecReply)
      requires Valid() && c in clients
      modifies this
      ensures Valid() && Now() == After(old(Now()), Exec(c)) && Executed(r) == ReplyTo(old(Now()), Exec(c))
    {
      hide Coherent, Faithful, After, ReplyTo, Effects, WatchFacts, Effect, DbAfter, WatchedUnchanged;
      hide InMulti, Failed, Stale, MultiLog.Queue;
      ExecSpec(Now(), c);
      r := ExecCommand(c);
      assert r == OutcomeOf(old(log), c);
    }

    method AnswerSend(c: Id, cmd: Command, accepted: bool)
      requires Valid() && c in clients
      modifies this
      ensures Valid() && Now() == After(old(Now()), Send(c, cmd, accepted))
    {
      hide Coherent, Faithful, After, ReplyTo, Effects, WatchFacts, Effect, DbAfter, WatchedUnchanged;
      hide InMulti, Failed, Stale, MultiLog.Queue;
      SendSpec(Now(), c, cmd, accepted);
      ProcessCommand(c, cmd, accepted);
    }

    method AnswerOpening(c: Id, names: Option<seq<string>>) returns (ok: bool)
      requires Valid() && c in clients
      modifies this
      ensures var q := if names.Some? then Watch(c, names.value) else BeginMulti(c);
              Valid() && Now() == After(old(Now()), q) && ReplyTo(old(Now()), q) == if ok then Done else Error
    {
      hide Coherent, Faithful, After, ReplyTo, Effects, WatchFacts, Effect, DbAfter, WatchedUnchanged;
      hide InMulti, Failed, Stale, MultiLog.Queue;
      if names.Some? {
        WatchSpec(Now(), c, names.value);
        ok := WatchCommand(c, names.value);
      } else {
        MultiSpec(Now(), c);
        ok := MultiCommand(c);
      }
    }

    method AnswerClosing(c: Id, leaves: bool) returns (ok: bool)
      requires Valid() && c in clients
      modifies this
      ensures var q := if leaves then Disconnect(c) else Discard(c);
              Valid() && Now() == After(old(Now()), q) && ReplyTo(old(Now()), q) == if ok then Done else Error
    {
      hide Coherent, Faithful, After, ReplyTo, Effects, WatchFacts, Effect, DbAfter, WatchedUnchanged;
      hide InMulti, Failed, Stale, MultiLog.Queue;
      if leaves {
        DisconnectSpec(Now(), c);
        DbsRemoved(clients, c);
        FreeClient(c);
        return true;
      }
      DiscardSpec(Now(), c);
      ok := DiscardCommand(c);
    }

    /** One request of one client. */
    method Answer(q: Request) returns (reply: Reply)
      requires Valid()
      modifies this
      ensures Valid() && Now() == After(old(Now()), q) && reply == ReplyTo(old(Now()), q)
    {
      hide Coherent, Faithful, After, ReplyTo;
      if q.Connect? {
        ConnectSpec(Now(), q.c);
        if q.c in clients { return Ignored; }
        DbsAdded(clients, q.c);
        NewClient(q.c);
        return Done;
      }
      if q.c !in clients {
        StrangerSpec(Now(), q);
        return Ignored;
      }
      var ok := true;
      match q {
        case Disconnect(c) => ok := AnswerClosing(c, true);
        case Watch(c, names) => ok := AnswerOpening(c, Some(names));
        case BeginMulti(c) => ok := AnswerOpening(c, None);
        case Exec(c) =>
          var r := AnswerExec(c);
          return Executed(r);
        case Discard(c) => ok := AnswerClosing(c, false);
        case Send(c, cmd, accepted) =>
          SendReply(Now(), c, cmd, accepted);
          AnswerSend(c, cmd, accepted);
          ok := accepted;
      }
      return if ok then Done else Error;
    }

    /** Any run of any number of clients: the log and every reply are those of the run that the
        requests describe. */
    method Serve(requests: seq<Request>) returns (replies: seq<Reply>)
      requires Valid()
      modifies this
      ensures Valid() && Now() == AfterAll(old(Now()), requests)
      ensures |replies| == |requests|
      ensures forall i :: 0 <= i < |requests| ==>
              replies[i] == ReplyTo(AfterAll(old(Now()), requests[..i]), requests[i])
    {
      hide Coherent, Matches, Faithful, After, ReplyTo;
      replies := [];
      assert requests[..0] == [];
      while |replies| < |requests|
        invariant |replies| <= |requests| && Valid() && Now() == AfterAll(old(Now()), requests[..|replies|])
        invariant forall i :: 0 <= i < |replies| ==>
                  replies[i] == ReplyTo(AfterAll(old(Now()), requests[..i]), requests[i])
        decreases |requests| - |replies|
      {
        var n := |replies|;
        var reply := Answer(requests[n]);
        assert requests[..n + 1][..n] == requests[..n];
        replies := replies + [reply];
      }
      assert requests[..|replies|] == requests;
    }
  }

  // ------------------------------------------------------------------------------ whole runs

  /** What has happened, and the selected database of each client that is connected. */
  datatype Session = Session(log: Log, dbs: map<Id, nat>)

  datatype Reply = Done | Error | Ignored | Executed(r: ExecReply)

  /** The same clients, each with the same selected database. */
  ghost predicate SameDbs(was: Clients, now: Clients) {
    was.Keys == now.Keys && Dbs(was) == Dbs(now)
  }

  function Dbs(clients: Clients): map<Id, nat> { map c | c in clients :: clients[c].db }

  /** The outcome of an EXEC, from what has happened. */
  ghost function OutcomeOf(log: Log, c: Id): ExecReply {
    if !InMulti(log, c) then NotInMulti
    else if Failed(log, c) then ExecAbort
    else if Stale(log, c) then Null
    else Ran(Queue(log, c))
  }

  ghost function ReplyTo(s: Session, q: Request): Reply {
    if q.Connect? then (if q.c in s.dbs then Ignored else Done)
    else if q.c !in s.dbs then Ignored
    else match q
      case Watch(c, _) => if InMulti(s.log, c) then Error else Done
      case BeginMulti(c) => if InMulti(s.log, c) then Error else Done
      case Exec(c) => Executed(OutcomeOf(s.log, c))
      case Discard(c) => if InMulti(s.log, c) then Done else Error
      case Send(_, _, accepted) => if accepted then Done else Error
      case _ => Done
  }

  ghost function After(s: Session, q: Request): Session {
    if q.Connect? then (if q.c in s.dbs then s else s.(dbs := s.dbs[q.c := 0]))
    else if q.c !in s.dbs then s
    else
      var db := s.dbs[q.c];
      match q
      case Connect(_) => s
      case Disconnect(c) => Session(s.log + [Closed(c), Released(c)], s.dbs - {c})
      case Watch(c, names) => if InMulti(s.log, c) then s else s.(log := s.log + WatchFacts(c, db, names))
      case BeginMulti(c) => if InMulti(s.log, c) then s else s.(log := s.log + [Opened(c)])
      case Exec(c) =>
        (match OutcomeOf(s.log, c)
         case NotInMulti => s
         case Ran(cmds) => Session(s.log + [Released(c)] + Effects(c, db, cmds) + [Closed(c), Released(c)],
                                   s.dbs[c := DbAfter(db, cmds)])
         case _ => s.(log := s.log + [Closed(c), Released(c)]))
      case Discard(c) => if InMulti(s.log, c) then s.(log := s.log + [Closed(c), Released(c)]) else s
      case Send(c, cmd, accepted) =>
        if !accepted then s.(log := s.log + [Refused(c)])
        else if InMulti(s.log, c) then s.(log := s.log + [Queued(c, cmd)])
        else Session(s.log + Effect(c, db, cmd), s.dbs[c := DbAfter(db, [cmd])])
  }

  lemma ConnectSpec(s: Session, c: Id)
    ensures After(s, Connect(c)) == if c in s.dbs then s else s.(dbs := s.dbs[c := 0])
    ensures ReplyTo(s, Connect(c)) == if c in s.dbs then Ignored else Done
  {
  }

  lemma StrangerSpec(s: Session, q: Request)
    requires !q.Connect? && q.c !in s.dbs
    ensures After(s, q) == s && ReplyTo(s, q) == Ignored
  {
  }

  lemma DisconnectSpec(s: Session, c: Id)
    requires c in s.dbs
    ensures After(s, Disconnect(c)) == Session(s.log + [Closed(c), Released(c)], s.dbs - {c})
            && ReplyTo(s, Disconnect(c)) == Done
  {
  }

  lemma WatchSpec(s: Session, c: Id, names: seq<string>)
    requires c in s.dbs
    ensures After(s, Watch(c, names))
            == if InMulti(s.log, c) then s else s.(log := s.log + WatchFacts(c, s.dbs[c], names))
    ensures ReplyTo(s, Watch(c, names)) == if InMulti(s.log, c) then Error else Done
  {
  }

  lemma MultiSpec(s: Session, c: Id)
    requires c in s.dbs
    ensures After(s, BeginMulti(c)) == if InMulti(s.log, c) then s else s.(log := s.log + [Opened(c)])
    ensures ReplyTo(s, BeginMulti(c)) == if InMulti(s.log, c) then Error else Done
  {
  }

  lemma ExecSpec(s: Session, c: Id)
    requires c in s.dbs
    ensures ReplyTo(s, Exec(c)) == Executed(OutcomeOf(s.log, c))
    ensures var r := OutcomeOf(s.log, c); var t := After(s, Exec(c));
            && (r.NotInMulti? ==> t == s)
            && (r.ExecAbort? || r.Null? ==> t == s.(log := s.log + [Closed(c), Released(c)]))
            && (r.Ran? ==> t == Session(s.log + [Released(c)] + Effects(c, s.dbs[c], r.cmds) + [Closed(c), Released(c)],
                                        s.dbs[c := DbAfter(s.dbs[c], r.cmds)]))
  {
  }

  lemma DiscardSpec(s: Session, c: Id)
    requires c in s.dbs
    ensures After(s, Discard(c)) == if InMulti(s.log, c) then s.(log := s.log + [Closed(c), Released(c)]) else s
    ensures ReplyTo(s, Discard(c)) == if InMulti(s.log, c) then Done else Error
  {
  }

  lemma SendSpec(s: Session, c: Id, cmd: Command, accepted: bool)
    requires c in s.dbs
    ensures var t := After(s, Send(c, cmd, accepted));
            if !accepted then t == s.(log := s.log + [Refused(c)])
            else if InMulti(s.log, c) then t == s.(log := s.log + [Queued(c, cmd)])
            else t == Session(s.log + Effect(c, s.dbs[c], cmd), s.dbs[c := DbAfter(s.dbs[c], [cmd])])
  {
  }

  lemma SendReply(s: Session, c: Id, cmd: Command, accepted: bool)
    requires c in s.dbs
    ensures ReplyTo(s, Send(c, cmd, accepted)) == if accepted then Done else Error
  {
  }

  ghost function AfterAll(s: Session, qs: seq<Request>): Session {
    if qs == [] then s else After(AfterAll(s, qs[..|qs| - 1]), qs[|qs| - 1])
  }

  lemma DbsUpdated(clients: Clients, c: Id, cl: Client)
    requires c in clients
    ensures Dbs(clients[c := cl]) == Dbs(clients)[c := cl.db]
    ensures cl.db == clients[c].db ==> Dbs(clients[c := cl]) == Dbs(clients)
    ensures Dbs(clients).Keys == clients.Keys
  {
  }

  /** The running transaction of `c` goes on, in database `db`. */
  ghost predicate Runs(was: Clients, now: Clients, c: Id, db: nat)
    requires c in was
  {
    && was.Keys == now.Keys && Dbs(now) == Dbs(was)[c := db]
    && now[c].db == db && now[c].multi == was[c].multi && now[c].queue == was[c].queue
  }

  lemma RunsUpdated(was: Clients, c: Id, cl: Client)
    requires c in was && cl.multi == was[c].multi && cl.queue == was[c].queue
    ensures Runs(was, was[c := cl], c, cl.db)
  {
    DbsUpdated(was, c, cl);
  }

  lemma RunsButDirt(was: Clients, now: Clients, c: Id)
    requires SameButDirt(was, now) && c in was
    ensures Runs(was, now, c, was[c].db)
  {
    DbsButDirt(was, now);
  }

  lemma DbsAdded(clients: Clients, c: Id)
    ensures Dbs(clients[c := Blank]) == Dbs(clients)[c := 0]
  {
  }

  lemma DbsRemoved(clients: Clients, c: Id)
    ensures Dbs(clients - {c}) == Dbs(clients) - {c}
  {
  }

  lemma DbsButDirt(was: Clients, now: Clients)
    requires SameButDirt(was, now)
    ensures Dbs(was) == Dbs(now)
  {
  }

  /** The same clients, but for dirty marks. */
  ghost predicate SameButDirt(was: Clients, now: Clients) {
    was.Keys == now.Keys && forall c <- was :: now[c] == was[c].(dirtyCas := now[c].dirtyCas)
  }

  lemma MarkedSame(clients: Clients, f: Fact, store: map<Key, Value>)
    ensures SameButDirt(clients, Marked(clients, f, store))
  {
  }

  /** The log says nothing about the selected database. */
  lemma SameFaith(was: Clients, now: Clients, log: Log)
    requires Faithful(was, log) && forall c :: At(now, c) == At(was, c).(db := At(now, c).db)
    ensures Faithful(now, log)
  {
    forall c ensures Matches(At(now, c), c, log) { assert Matches(At(was, c), c, log); }
  }
}
