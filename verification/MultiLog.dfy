/** What WATCH, MULTI and EXEC promise, said about the log of everything that happened. */
module MultiLog {
  import opened Options

  type Id = nat
  type Value = string

  /** A key of one of the databases. */
  datatype Key = Key(db: nat, name: string)

  /** Commands that may stand in a queue.  A data command is given by the keys it changes, in
      the order in which it reports them as modified, with their new values. */
  datatype Command =
    | Select(db: nat)
    | Unwatch
    | FlushDb
    | FlushAll
    | Data(changes: seq<(string, Option<Value>)>)

  datatype Fact =
    | Watched(c: Id, key: Key)
    | Released(c: Id)                           // every watch of the client is over
    | Opened(c: Id)                             // MULTI
    | Queued(c: Id, cmd: Command)
    | Refused(c: Id)                            // a command that was not accepted
    | Closed(c: Id)                             // the transaction is over
    | Changed(key: Key, now: Option<Value>)
    | Flushed(db: Option<nat>)                  // one database, or all of them

  type Log = seq<Fact>

  predicate Covers(db: Option<nat>, key: Key) { db == None || db == Some(key.db) }

  // ------------------------------------------------------------------------------- the data

  function Apply(store: map<Key, Value>, f: Fact): map<Key, Value> {
    match f
    case Changed(k, Some(v)) => store[k := v]
    case Changed(k, None) => store - {k}
    case Flushed(db) => map k | k in store && !Covers(db, k) :: store[k]
    case _ => store
  }

  /** The data after everything in the log. */
  function Replay(log: Log): map<Key, Value> {
    if log == [] then map[] else Apply(Replay(log[..|log| - 1]), log[|log| - 1])
  }

  /** The key holds the value, or is missing. */
  predicate Holds(store: map<Key, Value>, k: Key, v: Option<Value>) {
    if v.Some? then k in store && store[k] == v.value else k !in store
  }

  /** The key is missing from both, or holds the same value. */
  predicate SameAt(a: map<Key, Value>, b: map<Key, Value>, k: Key) {
    (k in a <==> k in b) && (k in a ==> a[k] == b[k])
  }

  /** What an event does to a key: a change sets or removes that key alone; a flush removes the
      keys of its database, or all of them, and no others. */
  lemma ApplyMeans(store: map<Key, Value>, f: Fact, k: Key)
    ensures f.Changed? ==> if f.key == k then Holds(Apply(store, f), k, f.now) else SameAt(Apply(store, f), store, k)
    ensures f.Flushed? ==> if f.db == None || f.db.value == k.db then k !in Apply(store, f)
                           else SameAt(Apply(store, f), store, k)
    ensures !f.Changed? && !f.Flushed? ==> Apply(store, f) == store
  {
  }

  lemma ReplaySnoc(log: Log, f: Fact)
    ensures Replay(log + [f]) == Apply(Replay(log), f)
  {
    assert (log + [f])[..|log|] == log;
  }

  /** Event `j` touches the key: it changes it, or flushes it while it exists. */
  predicate Touches(log: Log, j: nat, k: Key)
    requires j < |log|
  {
    && (log[j].Changed? ==> log[j].key == k)
    && (log[j].Flushed? ==> Covers(log[j].db, k) && k in Replay(log[..j]))
    && (log[j].Changed? || log[j].Flushed?)
  }

  // --------------------------------------------------------------------- watches in the log

  predicate NoneAfter(log: Log, i: int, f: Fact) { forall k :: i < k < |log| && 0 <= k ==> log[k] != f }

  /** Event `i` put a watch on the key that still stands. */
  predicate Stands(log: Log, c: Id, k: Key, i: nat) {
    i < |log| && log[i] == Watched(c, k) && NoneAfter(log, i, Released(c))
  }

  ghost predicate Watching(log: Log, c: Id, k: Key) { exists i: nat :: Stands(log, c, k, i) }

  /** A key was touched after the client watched it, and the watch still stands. */
  ghost predicate Stale(log: Log, c: Id) {
    exists k, i: nat, j: nat :: Stands(log, c, k, i) && i < j < |log| && Touches(log, j, k)
  }

  // --------------------------------------------------------------- transactions in the log

  predicate OpenSince(log: Log, c: Id, i: nat) {
    i < |log| && log[i] == Opened(c) && NoneAfter(log, i, Closed(c))
  }

  ghost predicate InMulti(log: Log, c: Id) { exists i: nat :: OpenSince(log, c, i) }

  /** A command was refused inside the transaction. */
  ghost predicate Failed(log: Log, c: Id) {
    exists i: nat, j: nat :: OpenSince(log, c, i) && i < j < |log| && log[j] == Refused(c)
  }

  /** The commands queued since the last transaction of the client was over. */
  function Queue(log: Log, c: Id): seq<Command> {
    if log == [] then [] else
    var rest := Queue(log[..|log| - 1], c);
    match log[|log| - 1]
    case Queued(d, cmd) => if d == c then rest + [cmd] else rest
    case Closed(d) => if d == c then [] else rest
    case _ => rest
  }

  // --------------------------------------------------------------------- one more event

  lemma NoneAfterSnoc(log: Log, i: int, f: Fact, g: Fact)
    requires i < |log|
    ensures NoneAfter(log + [g], i, f) <==> NoneAfter(log, i, f) && g != f
  {
    var more := log + [g];
    assert more[|log|] == g;
    if NoneAfter(more, i, f) {
      forall k | i < k < |log| && 0 <= k ensures log[k] != f { assert more[k] == log[k]; }
    }
  }

  lemma StandsSnoc(log: Log, f: Fact, c: Id, k: Key, i: nat)
    ensures Stands(log + [f], c, k, i) <==> if i < |log| then Stands(log, c, k, i) && f != Released(c)
            else i == |log| && f == Watched(c, k)
  {
    if i < |log| { NoneAfterSnoc(log, i, Released(c), f); }
  }

  lemma WatchingSnoc(log: Log, f: Fact, c: Id, k: Key)
    ensures Watching(log + [f], c, k) <==> f == Watched(c, k) || (Watching(log, c, k) && f != Released(c))
  {
    StandsSnoc(log, f, c, k, |log|);
    if Watching(log, c, k) && f != Released(c) {
      var i: nat :| Stands(log, c, k, i);
      StandsSnoc(log, f, c, k, i);
    }
    if Watching(log + [f], c, k) {
      var i: nat :| Stands(log + [f], c, k, i);
      StandsSnoc(log, f, c, k, i);
    }
  }

  /** Whether an event touches a key depends on nothing after it. */
  lemma TouchesSnoc(log: Log, f: Fact, j: nat, k: Key)
    requires j < |log|
    ensures Touches(log + [f], j, k) <==> Touches(log, j, k)
  {
    assert (log + [f])[..j] == log[..j];
  }

  /** The last event touches a watched key. */
  ghost predicate Hits(log: Log, f: Fact, c: Id) {
    exists k :: Watching(log, c, k) && Touches(log + [f], |log|, k)
  }

  lemma StaleSnoc(log: Log, f: Fact, c: Id)
    ensures Stale(log + [f], c) <==> f != Released(c) && (Stale(log, c) || Hits(log, f, c))
  {
    hide Touches;
    var more := log + [f];
    if Stale(more, c) {
      var k, i: nat, j: nat :| Stands(more, c, k, i) && i < j < |more| && Touches(more, j, k);
      StandsSnoc(log, f, c, k, i);
      if j < |log| { TouchesSnoc(log, f, j, k); }
    }
    if f != Released(c) && Stale(log, c) {
      var k, i: nat, j: nat :| Stands(log, c, k, i) && i < j < |log| && Touches(log, j, k);
      StandsSnoc(log, f, c, k, i);
      TouchesSnoc(log, f, j, k);
    }
    if f != Released(c) && Hits(log, f, c) {
      var k :| Watching(log, c, k) && Touches(more, |log|, k);
      var i: nat :| Stands(log, c, k, i);
      StandsSnoc(log, f, c, k, i);
    }
  }

  lemma OpenSnoc(log: Log, f: Fact, c: Id, i: nat)
    ensures OpenSince(log + [f], c, i) <==> if i < |log| then OpenSince(log, c, i) && f != Closed(c)
            else i == |log| && f == Opened(c)
  {
    if i < |log| { NoneAfterSnoc(log, i, Closed(c), f); }
  }

  lemma InMultiSnoc(log: Log, f: Fact, c: Id)
    ensures InMulti(log + [f], c) <==> f == Opened(c) || (InMulti(log, c) && f != Closed(c))
  {
    OpenSnoc(log, f, c, |log|);
    if InMulti(log, c) && f != Closed(c) {
      var i: nat :| OpenSince(log, c, i);
      OpenSnoc(log, f, c, i);
    }
    if InMulti(log + [f], c) {
      var i: nat :| OpenSince(log + [f], c, i);
      OpenSnoc(log, f, c, i);
    }
  }

  lemma FailedSnoc(log: Log, f: Fact, c: Id)
    ensures Failed(log + [f], c) <==> f != Closed(c) && (Failed(log, c) || (InMulti(log, c) && f == Refused(c)))
  {
    var more := log + [f];
    if Failed(more, c) {
      var i: nat, j: nat :| OpenSince(more, c, i) && i < j < |more| && more[j] == Refused(c);
      OpenSnoc(log, f, c, i);
    }
    if f != Closed(c) && Failed(log, c) {
      var i: nat, j: nat :| OpenSince(log, c, i) && i < j < |log| && log[j] == Refused(c);
      OpenSnoc(log, f, c, i);
      assert more[j] == Refused(c);
    }
    if InMulti(log, c) && f == Refused(c) {
      var i: nat :| OpenSince(log, c, i);
      OpenSnoc(log, f, c, i);
      assert more[|log|] == Refused(c);
    }
  }

  lemma QueueSnoc(log: Log, f: Fact, c: Id)
    ensures Queue(log + [f], c) == if f == Closed(c) then []
            else if f.Queued? && f.c == c then Queue(log, c) + [f.cmd] else Queue(log, c)
  {
    assert (log + [f])[..|log|] == log;
  }

  // ------------------------------------------------------------------------ compare and set

  /** A key that no event touches keeps its value. */
  lemma {:induction false} Untouched(log: Log, i: nat, n: nat, k: Key)
    requires i < n <= |log| && forall j: nat :: i < j < n ==> !Touches(log, j, k)
    requires !log[i].Changed? && !log[i].Flushed?
    ensures SameAt(Replay(log[..n]), Replay(log[..i]), k)
  {
    var head := log[..n - 1];
    assert log[..n] == head + [log[n - 1]];
    ReplaySnoc(head, log[n - 1]);
    if i < n - 1 {
      Untouched(log, i, n - 1, k);
      assert !Touches(log, n - 1, k);
    }
  }

  /** If a client's transaction is not stale, every key it watches has the value it had when
      the watch was placed. */
  lemma FreshMeansUnchanged(log: Log, c: Id, k: Key, i: nat)
    requires !Stale(log, c) && Stands(log, c, k, i)
    ensures SameAt(Replay(log), Replay(log[..i]), k)
  {
    assert log[..|log|] == log;
    Untouched(log, i, |log|, k);
  }

  /** All keys that the client watches have the values they had when it began to watch them. */
  ghost predicate WatchedUnchanged(log: Log, c: Id) {
    forall k, i: nat :: Stands(log, c, k, i) ==> SameAt(Replay(log), Replay(log[..i]), k)
  }

  lemma FreshKeepsAll(log: Log, c: Id)
    requires !Stale(log, c)
    ensures WatchedUnchanged(log, c)
  {
    hide Stale, Replay;
    forall k, i: nat | Stands(log, c, k, i) ensures SameAt(Replay(log), Replay(log[..i]), k) {
      FreshMeansUnchanged(log, c, k, i);
    }
  }
}
