/** The event-port back end of the event loop.  The kernel forgets a descriptor when it reports
    an event for it, so the back end keeps the reported ones in a table until the next poll. */
module EventPort {

  datatype Mask = Mask(readable: bool, writable: bool) {
    function Or(m: Mask): Mask { Mask(readable || m.readable, writable || m.writable) }
    function And(m: Mask): Mask { Mask(readable && m.readable, writable && m.writable) }
    function Minus(m: Mask): Mask { Mask(readable && !m.readable, writable && !m.writable) }
  }

  const None: Mask := Mask(false, false)
  const MaxBatch: nat := 512

  /** The event loop's mask for each descriptor; the pending table (-1 for a deleted entry); the
      kernel's associations. */
  datatype State = State(events: seq<Mask>, fds: seq<int>, masks: seq<Mask>, kernel: map<int, Mask>)

  predicate Registered(s: State, fd: int) { 0 <= fd < |s.events| && s.events[fd] != None }

  /** Each registered descriptor is in exactly one of the kernel and the pending table, once,
      with exactly the event loop's mask; no other descriptor is in either. */
  ghost predicate Exclusive(s: State) {
    && |s.fds| == |s.masks|
    && (forall i, j :: 0 <= i < j < |s.fds| && s.fds[i] == s.fds[j] ==> s.fds[i] == -1)
    && (forall i :: 0 <= i < |s.fds| && s.fds[i] != -1 ==>
          Registered(s, s.fds[i]) && s.masks[i] == s.events[s.fds[i]] && s.fds[i] !in s.kernel)
    && (forall fd <- s.kernel :: Registered(s, fd) && s.kernel[fd] == s.events[fd])
    && (forall fd :: Registered(s, fd) ==> fd in s.kernel || fd in s.fds)
  }

  function Find(fds: seq<int>, fd: int): (i: int)
    ensures i == -1 <==> fd !in fds
    ensures i != -1 ==> 0 <= i < |fds| && fds[i] == fd && fd !in fds[..i]
  {
    if fds == [] then -1
    else if fds[0] == fd then 0
    else
      assert fds == [fds[0]] + fds[1..];
      var i := Find(fds[1..], fd);
      if i == -1 then -1 else assert fds[..i + 1] == [fds[0]] + fds[1..][..i]; i + 1
  }

  // ------------------------------------------------------------------------ add an event

  /** `aeCreateFileEvent`; `ok` says whether the kernel accepts the association. */
  function AddEvent(s: State, fd: nat, mask: Mask, ok: bool): State
    requires |s.fds| == |s.masks|
  {
    if fd >= |s.events| then s else
    var full := mask.Or(s.events[fd]);
    var i := Find(s.fds, fd);
    if i != -1 then s.(masks := s.masks[i := s.masks[i].Or(full)], events := s.events[fd := full])
    else if ok then s.(kernel := s.kernel[fd := full], events := s.events[fd := full])
    else s
  }

  /** Adding keeps the two tables exclusive unless it adds nothing to a descriptor that is not
      registered: then the kernel gets a descriptor that the event loop does not know. */
  lemma AddIff(s: State, fd: nat, mask: Mask, ok: bool)
    requires Exclusive(s)
    ensures Exclusive(AddEvent(s, fd, mask, ok)) <==> fd >= |s.events| || !ok || mask != None || Registered(s, fd)
  {
    var t := AddEvent(s, fd, mask, ok);
    if fd < |s.events| && ok && mask == None && !Registered(s, fd) {
      assert Find(s.fds, fd) == -1 && fd in t.kernel && !Registered(t, fd);
    } else if t != s {
      var i := Find(s.fds, fd);
      assert forall x :: x != fd ==> (Registered(t, x) <==> Registered(s, x));
      assert t.fds == s.fds;
      forall j | 0 <= j < |t.fds| && t.fds[j] != -1
        ensures Registered(t, t.fds[j]) && t.masks[j] == t.events[t.fds[j]] && t.fds[j] !in t.kernel
      {
        assert Registered(s, s.fds[j]) && s.fds[j] !in s.kernel;
      }
    }
  }

  // ---------------------------------------------------------------------- delete an event

  /** `aeApiDelEvent`, which reads the event loop's mask. */
  function ApiDelEvent(s: State, fd: nat, mask: Mask): State
    requires |s.fds| == |s.masks| && fd < |s.events|
  {
    var i := Find(s.fds, fd);
    if i != -1 then
      var left := s.masks[i].Minus(mask);
      s.(masks := s.masks[i := left], fds := if left == None then s.fds[i := -1] else s.fds)
    else if s.events[fd] == None then s.(kernel := s.kernel - {fd})
    else s.(kernel := s.kernel[fd := s.events[fd]])
  }

  /** `aeDeleteFileEvent`: the mask is updated after the back end was called. */
  function DeleteEvent(s: State, fd: nat, mask: Mask): State
    requires |s.fds| == |s.masks|
  {
    if !Registered(s, fd) then s
    else ApiDelEvent(s, fd, mask).(events := s.events[fd := s.events[fd].Minus(mask)])
  }

  /** The order that the back end relies on: the mask is updated first. */
  function DeleteUpdatedFirst(s: State, fd: nat, mask: Mask): State
    requires |s.fds| == |s.masks|
  {
    if !Registered(s, fd) then s
    else ApiDelEvent(s.(events := s.events[fd := s.events[fd].Minus(mask)]), fd, mask)
  }

  lemma DeletePending(s: State, fd: nat, mask: Mask)
    requires Exclusive(s) && Registered(s, fd) && fd in s.fds
    ensures DeleteEvent(s, fd, mask) == DeleteUpdatedFirst(s, fd, mask)
    ensures Exclusive(DeleteEvent(s, fd, mask))
  {
    var t, i := DeleteEvent(s, fd, mask), Find(s.fds, fd);
    assert forall x :: x != fd ==> (Registered(t, x) <==> Registered(s, x));
    assert s.masks[i] == s.events[fd];
    forall x | Registered(t, x) ensures x in t.kernel || x in t.fds {
      assert Registered(s, x);
      if x !in s.kernel {
        var j := Find(s.fds, x);
        assert t.fds[j] == x;
      }
    }
  }

  lemma DeleteAssociated(s: State, fd: nat, mask: Mask)
    requires Exclusive(s) && Registered(s, fd) && fd !in s.fds
    ensures fd in s.kernel && Exclusive(DeleteUpdatedFirst(s, fd, mask))
  {
    var t := DeleteUpdatedFirst(s, fd, mask);
    assert forall x :: x != fd ==> (Registered(t, x) <==> Registered(s, x));
  }

  /** With the mask updated first, deleting always keeps the tables exclusive, and the kernel is
      asked to dissociate only what it has. */
  lemma DeleteUpdatedFirstKeeps(s: State, fd: nat, mask: Mask)
    requires Exclusive(s)
    ensures Exclusive(DeleteUpdatedFirst(s, fd, mask))
    ensures Registered(s, fd) && fd !in s.fds ==> fd in s.kernel
  {
    if Registered(s, fd) {
      if fd in s.fds { DeletePending(s, fd, mask); } else { DeleteAssociated(s, fd, mask); }
    }
  }

  /** As `aeDeleteFileEvent` does it, a descriptor in the kernel's table stays there with its
      old mask: the tables remain exclusive exactly when the descriptor is pending or none of
      its events is deleted. */
  lemma DeleteIff(s: State, fd: nat, mask: Mask)
    requires Exclusive(s)
    ensures Exclusive(DeleteEvent(s, fd, mask)) <==> fd >= |s.events| || fd in s.fds || s.events[fd].And(mask) == None
    ensures fd !in s.fds ==> DeleteEvent(s, fd, mask).kernel == s.kernel
  {
    if Registered(s, fd) {
      if fd in s.fds {
        DeletePending(s, fd, mask);
      } else {
        var t := DeleteEvent(s, fd, mask);
        assert t.kernel == s.kernel && fd in t.kernel;
        assert s.events[fd].And(mask) == None ==> t == s;
        assert s.events[fd].And(mask) != None ==> t.kernel[fd] != t.events[fd];
      }
    }
  }

  /** The smallest instance: the last event of an associated descriptor is deleted, and the
      kernel goes on watching it. */
  lemma DeleteLeavesAssociation()
    ensures var read := Mask(true, false);
            var s := State([read], [], [], map[0 := read]);
            Exclusive(s) && DeleteEvent(s, 0, read) == s.(events := [None]) && !Exclusive(DeleteEvent(s, 0, read))
  {
    var read := Mask(true, false);
    var s := State([read], [], [], map[0 := read]);
    assert !Registered(DeleteEvent(s, 0, read), 0);
  }

  // --------------------------------------------------------------------------------- poll

  /** The pending entries go back to the kernel. */
  function Restored(fds: seq<int>, masks: seq<Mask>, kernel: map<int, Mask>): map<int, Mask>
    requires |fds| == |masks|
  {
    if fds == [] then kernel else
    var n := |fds| - 1;
    var rest := Restored(fds[..n], masks[..n], kernel);
    if fds[n] == -1 then rest else rest[fds[n] := masks[n]]
  }

  lemma {:induction false} RestoredAt(fds: seq<int>, masks: seq<Mask>, kernel: map<int, Mask>, events: seq<Mask>,
                                      fd: int)
    requires |fds| == |masks|
    requires forall i :: 0 <= i < |fds| && fds[i] != -1 ==> 0 <= fds[i] < |events| && masks[i] == events[fds[i]]
    ensures fd in Restored(fds, masks, kernel) <==> fd in kernel || (fd != -1 && fd in fds)
    ensures fd != -1 && fd in fds ==> 0 <= fd < |events| && Restored(fds, masks, kernel)[fd] == events[fd]
    ensures fd in kernel && fd !in fds ==> Restored(fds, masks, kernel)[fd] == kernel[fd]
  {
    if fds != [] {
      var n := |fds| - 1;
      assert fds == fds[..n] + [fds[n]];
      RestoredAt(fds[..n], masks[..n], kernel, events, fd);
    }
  }

  /** The kernel may report any of the descriptors it then has, each once. */
  predicate Choice(s: State, ready: seq<int>)
    requires |s.fds| == |s.masks|
  {
    && |ready| <= MaxBatch
    && (forall i, j :: 0 <= i < j < |ready| ==> ready[i] != ready[j])
    && (forall i :: 0 <= i < |ready| ==> ready[i] in Restored(s.fds, s.masks, s.kernel))
  }

  function Poll(s: State, ready: seq<int>): State
    requires |s.fds| == |s.masks| && Choice(s, ready)
  {
    var all := Restored(s.fds, s.masks, s.kernel);
    State(s.events, ready, seq(|ready|, i requires 0 <= i < |ready| && ready[i] in all => all[ready[i]]),
          map fd | fd in all && fd !in ready :: all[fd])
  }

  lemma PollKeeps(s: State, ready: seq<int>)
    requires Exclusive(s) && Choice(s, ready)
    ensures Exclusive(Poll(s, ready))
  {
    var all, t := Restored(s.fds, s.masks, s.kernel), Poll(s, ready);
    hide Restored;
    forall fd ensures fd in all <==> Registered(s, fd)
              ensures fd in all ==> all[fd] == s.events[fd] {
      RestoredAt(s.fds, s.masks, s.kernel, s.events, fd);
      if fd in s.fds && fd != -1 { var i :| 0 <= i < |s.fds| && s.fds[i] == fd; }
    }
    assert forall fd :: Registered(t, fd) <==> Registered(s, fd);
  }

  // ----------------------------------------------------------------------------- all runs

  datatype Op =
    | Add(fd: nat, mask: Mask, ok: bool)
    | Delete(fd: nat, mask: Mask)
    | PollFor(ready: seq<int>)

  function Step(s: State, op: Op, updatedFirst: bool): State
    requires |s.fds| == |s.masks|
  {
    match op
    case Add(fd, mask, ok) => AddEvent(s, fd, mask, ok)
    case Delete(fd, mask) => if updatedFirst then DeleteUpdatedFirst(s, fd, mask) else DeleteEvent(s, fd, mask)
    case PollFor(ready) => if Choice(s, ready) then Poll(s, ready) else s
  }

  /** What the caller has to see to. */
  predicate Guard(s: State, op: Op, updatedFirst: bool) {
    match op
    case Add(fd, mask, ok) => fd >= |s.events| || !ok || mask != None || Registered(s, fd)
    case Delete(fd, mask) => updatedFirst || fd >= |s.events| || fd in s.fds || s.events[fd].And(mask) == None
    case PollFor(_) => true
  }

  lemma StepLengths(s: State, op: Op, updatedFirst: bool)
    requires |s.fds| == |s.masks|
    ensures var t := Step(s, op, updatedFirst); |t.fds| == |t.masks|
  {
  }

  lemma StepIff(s: State, op: Op, updatedFirst: bool)
    requires Exclusive(s)
    ensures Exclusive(Step(s, op, updatedFirst)) <==> Guard(s, op, updatedFirst)
  {
    assert |s.fds| == |s.masks|;
    hide Exclusive, AddEvent, DeleteEvent, DeleteUpdatedFirst, Poll;
    match op
    case Add(fd, mask, ok) => AddIff(s, fd, mask, ok);
    case Delete(fd, mask) => if updatedFirst { DeleteUpdatedFirstKeeps(s, fd, mask); } else { DeleteIff(s, fd, mask); }
    case PollFor(ready) => if Choice(s, ready) { PollKeeps(s, ready); }
  }

  ghost predicate ExclusiveThroughout(s: State, ops: seq<Op>, updatedFirst: bool)
    decreases |ops|
  {
    Exclusive(s) && (ops == [] || ExclusiveThroughout(Step(s, ops[0], updatedFirst), ops[1..], updatedFirst))
  }

  ghost predicate GuardedThroughout(s: State, ops: seq<Op>, updatedFirst: bool)
    requires |s.fds| == |s.masks|
    decreases |ops|
  {
    StepLengths(s, if ops == [] then PollFor([]) else ops[0], updatedFirst);
    || ops == []
    || (Guard(s, ops[0], updatedFirst)
        && GuardedThroughout(Step(s, ops[0], updatedFirst), ops[1..], updatedFirst))
  }

  /** Over any run the tables are exclusive after every step if and only if every step met its
      guard; if the caller updates the mask first, a delete always does. */
  lemma {:induction false} RunIff(s: State, ops: seq<Op>, updatedFirst: bool)
    requires Exclusive(s)
    ensures ExclusiveThroughout(s, ops, updatedFirst) <==> GuardedThroughout(s, ops, updatedFirst)
    decreases |ops|
  {
    if ops != [] {
      StepIff(s, ops[0], updatedFirst);
      hide Exclusive, Step, Guard;
      var t := Step(s, ops[0], updatedFirst);
      StepLengths(s, ops[0], updatedFirst);
      if Guard(s, ops[0], updatedFirst) {
        RunIff(t, ops[1..], updatedFirst);
      } else {
        NotThroughout(t, ops[1..], updatedFirst);
      }
    }
  }

  lemma NotThroughout(s: State, ops: seq<Op>, updatedFirst: bool)
    ensures ExclusiveThroughout(s, ops, updatedFirst) ==> Exclusive(s)
  {
  }

  // ------------------------------------------------------------------------- the back end

  class Port {
    const events: array<Mask>
    const pendingFds: array<int>
    const pendingMasks: array<Mask>
    var npending: nat
    var kernel: map<int, Mask>

    ghost predicate Valid() reads this {
      && pendingFds.Length == pendingMasks.Length == MaxBatch && npending <= MaxBatch
      && events != pendingMasks
    }

    ghost function Now(): State
      requires Valid()
      reads this, events, pendingFds, pendingMasks
    {
      State(events[..], pendingFds[..npending], pendingMasks[..npending], kernel)
    }

    constructor (setsize: nat)
      ensures Valid() && fresh(events) && fresh(pendingFds) && fresh(pendingMasks) && events.Length == setsize
      ensures Now() == State(seq(setsize, i => None), [], [], map[]) && Exclusive(Now())
    {
      events := new Mask[setsize](_ => None);
      pendingFds := new int[MaxBatch](_ => -1);
      pendingMasks := new Mask[MaxBatch](_ => None);
      npending := 0;
      kernel := map[];
    }

    method LookupPending(fd: int) returns (i: int)
      requires Valid()
      ensures i == Find(pendingFds[..npending], fd)
    {
      ghost var fds := pendingFds[..npending];
      i := 0;
      while i < npending
        invariant 0 <= i <= npending && fd !in fds[..i]
      {
        if pendingFds[i] == fd {
          FindFirst(fds, fd, i);
          return;
        }
        i := i + 1;
      }
      i := -1;
    }

    method CreateFileEvent(fd: nat, mask: Mask, ok: bool) returns (done: bool)
      requires Valid()
      modifies this, events, pendingMasks
      ensures Valid() && Now() == AddEvent(old(Now()), fd, mask, ok)
      ensures done <==> fd < events.Length && (ok || fd in old(Now()).fds)
      ensures forall x :: 0 <= x < events.Length ==>
                && (events[x].readable <==> old(events[x].readable) || (done && x == fd && mask.readable))
                && (events[x].writable <==> old(events[x].writable) || (done && x == fd && mask.writable))
    {
      if fd >= events.Length { return false; }
      var full := mask.Or(events[fd]);
      var pfd := LookupPending(fd);
      if pfd != -1 {
        pendingMasks[pfd] := pendingMasks[pfd].Or(full);
      } else {
        if !ok { return false; }
        kernel := kernel[fd := full];
      }
      events[fd] := events[fd].Or(mask);
      assert full == events[fd];
      return true;
    }

    method DelEvent(fd: nat, mask: Mask)
      requires Valid() && fd < events.Length
      modifies this`kernel, pendingFds, pendingMasks
      ensures Valid() && Now() == ApiDelEvent(old(Now()), fd, mask)
    {
      var pfd := LookupPending(fd);
      if pfd != -1 {
        pendingMasks[pfd] := pendingMasks[pfd].Minus(mask);
        if pendingMasks[pfd] == None { pendingFds[pfd] := -1; }
        return;
      }
      if events[fd] == None {
        kernel := kernel - {fd};
      } else {
        kernel := kernel[fd := events[fd]];
      }
    }

    method DeleteFileEvent(fd: nat, mask: Mask)
      requires Valid()
      modifies this, events, pendingFds, pendingMasks
      ensures Valid() && Now() == DeleteEvent(old(Now()), fd, mask)
      ensures forall x :: 0 <= x < events.Length ==>
                && (events[x].readable <==> old(events[x].readable) && !(x == fd && mask.readable))
                && (events[x].writable <==> old(events[x].writable) && !(x == fd && mask.writable))
    {
      if fd >= events.Length { return; }
      if events[fd] == None { return; }
      DelEvent(fd, mask);
      events[fd] := events[fd].Minus(mask);
    }

    /** The entries of the pending table go back to the kernel. */
    method Reassociate()
      requires Valid()
      modifies this, pendingFds, pendingMasks
      ensures Valid() && npending == 0
              && kernel == Restored(old(pendingFds[..npending]), old(pendingMasks[..npending]), old(kernel))
      ensures forall i :: 0 <= i < old(npending) ==>
                pendingFds[i] == -1 && (old(pendingFds[i]) != -1 ==> pendingMasks[i] == None)
    {
      ghost var fds, masks := pendingFds[..npending], pendingMasks[..npending];
      var i := 0;
      while i < npending
        invariant 0 <= i <= npending == old(npending) && Valid()
        invariant forall j :: i <= j < npending ==> pendingFds[j] == fds[j] && pendingMasks[j] == masks[j]
        invariant kernel == Restored(fds[..i], masks[..i], old(kernel))
        invariant forall j :: 0 <= j < i ==> pendingFds[j] == -1 && (fds[j] != -1 ==> pendingMasks[j] == None)
      {
        assert fds[..i + 1][..i] == fds[..i] && masks[..i + 1][..i] == masks[..i];
        if pendingFds[i] != -1 {
          kernel := kernel[pendingFds[i] := pendingMasks[i]];
          pendingMasks[i] := None;
          pendingFds[i] := -1;
        }
        i := i + 1;
      }
      assert fds[..i] == fds && masks[..i] == masks;
      npending := 0;
    }

    /** `ready` are the descriptors the kernel reports, after it got the pending ones back, and
        `revents` the events it reports for each; these, and not the mask that the kernel held,
        go to the event loop. */
    method ApiPoll(ready: seq<int>, revents: seq<Mask>) returns (fired: seq<(int, Mask)>)
      requires Valid() && Choice(Now(), ready) && |revents| == |ready|
      modifies this, pendingFds, pendingMasks
      ensures Valid() && Now() == Poll(old(Now()), ready)
      ensures |fired| == |ready| && forall i :: 0 <= i < |ready| ==> fired[i] == (ready[i], revents[i])
    {
      Reassociate();
      ghost var all := kernel;
      npending := |ready|;
      fired := [];
      var i := 0;
      while i < |ready|
        invariant 0 <= i <= |ready| == npending && Valid() && |fired| == i
        invariant forall k :: 0 <= k < i ==> fired[k] == (ready[k], revents[k])
        invariant pendingFds[..i] == ready[..i]
        invariant forall j :: 0 <= j < i ==> pendingMasks[j] == all[ready[j]]
        invariant kernel == map fd | fd in all && fd !in ready[..i] :: all[fd]
      {
        assert ready[..i + 1] == ready[..i] + [ready[i]];
        fired := fired + [(ready[i], revents[i])];
        pendingFds[i], pendingMasks[i] := ready[i], kernel[ready[i]];
        kernel := kernel - {ready[i]};
        i := i + 1;
      }
      assert ready[..i] == ready;
      assert pendingMasks[..npending] == Poll(old(Now()), ready).masks;
    }
  }

  lemma {:induction false} FindFirst(fds: seq<int>, fd: int, i: nat)
    requires i < |fds| && fds[i] == fd && fd !in fds[..i]
    ensures Find(fds, fd) == i
  {
    var f := Find(fds, fd);
    assert fd in fds;
    assert forall k :: 0 <= k < i ==> fds[..i][k] == fds[k];
    assert forall k :: 0 <= k < f ==> fds[..f][k] == fds[k];
  }
}
