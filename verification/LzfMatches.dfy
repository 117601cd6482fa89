/** What the greedy reading finds: a match with the place entered last under the same hash is always
    taken and written, no byte inside a run of one byte is copied, and a text of one repeated byte
    becomes three bytes for every 264. */
module LzfMatches {
  import opened Bytes
  import opened LzfFormat
  import opened LzfGreedy

  // ------------------------------------------------------------------ what the table remembers

  /** The places that have been entered, in order: where a choice was made, and the last two of a
      match, as long as three bytes are left. */
  function Places(input: seq<byte>, cs: seq<Choice>): (ps: seq<nat>)
    ensures forall k :: 0 <= k < |ps| ==> ps[k] + 2 < |input|
  {
    if cs == [] then [] else
    Places(input, cs[..|cs| - 1]) + NewPlaces(input, Reach(cs[..|cs| - 1]), cs[|cs| - 1])
  }

  function NewPlaces(input: seq<byte>, p: nat, c: Choice): (ps: seq<nat>)
    ensures forall k :: 0 <= k < |ps| ==> ps[k] + 2 < |input|
  {
    var q := p + c.Size();
    if p + 2 >= |input| then [] else if c.Byte? || q + 2 >= |input| then [p] else [p, q - 2, q - 1]
  }

  function EnterAll(input: seq<byte>, table: Table, ps: seq<nat>): Table
    requires forall k :: 0 <= k < |ps| ==> ps[k] + 2 < |input|
  {
    if ps == [] then table else Enter(input, EnterAll(input, table, ps[..|ps| - 1]), ps[|ps| - 1])
  }

  lemma {:induction false} EnterMore(input: seq<byte>, table: Table, ps: seq<nat>, qs: seq<nat>)
    requires forall k :: 0 <= k < |ps| ==> ps[k] + 2 < |input|
    requires forall k :: 0 <= k < |qs| ==> qs[k] + 2 < |input|
    ensures EnterAll(input, table, ps + qs) == EnterAll(input, EnterAll(input, table, ps), qs)
  {
    hide Enter;
    if qs == [] {
      assert ps + qs == ps;
    } else {
      assert (ps + qs)[..|ps + qs| - 1] == ps + qs[..|qs| - 1];
      EnterMore(input, table, ps, qs[..|qs| - 1]);
    }
  }

  lemma {:induction false} TableIsEntered(input: seq<byte>, table: Table, cs: seq<Choice>)
    ensures TableAfter(input, table, cs) == EnterAll(input, table, Places(input, cs))
  {
    if cs != [] {
      var front, c := cs[..|cs| - 1], cs[|cs| - 1];
      TableIsEntered(input, table, front);
      hide Enter, Places, NewPlaces, EnterAll;
      EntersNew(input, TableAfter(input, table, front), cs, table);
      PlacesNext(input, cs);
      EnterMore(input, table, Places(input, front), NewPlaces(input, Reach(front), c));
    }
  }

  lemma PlacesNext(input: seq<byte>, cs: seq<Choice>)
    requires cs != []
    ensures Places(input, cs) == Places(input, cs[..|cs| - 1]) + NewPlaces(input, Reach(cs[..|cs| - 1]), cs[|cs| - 1])
  {
  }

  lemma EntersNew(input: seq<byte>, t: Table, cs: seq<Choice>, table: Table)
    requires cs != [] && t == TableAfter(input, table, cs[..|cs| - 1])
    ensures TableAfter(input, table, cs) == EnterAll(input, t, NewPlaces(input, Reach(cs[..|cs| - 1]), cs[|cs| - 1]))
  {
    hide Enter;
    Enters(input, t, NewPlaces(input, Reach(cs[..|cs| - 1]), cs[|cs| - 1]));
  }

  lemma Enters(input: seq<byte>, t: Table, ps: seq<nat>)
    requires forall k :: 0 <= k < |ps| ==> ps[k] + 2 < |input|
    ensures |ps| == 1 ==> EnterAll(input, t, ps) == Enter(input, t, ps[0])
    ensures |ps| == 3 ==> EnterAll(input, t, ps) == Enter(input, Enter(input, Enter(input, t, ps[0]), ps[1]), ps[2])
  {
    hide Enter;
    if |ps| == 1 {
      assert ps[..0] == [];
    } else if |ps| == 3 {
      assert ps[..2][..1] == ps[..1] && ps[..1][..0] == [];
    }
  }

  /** The place entered last under a hash is the one that the table holds. */
  lemma {:induction false} LatestIsHeld(input: seq<byte>, table: Table, ps: seq<nat>, i: nat)
    requires i < |ps| && forall k :: 0 <= k < |ps| ==> ps[k] + 2 < |input|
    requires forall k :: i < k < |ps| ==> Slot(input, ps[k]) != Slot(input, ps[i])
    ensures EnterAll(input, table, ps)[Slot(input, ps[i])] == ps[i]
  {
    hide Slot;
    if i < |ps| - 1 { LatestIsHeld(input, table, ps[..|ps| - 1], i); }
  }

  /** If no place was entered under a hash, the table holds what it held at the start. */
  lemma {:induction false} OldIsHeld(input: seq<byte>, table: Table, ps: seq<nat>, s: nat)
    requires s < HSIZE && forall k :: 0 <= k < |ps| ==> ps[k] + 2 < |input| && Slot(input, ps[k]) != s
    ensures EnterAll(input, table, ps)[s] == table[s]
  {
    hide Slot;
    if ps != [] { OldIsHeld(input, table, ps[..|ps| - 1], s); }
  }

  // --------------------------------------------------------------------- a match that is there

  /** The texts from `q` and `p` agree in exactly `len` bytes, or in as many as are looked at. */
  ghost predicate Longest(input: seq<byte>, q: nat, p: nat, len: nat) {
    && q < p && p + 5 <= |input| && 3 <= len <= Limit(|input| - p)
    && (forall i :: p <= i < p + len ==> input[i] == input[i - (p - q)])
    && (len < Limit(|input| - p) ==> input[q + len] != input[p + len])
  }

  lemma ChosenIsLongest(input: seq<byte>, table: Table, cs: seq<Choice>)
    requires Reach(cs) < |input| && Chosen(input, table, cs).Match?
    ensures var c, p := Chosen(input, table, cs), Reach(cs);
            && Candidate(input, c.ref, p) && Longest(input, c.ref, p, c.len)
            && c.ref == TableAfter(input, table, cs)[Slot(input, p)]
  {
    hide TableAfter, Reach, HashOf, Common, Candidate, Longest;
    var p := Reach(cs);
    var r := TableAfter(input, table, cs)[Slot(input, p)];
    CommonIsLongest(input, r, p);
  }

  lemma CommonIsLongest(input: seq<byte>, r: nat, p: nat)
    requires Candidate(input, r, p)
    ensures r < p && p + 4 < |input| && Longest(input, r, p, Common(input, r, p, 3, Limit(|input| - p)))
  {
    hide Common;
    var n := Common(input, r, p, 3, Limit(|input| - p));
    forall i | p <= i < p + n ensures input[i] == input[i - (p - r)] {
      if i < p + 3 { assert i == p || i == p + 1 || i == p + 2; }
    }
  }

  /** Wherever a choice is made: if the place entered last under the hash of the next three bytes is
      not the very first one, is at most 8192 bytes back, and begins with the same three bytes, and
      more than four bytes are left, then the longest match with that place is taken. */
  lemma MatchTaken(input: seq<byte>, table: Table, cs: seq<Choice>, i: nat)
    requires Reach(cs) + 4 < |input| && i < |Places(input, cs)|
    requires var ps := Places(input, cs); var p, q := Reach(cs), ps[i];
             && 0 < q < p && p - q <= 8192
             && input[q] == input[p] && input[q + 1] == input[p + 1] && input[q + 2] == input[p + 2]
             && forall k :: i < k < |ps| ==> Slot(input, ps[k]) != Slot(input, q)
    ensures var c := Chosen(input, table, cs); var q := Places(input, cs)[i];
            c.Match? && c.ref == q && Longest(input, q, Reach(cs), c.len)
  {
    hide EnterAll, TableAfter, Reach, Places, HashOf, Common, Longest;
    TableIsEntered(input, table, cs);
    LatestIsHeld(input, table, Places(input, cs), i);
    assert Candidate(input, Places(input, cs)[i], Reach(cs));
    ChosenIsLongest(input, table, cs);
  }

  /** Conversely, a match that is taken starts with the place that the table holds. */
  lemma NoOtherMatch(input: seq<byte>, table: Table, cs: seq<Choice>)
    requires Reach(cs) < |input| && Chosen(input, table, cs).Match?
    ensures var c, p := Chosen(input, table, cs), Reach(cs);
            && p + 4 < |input| && 0 < c.ref < p && p - c.ref <= 8192 && Longest(input, c.ref, p, c.len)
            && c.ref == EnterAll(input, table, Places(input, cs))[Slot(input, p)]
  {
    hide Chosen, EnterAll, TableAfter, Longest;
    TableIsEntered(input, table, cs);
    ChosenIsLongest(input, table, cs);
  }

  /** The tokens whose bytes will not change any more. */
  function Settled(ts: seq<Token>): seq<Token> { if Open(ts) then ts[..|ts| - 1] else ts }

  lemma {:induction false} SettledKept(input: seq<byte>, table: Table, cs: seq<Choice>)
    requires Legal(input, cs) && Reach(cs) <= |input|
    ensures Legal(input, Parse(input, table, cs))
    ensures Settled(Tokens(input, cs)) <= Settled(Tokens(input, Parse(input, table, cs)))
    decreases |input| - Reach(cs)
  {
    hide Chosen, Possible, TokensWith, Settled;
    ParseLegal(input, table, cs);
    if Reach(cs) < |input| {
      ParseNext(input, table, cs);
      SettledNext(input, Reach(cs), Tokens(input, cs), Chosen(input, table, cs));
      SettledKept(input, table, cs + [Chosen(input, table, cs)]);
    }
  }

  lemma SettledNext(input: seq<byte>, p: nat, ts: seq<Token>, c: Choice)
    requires Possible(input, p, c)
    ensures Settled(ts) <= Settled(TokensWith(input, p, ts, c))
    ensures c.Match? ==> ts <= Settled(TokensWith(input, p, ts, c)) == ts + [BackRef(p - c.ref - 1, c.len)]
  {
  }

  /** A match that is taken is a back reference of the stream, at its place. */
  lemma MatchWritten(input: seq<byte>, table: Table, cs: seq<Choice>)
    requires Legal(input, cs) && Reach(cs) < |input| && Chosen(input, table, cs).Match?
    ensures var c, full := Chosen(input, table, cs), Parse(input, table, cs);
            && Legal(input, full) && Encodes(Tokens(input, cs), input[..Reach(cs)]) && c.ref < Reach(cs)
            && Tokens(input, cs) + [BackRef(Reach(cs) - c.ref - 1, c.len)] <= Tokens(input, full)
  {
    hide Chosen, TokensWith, Settled, Encodes;
    var c := Chosen(input, table, cs);
    LegalEncodes(input, cs);
    ParseNext(input, table, cs);
    SettledNext(input, Reach(cs), Tokens(input, cs), c);
    SettledKept(input, table, cs + [c]);
    SettledIsPart(Tokens(input, Parse(input, table, cs)));
  }

  lemma SettledIsPart(ts: seq<Token>)
    ensures Settled(ts) <= ts
  {
  }

  // ------------------------------------------------------------------------------ one byte

  /** The place before a choice has been entered last. */
  lemma JustEntered(input: seq<byte>, table: Table, cs: seq<Choice>)
    requires 1 <= Reach(cs) && Reach(cs) + 2 < |input| && Slot(input, Reach(cs) - 1) == Slot(input, Reach(cs))
    ensures TableAfter(input, table, cs)[Slot(input, Reach(cs))] == Reach(cs) - 1
  {
    hide HashOf;
  }

  /** Inside a run of one byte a match is always taken, whatever the table held. */
  lemma RunIsMatched(input: seq<byte>, table: Table, cs: seq<Choice>)
    requires 2 <= Reach(cs) && Reach(cs) + 4 < |input|
    requires var p := Reach(cs); input[p - 1] == input[p] == input[p + 1] == input[p + 2]
    ensures var c := Chosen(input, table, cs);
            c.Match? && c.ref == Reach(cs) - 1 && Longest(input, c.ref, Reach(cs), c.len)
  {
    var p := Reach(cs);
    SameSlot(input, p - 1, p);
    JustEntered(input, table, cs);
    hide Reach, TableAfter, Slot, Common, Longest, Limit;
    assert Candidate(input, p - 1, p);
    ChosenIsLongest(input, table, cs);
  }

  lemma SameSlot(input: seq<byte>, p: nat, q: nat)
    requires p + 2 < |input| && q + 2 < |input|
    requires input[p] == input[q] && input[p + 1] == input[q + 1] && input[p + 2] == input[q + 2]
    ensures Slot(input, p) == Slot(input, q)
  {
    hide HashOf;
  }

  // ---------------------------------------------------------------------------- how long it gets

  /** A literal byte takes one byte, and one more for the header of a new run; a match two or three. */
  lemma WrittenNext(input: seq<byte>, cs: seq<Choice>, c: Choice)
    requires Legal(input, cs) && Possible(input, Reach(cs), c)
    ensures Legal(input, cs + [c]) && Reach(cs + [c]) == Reach(cs) + c.Size()
    ensures c.Byte? ==> |Written(input, cs + [c])| == |Written(input, cs)| + Header(input, cs) + 1
    ensures c.Match? ==> |Written(input, cs)| + 2 <= |Written(input, cs + [c])| <= |Written(input, cs)| + 3
    ensures c.Match? ==> Header(input, cs + [c]) == 1
  {
    hide Serialise, Encodes, Legal, Possible, Reach;
    var ts := Tokens(input, cs);
    LegalEncodes(input, cs);
    TokensNext(input, cs, c);
    LegalEncodes(input, cs + [c]);
    ReachNext(cs, c);
    ValidTokens(ts, input[..Reach(cs)]);
    hide Tokens;
    LongerBytes(input, Reach(cs), ts, c);
  }

  lemma ValidTokens(ts: seq<Token>, text: seq<byte>)
    requires Encodes(ts, text)
    ensures AllValid(ts)
  {
  }

  lemma LongerBytes(input: seq<byte>, p: nat, ts: seq<Token>, c: Choice)
    requires AllValid(ts) && Possible(input, p, c)
    ensures AllValid(TokensWith(input, p, ts, c))
    ensures var before, after := |Serialise(ts)|, |Serialise(TokensWith(input, p, ts, c))|;
            && (c.Byte? ==> after == before + (if Open(ts) then 1 else 2))
            && (c.Match? ==> before + 2 <= after <= before + 3 && !Open(TokensWith(input, p, ts, c)))
  {
    hide Serialise;
    if c.Match? {
      SerialiseSnoc(ts, BackRef(p - c.ref - 1, c.len));
    } else if Open(ts) {
      var front, bs := ts[..|ts| - 1], ts[|ts| - 1].bytes;
      assert ts == front + [Literal(bs)];
      SerialiseSnoc(front, Literal(bs));
      SerialiseSnoc(front, Literal(bs + [input[p]]));
    } else {
      SerialiseSnoc(ts, Literal([input[p]]));
    }
  }

  lemma {:induction false} WrittenGrows(input: seq<byte>, table: Table, cs: seq<Choice>)
    requires Legal(input, cs) && Reach(cs) <= |input|
    ensures Legal(input, Parse(input, table, cs))
    ensures |Written(input, Parse(input, table, cs))| >= |Written(input, cs)|
    decreases |input| - Reach(cs)
  {
    hide Chosen, Possible, Written, Header;
    ParseLegal(input, table, cs);
    if Reach(cs) < |input| {
      ParseNext(input, table, cs);
      WrittenNext(input, cs, Chosen(input, table, cs));
      WrittenGrows(input, table, cs + [Chosen(input, table, cs)]);
    }
  }

  /** If the stream fits with four bytes to spare, no test on the room fails. */
  lemma {:induction false} FitsIsRoomy(input: seq<byte>, table: Table, cs: seq<Choice>, outLen: nat)
    requires Legal(input, cs) && Reach(cs) <= |input| && Legal(input, Parse(input, table, cs))
    requires |Written(input, Parse(input, table, cs))| + 4 <= outLen
    ensures Roomy(input, table, cs, outLen)
    decreases |input| - Reach(cs)
  {
    hide Chosen, Possible, Written;
    WrittenGrows(input, table, cs);
    if Reach(cs) + 2 < |input| {
      var c := Chosen(input, table, cs);
      ParseNext(input, table, cs);
      WrittenNext(input, cs, c);
      WrittenGrows(input, table, cs + [c]);
      FitsIsRoomy(input, table, cs + [c], outLen);
    }
  }

  lemma StreamFits(input: seq<byte>, table: Table, outLen: nat)
    requires input != [] && |Stream(input, table)| + 4 <= outLen
    ensures Packed(input, table, outLen) == Stream(input, table) != []
  {
    hide Roomy, Parse, Written;
    ParseLegal(input, table, []);
    FitsIsRoomy(input, table, [], outLen);
    StreamSome(input, table);
  }

  // -------------------------------------------------------------------- one byte repeated

  predicate Repeated(input: seq<byte>) { forall i :: 0 <= i < |input| ==> input[i] == input[0] }

  /** The room that literal bytes need from here to the end. */
  ghost function Needed(input: seq<byte>, cs: seq<Choice>): nat
    requires Legal(input, cs)
  {
    |Written(input, cs)| + Header(input, cs) + 3
    + if Reach(cs) + 2 < |input| then |input| - Reach(cs) - 2 else 0
  }

  /** With at most four bytes left, only literal bytes follow; they belong to one run. */
  lemma {:induction false} Tail(input: seq<byte>, table: Table, cs: seq<Choice>, outLen: nat)
    requires Legal(input, cs) && Reach(cs) <= |input| <= Reach(cs) + 4
    requires var ts := Tokens(input, cs);
             Open(ts) ==> |ts[|ts| - 1].bytes| + (|input| - Reach(cs)) < MAX_LIT
    ensures Legal(input, Parse(input, table, cs))
    ensures |Written(input, Parse(input, table, cs))| <= |Written(input, cs)| + Header(input, cs)
            + (|input| - Reach(cs))
    ensures Needed(input, cs) <= outLen ==> Roomy(input, table, cs, outLen)
    decreases |input| - Reach(cs)
  {
    ParseLegal(input, table, cs);
    if Reach(cs) < |input| {
      OnlyBytes(input, table, cs);
      ParseNext(input, table, cs);
      hide Chosen, Possible, Written, Legal;
      WrittenNext(input, cs, Choice.Byte);
      RunGoesOn(input, Reach(cs), Tokens(input, cs));
      Tail(input, table, cs + [Choice.Byte], outLen);
    }
  }

  lemma OnlyBytes(input: seq<byte>, table: Table, cs: seq<Choice>)
    requires Reach(cs) < |input| <= Reach(cs) + 4
    ensures Chosen(input, table, cs) == Choice.Byte
  {
  }

  lemma RunGoesOn(input: seq<byte>, p: nat, ts: seq<Token>)
    requires p < |input| <= p + 4
    requires Open(ts) ==> |ts[|ts| - 1].bytes| + (|input| - p) < MAX_LIT
    ensures var us := TokensWith(input, p, ts, Choice.Byte);
            us != [] && Open(us) && |us[|us| - 1].bytes| + (|input| - p - 1) < MAX_LIT
  {
  }

  /** Matches of 264 bytes follow each other, each written in three, and one shorter match. */
  lemma {:induction false} Matches(input: seq<byte>, table: Table, cs: seq<Choice>, k: nat, outLen: nat)
    requires Repeated(input) && |input| >= 16 && outLen >= |input| - 4
    requires Legal(input, cs) && Reach(cs) == 2 + 264 * k <= |input| - 2 && |Written(input, cs)| <= 3 + 3 * k
    requires k > 0 ==> !Open(Tokens(input, cs))
    ensures Legal(input, Parse(input, table, cs)) && Roomy(input, table, cs, outLen)
    ensures |Written(input, Parse(input, table, cs))| <= 3 * (|input| / 264) + 9
    decreases |input| - Reach(cs)
  {
    ParseLegal(input, table, cs);
    hide Chosen, Possible, Written, Legal, Parse, Longest;
    hide Repeated, Roomy, Tokens, Reach, Limit, TokensWith;
    if |input| - Reach(cs) <= 4 {
      AfterMatches(input, table, cs, k, outLen);
    } else {
      var c := Chosen(input, table, cs);
      NextMatch(input, table, cs);
      NextRoom(input, table, cs, outLen);
      ParseNext(input, table, cs);
      WrittenNext(input, cs, c);
      NoHeader(input, cs + [c]);
      LimitIs(|input| - Reach(cs));
      if |input| - Reach(cs) >= 266 {
        Matches(input, table, cs + [c], k + 1, outLen);
      } else {
        AfterMatches(input, table, cs + [c], k + 1, outLen);
      }
    }
  }

  lemma LimitIs(left: nat)
    requires left >= 5
    ensures left >= 266 ==> Limit(left) == 264
    ensures left < 266 ==> left - 2 <= Limit(left) <= left
  {
  }

  lemma NoHeader(input: seq<byte>, cs: seq<Choice>)
    requires Legal(input, cs) && Header(input, cs) == 1
    ensures !Open(Tokens(input, cs))
  {
  }

  /** There is room for a match if there is for what follows it. */
  lemma NextRoom(input: seq<byte>, table: Table, cs: seq<Choice>, outLen: nat)
    requires Legal(input, cs) && Reach(cs) + 2 < |input| && Chosen(input, table, cs).Match?
    requires |Written(input, cs)| + 4 < outLen
    ensures Legal(input, cs + [Chosen(input, table, cs)])
    ensures Roomy(input, table, cs + [Chosen(input, table, cs)], outLen) ==> Roomy(input, table, cs, outLen)
  {
    hide Chosen, Written, Header;
    ParseNext(input, table, cs);
  }

  /** `k` matches have been written, and at most four bytes are left. */
  lemma AfterMatches(input: seq<byte>, table: Table, cs: seq<Choice>, k: nat, outLen: nat)
    requires |input| >= 16 && outLen >= |input| - 4 && Legal(input, cs) && Reach(cs) <= |input| <= Reach(cs) + 4
    requires |Written(input, cs)| <= 3 + 3 * k && !Open(Tokens(input, cs))
    requires k >= 1 && 2 + 264 * (k - 1) + 5 <= |input| && (|input| > Reach(cs) + 2 ==> Reach(cs) == 2 + 264 * k)
    ensures Legal(input, Parse(input, table, cs)) && Roomy(input, table, cs, outLen)
    ensures |Written(input, Parse(input, table, cs))| <= 3 * (|input| / 264) + 9
  {
    Tail(input, table, cs, outLen);
    hide Written, Legal, Parse, Roomy, Tokens, Reach;
    assert |input| / 264 >= k - 1;
    if |input| > Reach(cs) + 2 { assert |input| / 264 >= k; }
  }

  lemma NextMatch(input: seq<byte>, table: Table, cs: seq<Choice>)
    requires Repeated(input) && Reach(cs) >= 2 && Reach(cs) + 4 < |input|
    ensures var c := Chosen(input, table, cs); c.Match? && c.len == Limit(|input| - Reach(cs))
  {
    RunIsMatched(input, table, cs);
    hide Chosen, Reach;
    var c := Chosen(input, table, cs);
    RepeatedIsLongest(input, c.ref, Reach(cs), c.len);
  }

  lemma RepeatedIsLongest(input: seq<byte>, r: nat, p: nat, len: nat)
    requires Repeated(input) && Longest(input, r, p, len)
    ensures p + 4 < |input| && len == Limit(|input| - p)
  {
  }

  /** A text of one byte, repeated sixteen times or more, is compressed into three bytes for every 264
      and at most nine more, whatever the table held and with four bytes less room than text. */
  lemma RepeatedShrinks(input: seq<byte>, table: Table, outLen: nat)
    requires Repeated(input) && |input| >= 16 && outLen >= |input| - 4
    ensures Packed(input, table, outLen) == Stream(input, table)
    ensures 0 < |Stream(input, table)| <= 3 * (|input| / 264) + 9
  {
    StreamSome(input, table);
    var b := Choice.Byte;
    TwoBytes(input, table);
    hide Chosen, Possible, Roomy, Parse, Written, Tokens;
    ParseLegal(input, table, []);
    ParseNext(input, table, []);
    ParseNext(input, table, [b]);
    assert [] + [b] == [b] && [b] + [b] == [b, b];
    WrittenNext(input, [], b);
    WrittenNext(input, [b], b);
    FirstHeaders(input);
    Matches(input, table, [b, b], 0, outLen);
    FirstRoom(input, table, outLen);
  }

  /** The first two choices are literal bytes: nothing before them can be matched. */
  lemma TwoBytes(input: seq<byte>, table: Table)
    requires |input| >= 16
    ensures Reach([]) == 0 && Reach([Choice.Byte]) == 1 && Reach([Choice.Byte, Choice.Byte]) == 2
    ensures Chosen(input, table, []) == Choice.Byte && Chosen(input, table, [Choice.Byte]) == Choice.Byte
  {
    var b := Choice.Byte;
    assert [b][..0] == [] && [b, b][..1] == [b];
    hide TableAfter, Slot;
  }

  lemma FirstHeaders(input: seq<byte>)
    requires |input| >= 16
    ensures var b := Choice.Byte;
            && Legal(input, []) && Legal(input, [b])
            && |Written(input, [])| == 0 && Header(input, []) == 1 && Header(input, [b]) == 0
  {
    var b := Choice.Byte;
    assert [] + [b] == [b] && [b][..0] == [];
    LegalSnoc(input, [], b);
    assert Tokens(input, [b]) == [Literal([input[0]])];
  }

  lemma FirstRoom(input: seq<byte>, table: Table, outLen: nat)
    requires |input| >= 16 && outLen >= 12
    requires var b := Choice.Byte;
             && Legal(input, []) && Legal(input, [b]) && Legal(input, [b, b])
             && Chosen(input, table, []) == b && Chosen(input, table, [b]) == b
             && Roomy(input, table, [b, b], outLen)
    ensures Roomy(input, table, [], outLen)
  {
    hide Chosen, Written, Tokens;
    var b := Choice.Byte;
    TwoBytes(input, table);
    FirstHeaders(input);
    assert [] + [b] == [b] && [b] + [b] == [b, b];
    WrittenNext(input, [], b);
  }
}
