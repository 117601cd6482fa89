/** `lzf_compress`: match search through a hash table of positions, literal runs whose
    header slot is reserved before the run is known, and back references.

    The hash table holds the arbitrary values it had on entry (`INIT_HTAB` is 0): a
    table cell is any integer, read as a position relative to the start of the input.
    The output buffer has one cell beyond `outLen`, because a run header is patched
    before the room test of a match looks at the output position. */
module LzfCompress {
  import opened Bytes
  import opened LzfFormat
  import opened LzfGreedy
  import opened LzfMatches

  function Frst(p0: int, p1: int): int { p0 * 256 + p1 }

  /** The hash state is a 32-bit unsigned value. */
  function Next(h: int, p2: int): int { (h * 256 + p2) % 0x1_0000_0000 }

  /** The `VERY_FAST` index: subtraction wraps, and the mask keeps the low 16 bits. */
  function Idx(h: int): (i: nat)
    ensures i < HSIZE
  {
    (h / 256 - 5 * h) % HSIZE
  }

  /** The rolling state gives the slot of the three bytes it was fed last. */
  lemma RollingHash(h: int, a: int, b: int, c: int)
    requires 0 <= h && 0 <= a < 256 && 0 <= b < 256 && 0 <= c < 256 && h % 0x1_0000 == Frst(a, b)
    ensures Idx(Next(h, c)) == HashOf(a, b, c) && Next(h, c) >= 0 && Next(h, c) % 0x1_0000 == Frst(b, c)
  {
    hide Next, Idx, HashOf, Frst;
    NextIs(h, a, b, c);
    SlotOfState(h / 0x1_0000 % 256, a, b, c);
  }

  lemma SlotOfState(l: nat, a: int, b: int, c: int)
    requires 0 <= a < 256 && 0 <= b < 256 && 0 <= c < 256
    ensures var x := 0x100_0000 * l + (a * 0x1_0000 + b * 0x100 + c);
            Idx(x) == HashOf(a, b, c) && x >= 0 && x % 0x1_0000 == Frst(b, c)
  {
    SlotOfLow(l, a * 0x1_0000 + b * 0x100 + c);
    LowTwo(a, b, c);
  }

  lemma LowTwo(a: int, b: int, c: int)
    requires 0 <= b < 256 && 0 <= c < 256
    ensures (a * 0x1_0000 + b * 0x100 + c) % 0x1_0000 == Frst(b, c)
  {
    Shifted(Frst(b, c), a);
  }

  /** Of the state only the two bytes read last, and one byte before them, are left. */
  lemma NextIs(h: int, a: int, b: int, c: int)
    requires 0 <= h && 0 <= a < 256 && 0 <= b < 256 && 0 <= c < 256 && h % 0x1_0000 == Frst(a, b)
    ensures Next(h, c) == 0x100_0000 * (h / 0x1_0000 % 256) + (a * 0x1_0000 + b * 0x100 + c)
  {
    ByteIn(h, Frst(a, b), c);
    LowBytes(h / 0x1_0000, a * 0x1_0000 + b * 0x100 + c);
  }

  lemma ByteIn(h: nat, low: nat, c: int)
    requires h % 0x1_0000 == low
    ensures h * 256 + c == 0x100_0000 * (h / 0x1_0000) + (low * 256 + c)
  {
  }

  lemma LowBytes(k: nat, v: nat)
    requires v < 0x100_0000
    ensures (0x100_0000 * k + v) % 0x1_0000_0000 == 0x100_0000 * (k % 256) + v
  {
    var m, l := k / 256, k % 256;
    assert 0x100_0000 * k + v == 0x1_0000_0000 * m + (0x100_0000 * l + v);
  }

  lemma SlotOfLow(l: nat, v: nat)
    ensures var x := 0x100_0000 * l + v;
            (x / 256 - 5 * x) % HSIZE == (v / 256 - 5 * v) % HSIZE && x % 0x1_0000 == v % 0x1_0000
  {
    var x := 0x100_0000 * l + v;
    Dropped(l, v);
    Shifted(v / 256 - 5 * v, l - 1280 * l);
    Shifted(v, 256 * l);
  }

  lemma Dropped(l: nat, v: nat)
    ensures (0x100_0000 * l + v) / 256 == 0x1_0000 * l + v / 256
  {
  }

  lemma Shifted(a: int, n: int)
    ensures (a + HSIZE * n) % HSIZE == a % HSIZE
  {
  }

  /** `o` is what has been written for the tokens `ts`: a finished stream, a reserved header slot,
      and the `lit` bytes of the last token, if that is a run in progress. */
  ghost predicate Laid(ts: seq<Token>, lit: nat, o: seq<byte>) {
    && AllValid(ts) && lit <= MAX_LIT && lit + 1 <= |o|
    && (lit == 0 ==> !Open(ts) && Serialise(ts) == o[..|o| - 1])
    && (lit > 0 ==>
          && ts != [] && ts[|ts| - 1] == Literal(o[|o| - lit..])
          && AllValid(ts[..|ts| - 1]) && Serialise(ts[..|ts| - 1]) == o[..|o| - lit - 1])
  }

  /** While the choices `cs` have been written, the run is not full, and the finished stream exceeds
      the text it stands for by at most one byte in 32. */
  ghost predicate Pending(input: seq<byte>, cs: seq<Choice>, lit: nat, o: seq<byte>) {
    && Legal(input, cs) && Laid(Tokens(input, cs), lit, o)
    && lit < MAX_LIT && lit <= Reach(cs) <= |input|
    && |o| - lit - 1 <= (Reach(cs) - lit) + (Reach(cs) - lit) / 32
  }

  /** One more byte of the run. */
  lemma RunExtends(ts: seq<Token>, lit: nat, o: seq<byte>, b: byte)
    requires lit < MAX_LIT && Laid(ts, lit, o)
    ensures Laid(WithByte(ts, b), lit + 1, o + [b])
  {
    Ends(o, b, lit);
    if lit > 0 { assert (ts[..|ts| - 1] + [Literal(o[|o| - lit..] + [b])])[..|ts| - 1] == ts[..|ts| - 1]; }
    else { assert (ts + [Literal([b])])[..|ts|] == ts; }
  }

  lemma Ends(o: seq<byte>, b: byte, lit: nat)
    requires lit + 1 <= |o|
    ensures var p := o + [b];
            p[..|p| - (lit + 1) - 1] == o[..|o| - lit - 1] && p[|p| - (lit + 1)..] == o[|o| - lit..] + [b]
  {
  }

  /** Patching the header slot of the run closes it; an empty run is undone. */
  lemma RunCloses(ts: seq<Token>, lit: nat, o: seq<byte>)
    requires Laid(ts, lit, o)
    ensures Serialise(ts) == if lit == 0 then o[..|o| - 1] else o[|o| - lit - 1 := lit - 1]
  {
    hide Serialise, Token.Bytes, AllValid, Open;
    if lit > 0 {
      LastToken(ts, lit, o[|o| - lit..], o[..|o| - lit - 1]);
      Patched(o, lit);
    }
  }

  lemma LastToken(ts: seq<Token>, lit: nat, bs: seq<byte>, before: seq<byte>)
    requires ts != [] && ts[|ts| - 1] == Literal(bs) && 1 <= |bs| == lit <= MAX_LIT
    requires AllValid(ts) && AllValid(ts[..|ts| - 1]) && Serialise(ts[..|ts| - 1]) == before
    ensures Serialise(ts) == before + ([lit - 1] + bs)
  {
    hide Serialise, Token.Bytes, AllValid;
    LiteralBytes(bs);
    SerialiseSnoc(ts[..|ts| - 1], Literal(bs));
    assert ts[..|ts| - 1] + [Literal(bs)] == ts;
  }

  lemma LiteralBytes(bs: seq<byte>)
    requires 1 <= |bs| <= MAX_LIT
    ensures Literal(bs).Bytes() == [|bs| - 1] + bs
  {
  }

  lemma Patched(o: seq<byte>, lit: nat)
    requires 0 < lit <= MAX_LIT && lit + 1 <= |o|
    ensures o[|o| - lit - 1 := lit - 1] == o[..|o| - lit - 1] + ([lit - 1] + o[|o| - lit..])
  {
  }

  /** Patch the header of the run in progress; an empty run is undone (lines 174-175). */
  method StopRun(ghost ts: seq<Token>, lit: nat, out: array<byte>, op: nat) returns (op': nat)
    requires op <= out.Length && Laid(ts, lit, out[..op])
    modifies out
    ensures op' == if lit == 0 then op - 1 else op
    ensures out[..op'] == Serialise(ts)
    ensures op - lit < out.Length ==> out[out.Length - 1] == old(out[out.Length - 1])
  {
    hide Serialise;
    ghost var o := out[..op];
    RunCloses(ts, lit, o);
    out[op - lit - 1] := (lit - 1) % 256;
    op' := if lit == 0 then op - 1 else op;
    assert out[..op] == o[op - lit - 1 := (lit - 1) % 256];
    assert lit == 0 ==> out[..op - 1] == o[..op - 1];
  }

  /** One more literal byte (lines 267-273 and 282-288). */
  method PutLiteral(input: seq<byte>, ghost cs: seq<Choice>, ip: nat, lit: nat, out: array<byte>, op: nat)
    returns (lit': nat, op': nat)
    requires op + 1 < out.Length && ip == Reach(cs) < |input|
    requires Pending(input, cs, lit, out[..op])
    modifies out
    ensures op' == if lit + 1 == MAX_LIT then op + 2 else op + 1
    ensures lit' == if lit + 1 == MAX_LIT then 0 else lit + 1
    ensures Pending(input, cs + [Choice.Byte], lit', out[..op'])
    ensures out[out.Length - 1] == old(out[out.Length - 1])
  {
    hide Serialise, Laid, Pending, Legal, WithByte, Tokens, Reach;
    Pended(input, cs, lit, out[..op]);
    ghost var ts := Tokens(input, cs);
    ByteLegal(input, cs, lit, out[..op]);
    RunExtends(ts, lit, out[..op], input[ip]);
    ghost var o := out[..op] + [input[ip]];
    out[op] := input[ip];
    lit', op' := lit + 1, op + 1;
    assert out[..op'] == o;
    if lit' == MAX_LIT {
      op' := StopRun(WithByte(ts, input[ip]), lit', out, op');
      lit', op' := 0, op' + 1;
      assert out[..op'][..op' - 1] == out[..op' - 1];
      RunFull(WithByte(ts, input[ip]), o, out[..op']);
    }
    BytePending(input, cs, lit, op, lit', out[..op']);
  }

  lemma ByteLegal(input: seq<byte>, cs: seq<Choice>, lit: nat, o: seq<byte>)
    requires Pending(input, cs, lit, o) && Reach(cs) < |input|
    ensures Legal(input, cs) && Laid(Tokens(input, cs), lit, o) && Legal(input, cs + [Choice.Byte])
    ensures Reach(cs + [Choice.Byte]) == Reach(cs) + 1 && lit <= Reach(cs) && lit < MAX_LIT
    ensures Tokens(input, cs + [Choice.Byte]) == WithByte(Tokens(input, cs), input[Reach(cs)])
    ensures |o| - lit - 1 <= (Reach(cs) - lit) + (Reach(cs) - lit) / 32
  {
    TokensNext(input, cs, Choice.Byte);
    ReachNext(cs, Choice.Byte);
    hide Tokens, Laid;
  }

  /** A run of 32 bytes is finished. */
  lemma RunFull(ts: seq<Token>, o: seq<byte>, p: seq<byte>)
    requires Laid(ts, MAX_LIT, o) && p != [] && p[..|p| - 1] == Serialise(ts)
    ensures Laid(ts, 0, p)
  {
    hide Serialise;
  }

  lemma BytePending(input: seq<byte>, cs: seq<Choice>, lit: nat, n: nat, lit': nat, o: seq<byte>)
    requires lit < MAX_LIT && lit <= Reach(cs) < |input| && n >= lit + 1
    requires n - lit - 1 <= (Reach(cs) - lit) + (Reach(cs) - lit) / 32
    requires Legal(input, cs + [Choice.Byte]) && Reach(cs + [Choice.Byte]) == Reach(cs) + 1
    requires Laid(Tokens(input, cs + [Choice.Byte]), lit', o)
    requires if lit + 1 == MAX_LIT then lit' == 0 && |o| == n + 2 else lit' == lit + 1 && |o| == n + 1
    ensures Pending(input, cs + [Choice.Byte], lit', o)
  {
    hide Laid, Tokens, Legal, Reach;
  }

  /** The three-byte test at lines 159-166. */
  predicate SameStart(input: seq<byte>, ref: nat, ip: nat)
    requires ref < ip && ip + 2 < |input|
  {
    input[ref] == input[ip] && input[ref + 1] == input[ip + 1] && input[ref + 2] == input[ip + 2]
  }

  /** The texts from `ref` and `ip` agree in `len` bytes. */
  ghost predicate Agrees(input: seq<byte>, ref: nat, ip: nat, len: nat)
    requires ref < ip && ip + len <= |input|
  {
    forall i :: ip <= i < ip + len ==> input[i] == input[i - (ip - ref)]
  }

  lemma AgreesStart(input: seq<byte>, ref: nat, ip: nat)
    requires ref < ip && ip + 2 < |input| && SameStart(input, ref, ip)
    ensures Agrees(input, ref, ip, 3)
  {
  }

  lemma AgreesNext(input: seq<byte>, ref: nat, ip: nat, len: nat)
    requires ref < ip && ip + len < |input| && Agrees(input, ref, ip, len) && input[ref + len] == input[ip + len]
    ensures Agrees(input, ref, ip, len + 1)
  {
  }

  lemma AgreesLess(input: seq<byte>, ref: nat, ip: nat, len: nat)
    requires ref < ip && ip + len < |input| && Agrees(input, ref, ip, len + 1)
    ensures Agrees(input, ref, ip, len) && input[ref + len] == input[ip + len]
  {
    assert input[ip + len] == input[ip + len - (ip - ref)];
  }

  /** A match that cannot be longer is the one that is taken. */
  lemma MatchIs(input: seq<byte>, ref: nat, ip: nat, len: nat)
    requires ref < ip && ip + 4 < |input| && 3 <= len <= Limit(|input| - ip)
    requires Agrees(input, ref, ip, len)
    requires len < Limit(|input| - ip) ==> input[ref + len] != input[ip + len]
    ensures len == Common(input, ref, ip, 3, Limit(|input| - ip))
  {
    CommonUnique(input, ref, ip, 3, Limit(|input| - ip), len);
  }

  /** The sixteen unrolled tests. */
  method Sixteen(input: seq<byte>, ref: nat, ip: nat) returns (len: nat, differs: bool)
    requires ref < ip && ip + 18 < |input| && SameStart(input, ref, ip)
    ensures 3 <= len <= 18 && (differs <==> input[ref + len] != input[ip + len]) && (differs || len == 18)
    ensures Agrees(input, ref, ip, len)
  {
    hide Agrees;
    AgreesStart(input, ref, ip);
    len := 2;
    while len < 18
      invariant 2 <= len <= 18 && Agrees(input, ref, ip, len + 1)
    {
      len := len + 1;
      if input[ref + len] != input[ip + len] { return len, true; }
      AgreesNext(input, ref, ip, len);
    }
    AgreesLess(input, ref, ip, 18);
    return 18, false;
  }

  /** Length of the match between `ref` and `ip` (lines 170-210): sixteen unrolled tests
      when there is room for them, then the general loop.  It is the longest match up to
      the limit that the encoding and the end of the input allow. */
  method MatchLength(input: seq<byte>, ref: nat, ip: nat) returns (len: nat)
    requires ref < ip && ip + 4 < |input|
    requires SameStart(input, ref, ip)
    ensures 3 <= len <= MAX_REF && ip + len <= |input| && len == Common(input, ref, ip, 3, Limit(|input| - ip))
    ensures Agrees(input, ref, ip, len)
    ensures len < MAX_REF && ip + len + 2 < |input| ==> input[ref + len] != input[ip + len]
  {
    hide Common, Agrees, SameStart;
    AgreesStart(input, ref, ip);
    var maxlen := |input| - ip - 2;
    if maxlen > MAX_REF { maxlen := MAX_REF; }
    len := 2;
    if maxlen > 16 {
      var differs;
      len, differs := Sixteen(input, ref, ip);
      if differs {
        MatchIs(input, ref, ip, len);
        return;
      }
      AgreesNext(input, ref, ip, len);
    }
    len := len + 1;
    while len < maxlen && input[ref + len] == input[ip + len]
      invariant 3 <= len && (len <= maxlen || len == 19 <= maxlen + 2)
      invariant ip + len <= |input| && len <= MAX_REF
      invariant Agrees(input, ref, ip, len)
    {
      AgreesNext(input, ref, ip, len);
      len := len + 1;
    }
    MatchIs(input, ref, ip, len);
  }

  /** Write the bytes of a back reference (lines 215-225). */
  method PutRef(out: array<byte>, op: nat, off: nat, octets: nat) returns (op': nat)
    requires BackRef(off, octets).Valid() && op + 3 <= out.Length
    modifies out
    ensures op' == op + |BackRef(off, octets).Bytes()| <= op + 3
    ensures out[..op'] == old(out[..op]) + BackRef(off, octets).Bytes()
    ensures op + 3 < out.Length ==> out[out.Length - 1] == old(out[out.Length - 1])
  {
    var len := octets - 2;
    op' := op;
    if len < 7 {
      out[op'] := off / 256 + len * 32;
      op' := op' + 1;
    } else {
      out[op'] := off / 256 + 7 * 32;
      op' := op' + 1;
      out[op'] := len - 7;
      op' := op' + 1;
    }
    out[op'] := off % 256;
    op' := op' + 1;
    assert out[op..op'] == BackRef(off, octets).Bytes();
    assert out[..op'] == out[..op] + out[op..op'];
  }

  /** A match at `ref` (lines 169-228): close the run, test for room, emit the back
      reference and reserve the next run header. */
  method EmitMatch(input: seq<byte>, ghost cs: seq<Choice>, ip: nat, ref: nat, lit: nat, out: array<byte>, op: nat)
    returns (fits: bool, ip': nat, op': nat)
    requires 0 < op <= out.Length && ip == Reach(cs)
    requires Pending(input, cs, lit, out[..op])
    requires Candidate(input, ref, ip)
    modifies out
    ensures ip + ip / 32 + 6 < out.Length ==> fits
    ensures Legal(input, cs) && (fits <==> |Written(input, cs)| + 4 < out.Length - 1)
    ensures var c := Match(ref, Common(input, ref, ip, 3, Limit(|input| - ip)));
            fits ==>
              && ip < ip' == ip + c.len <= |input| && 0 < op' < out.Length
              && Pending(input, cs + [c], 0, out[..op'])
    ensures fits ==> out[out.Length - 1] == old(out[out.Length - 1])
  {
    hide Serialise, Pending, Legal, Laid, Common, Tokens, Token.Bytes, Possible, Written;
    var outLen := out.Length - 1;
    var off := ip - ref - 1;
    var len := MatchLength(input, ref, ip);
    Pended(input, cs, lit, out[..op]);
    WrittenIs(input, cs);
    op' := StopRun(Tokens(input, cs), lit, out, op);
    fits, ip' := op' + 3 + 1 < outLen, ip;
    if !fits { return; }
    op' := PutRef(out, op', off, len);
    op' := op' + 1;
    assert out[..op'][..op' - 1] == out[..op' - 1];
    MatchLegal(input, ref, ip, len);
    AfterMatch(input, cs, Match(ref, len), out[..op']);
    ip' := ip + len;
  }

  lemma WrittenIs(input: seq<byte>, cs: seq<Choice>)
    requires Legal(input, cs)
    ensures AllValid(Tokens(input, cs)) && Written(input, cs) == Serialise(Tokens(input, cs))
  {
    LegalEncodes(input, cs);
  }

  lemma MatchLegal(input: seq<byte>, ref: nat, ip: nat, len: Length)
    requires 0 < ref < ip && ip - ref <= MAX_OFF && ip + len <= |input| && Agrees(input, ref, ip, len)
    ensures Possible(input, ip, Match(ref, len))
  {
  }

  lemma AfterMatch(input: seq<byte>, cs: seq<Choice>, c: Choice, o: seq<byte>)
    requires Legal(input, cs) && c.Match? && Possible(input, Reach(cs), c) && o != []
    requires o[..|o| - 1] == Written(input, cs) + BackRef(Reach(cs) - c.ref - 1, c.len).Bytes()
    requires |Written(input, cs)| <= Reach(cs) + Reach(cs) / 32 + 1
    ensures Reach(cs + [c]) == Reach(cs) + c.len && Pending(input, cs + [c], 0, o)
  {
    hide Serialise, Token.Bytes, Encodes, Legal;
    var ts, t := Tokens(input, cs), BackRef(Reach(cs) - c.ref - 1, c.len);
    LegalEncodes(input, cs);
    WrittenIs(input, cs);
    TokensNext(input, cs, c);
    hide Tokens;
    ReachNext(cs, c);
    SerialiseSnoc(ts, t);
    MatchPays(t, |Written(input, cs)|, Reach(cs));
  }

  /** A reference is shorter than what it stands for. */
  lemma MatchPays(t: Token, w: nat, p: nat)
    requires t.BackRef? && t.Valid() && w <= p + p / 32 + 1
    ensures w + |t.Bytes()| <= (p + t.len) + (p + t.len) / 32
  {
  }

  /** Output room that is always enough (the claim of totality). */
  predicate Ample(inLen: nat, outLen: nat) {
    outLen >= inLen + inLen / 32 + 4
  }

  /** The choices made so far are a beginning of all choices, and the room has sufficed. */
  ghost predicate Ongoing(input: seq<byte>, table: Table, outLen: nat, cs: seq<Choice>) {
    && Legal(input, cs) && Reach(cs) <= |input|
    && Parse(input, table, cs) == Parse(input, table, [])
    && (Roomy(input, table, cs, outLen) <==> Roomy(input, table, [], outLen))
  }

  /** The rolling hash has read the two bytes at `ip`. */
  predicate Rolled(input: seq<byte>, ip: nat, hval: int) {
    hval >= 0 && (ip + 2 < |input| ==> hval % 0x1_0000 == Frst(input[ip], input[ip + 1]))
  }

  /** The state of the main loop. */
  ghost predicate Current(input: seq<byte>, table: Table, outLen: nat, cs: seq<Choice>, ip: nat, hval: int,
                          htab: seq<int>) {
    && Ongoing(input, table, outLen, cs) && ip == Reach(cs) && Rolled(input, ip, hval)
    && |htab| == HSIZE && htab == TableAfter(input, table, cs)
  }

  lemma CurrentStart(input: seq<byte>, table: Table, outLen: nat, hval: int)
    requires hval == if |input| > 1 then Frst(input[0], input[1]) else 0
    ensures Current(input, table, outLen, [], 0, hval, table)
  {
    hide Parse, Roomy, Rolled;
    RolledStart(input, hval);
  }

  lemma RolledStart(input: seq<byte>, hval: int)
    requires hval == if |input| > 1 then Frst(input[0], input[1]) else 0
    ensures Rolled(input, 0, hval)
  {
  }

  /** What the table shows at `ip`. */
  lemma Look(input: seq<byte>, table: Table, outLen: nat, cs: seq<Choice>, ip: nat, hval: int, htab: seq<int>)
    requires Current(input, table, outLen, cs, ip, hval, htab) && ip + 2 < |input|
    ensures Idx(Next(hval, input[ip + 2])) == Slot(input, ip) && Next(hval, input[ip + 2]) >= 0
    ensures Rolled(input, ip + 1, Next(hval, input[ip + 2]))
    ensures Reach(cs) == ip && |htab| == HSIZE
    ensures var r := htab[Slot(input, ip)];
            Chosen(input, table, cs) == if Candidate(input, r, ip)
                                        then Match(r, Common(input, r, ip, 3, Limit(|input| - ip))) else Choice.Byte
  {
    hide Idx, Next, HashOf, Candidate, Common, Ongoing, TableAfter;
    RollingHash(hval, input[ip], input[ip + 1], input[ip + 2]);
  }

  /** The next choice has been made. */
  lemma Advance(input: seq<byte>, table: Table, outLen: nat, cs: seq<Choice>, ip: nat, hval: int, htab: seq<int>,
                hval': int, htab': seq<int>)
    requires Current(input, table, outLen, cs, ip, hval, htab) && ip + 2 < |input|
    requires var c := Chosen(input, table, cs); var q := ip + c.Size();
             && Rolled(input, q, hval')
             && htab' == (if c.Byte? || q + 2 >= |input| then Enter(input, htab, ip)
                          else Enter(input, Enter(input, Enter(input, htab, ip), q - 2), q - 1))
             && Legal(input, cs)
             && |Written(input, cs)| + (if c.Match? then 4 else Header(input, cs)) < outLen
    ensures var c := Chosen(input, table, cs);
            Current(input, table, outLen, cs + [c], ip + c.Size(), hval', htab')
  {
    hide Chosen, Enter, Legal, Written, Header;
    var c := Chosen(input, table, cs);
    ParseNext(input, table, cs);
    assert (cs + [c])[..|cs|] == cs;
  }

  /** There is no room for the next choice. */
  lemma Cramped(input: seq<byte>, table: Table, outLen: nat, cs: seq<Choice>, ip: nat, hval: int, htab: seq<int>)
    requires Current(input, table, outLen, cs, ip, hval, htab) && ip + 2 < |input| && Legal(input, cs)
    requires |Written(input, cs)| + (if Chosen(input, table, cs).Match? then 4 else Header(input, cs)) >= outLen
    ensures !Roomy(input, table, [], outLen)
  {
    hide Chosen, Legal, Written, Header, TableAfter, Parse;
  }

  /** What has been written, and the length of it. */
  lemma WrittenLength(input: seq<byte>, cs: seq<Choice>, lit: nat, o: seq<byte>)
    requires Pending(input, cs, lit, o)
    ensures Legal(input, cs) && |Written(input, cs)| + Header(input, cs) == |o|
  {
    hide Serialise;
    RunCloses(Tokens(input, cs), lit, o);
  }

  lemma Pended(input: seq<byte>, cs: seq<Choice>, lit: nat, o: seq<byte>)
    requires Pending(input, cs, lit, o)
    ensures Legal(input, cs) && Laid(Tokens(input, cs), lit, o)
    ensures |o| <= Reach(cs) + Reach(cs) / 32 + 1
    ensures |o| - lit - 1 <= (Reach(cs) - lit) + (Reach(cs) - lit) / 32 && lit <= Reach(cs)
  {
  }

  lemma PendedLength(input: seq<byte>, cs: seq<Choice>, lit: nat, o: seq<byte>)
    requires Pending(input, cs, lit, o)
    ensures |o| <= Reach(cs) + Reach(cs) / 32 + 1
  {
  }

  lemma NothingPending(input: seq<byte>, o: seq<byte>)
    requires |o| == 1
    ensures Pending(input, [], 0, o)
  {
  }

  /** The last two places of a match are entered, and the rolling hash starts again (lines 236-250). */
  method Reenter(input: seq<byte>, ip: nat, htab: array<int>) returns (hval: int)
    requires 2 <= ip && ip + 2 < |input| && htab.Length == HSIZE
    modifies htab
    ensures htab[..] == Enter(input, Enter(input, old(htab[..]), ip - 2), ip - 1)
    ensures Rolled(input, ip, hval)
  {
    hide Idx, Next, HashOf;
    hval := Frst(input[ip - 2], input[ip - 1]);
    RollingHash(hval, input[ip - 2], input[ip - 1], input[ip]);
    hval := Next(hval, input[ip]);
    htab[Idx(hval)] := ip - 2;
    RollingHash(hval, input[ip - 1], input[ip], input[ip + 1]);
    hval := Next(hval, input[ip + 1]);
    htab[Idx(hval)] := ip - 1;
  }

  /** A match is taken at `ip`, which has been entered (lines 167-251). */
  method TakeMatch(input: seq<byte>, ghost table: Table, ghost cs: seq<Choice>, ip: nat, ref: nat, lit: nat,
                   out: array<byte>, op: nat, htab: array<int>, hval: int, ghost hval0: int, ghost htab0: seq<int>)
    returns (fits: bool, ip': nat, op': nat, hval': int)
    requires 0 < op <= out.Length && htab.Length == HSIZE && ip + 2 < |input| && hval >= 0
    requires Pending(input, cs, lit, out[..op]) && Current(input, table, out.Length - 1, cs, ip, hval0, htab0)
    requires |htab0| == HSIZE && htab[..] == Enter(input, htab0, ip) && Candidate(input, ref, ip) && ip == Reach(cs)
    requires Chosen(input, table, cs) == Match(ref, Common(input, ref, ip, 3, Limit(|input| - ip)))
    modifies out, htab
    ensures ip + ip / 32 + 6 < out.Length ==> fits
    ensures !fits ==> !Roomy(input, table, [], out.Length - 1)
    ensures fits ==> ip < ip' <= |input| && 0 < op' < out.Length && out[out.Length - 1] == old(out[out.Length - 1])
    ensures var cs' := cs + [Chosen(input, table, cs)];
            fits ==>
              && Pending(input, cs', 0, out[..op'])
              && Current(input, table, out.Length - 1, cs', ip', hval', htab[..])
  {
    hide Pending, Legal, Current, Roomy, Parse, Chosen, Enter, Candidate, Written, Header, Common, Rolled;
    fits, ip', op' := EmitMatch(input, cs, ip, ref, lit, out, op);
    hval' := hval;
    if fits {
      if ip' < |input| - 2 { hval' := Reenter(input, ip', htab); } else { Beyond(input, ip', hval); }
      Advance(input, table, out.Length - 1, cs, ip, hval0, htab0, hval', htab[..]);
    } else {
      Cramped(input, table, out.Length - 1, cs, ip, hval0, htab0);
    }
  }

  lemma Beyond(input: seq<byte>, ip: nat, hval: int)
    requires hval >= 0 && ip + 2 >= |input|
    ensures Rolled(input, ip, hval)
  {
  }

  /** A literal byte is taken at `ip`, which has been entered (lines 253-274). */
  method TakeByte(input: seq<byte>, ghost table: Table, ghost cs: seq<Choice>, ip: nat, lit: nat,
                  out: array<byte>, op: nat, htab: array<int>, hval: int, ghost hval0: int, ghost htab0: seq<int>)
    returns (fits: bool, lit': nat, op': nat)
    requires 0 < op <= out.Length && htab.Length == HSIZE && ip + 2 < |input| && Rolled(input, ip + 1, hval)
    requires Pending(input, cs, lit, out[..op]) && Current(input, table, out.Length - 1, cs, ip, hval0, htab0)
    requires |htab0| == HSIZE && htab[..] == Enter(input, htab0, ip) && ip == Reach(cs)
    requires Chosen(input, table, cs) == Choice.Byte
    modifies out
    ensures op < out.Length - 1 ==> fits
    ensures !fits ==> !Roomy(input, table, [], out.Length - 1)
    ensures fits ==> 0 < op' <= out.Length && out[out.Length - 1] == old(out[out.Length - 1])
    ensures var cs' := cs + [Chosen(input, table, cs)];
            fits ==>
              && Pending(input, cs', lit', out[..op'])
              && Current(input, table, out.Length - 1, cs', ip + 1, hval, htab[..])
  {
    hide Pending, Legal, Current, Roomy, Parse, Chosen, Enter, Written, Header, Rolled;
    WrittenLength(input, cs, lit, out[..op]);
    fits, lit', op' := op < out.Length - 1, lit, op;
    if fits {
      lit', op' := PutLiteral(input, cs, ip, lit, out, op);
      Advance(input, table, out.Length - 1, cs, ip, hval0, htab0, hval, htab[..]);
    } else {
      Cramped(input, table, out.Length - 1, cs, ip, hval0, htab0);
    }
  }

  /** The main loop (lines 146-275), up to the last two bytes of the input. */
  method Scan(input: seq<byte>, out: array<byte>, htab: array<int>)
    returns (fits: bool, ghost cs: seq<Choice>, ip: nat, lit: nat, op: nat)
    requires input != [] && out.Length >= 2 && htab.Length == HSIZE
    modifies out, htab
    ensures Ample(|input|, out.Length - 1) ==> fits
    ensures fits ==> |input| - 2 <= ip <= |input| && 1 <= op <= out.Length
    ensures fits ==> Pending(input, cs, lit, out[..op]) && ip == Reach(cs)
    ensures fits ==> Parse(input, old(htab[..]), cs) == Parse(input, old(htab[..]), [])
    ensures Roomy(input, old(htab[..]), [], out.Length - 1) <==> fits && op + 3 <= out.Length - 1
    ensures fits ==> out[out.Length - 1] == old(out[out.Length - 1])
  {
    hide Pending, Legal, Current, Roomy, Parse, Chosen, Enter, Candidate, Written, Header, Idx, Next, Slot, Common;
    hide Rolled, SameStart;
    ghost var table := htab[..];
    fits, cs, ip, lit, op := true, [], 0, 0, 1;
    NothingPending(input, out[..op]);
    var hval := if |input| > 1 then Frst(input[0], input[1]) else 0;
    CurrentStart(input, table, out.Length - 1, hval);
    while ip < |input| - 2
      invariant 0 <= ip <= |input| && 1 <= op <= out.Length && fits
      invariant Pending(input, cs, lit, out[..op]) && Current(input, table, out.Length - 1, cs, ip, hval, htab[..])
      invariant out[out.Length - 1] == old(out[out.Length - 1])
      decreases |input| - ip
    {
      ghost var hval0, htab0 := hval, htab[..];
      Look(input, table, out.Length - 1, cs, ip, hval, htab[..]);
      PendedLength(input, cs, lit, out[..op]);
      ghost var c := Chosen(input, table, cs);
      hval := Next(hval, input[ip + 2]);
      var slot := Idx(hval);
      var ref := htab[slot];
      htab[slot] := ip;
      Entered(input, htab0, ip);
      if 0 <= ip - ref - 1 < MAX_OFF && ip + 4 < |input| && ref > 0 && SameStart(input, ref, ip) {
        IsCandidate(input, ref, ip);
        fits, ip, op, hval := TakeMatch(input, table, cs, ip, ref, lit, out, op, htab, hval, hval0, htab0);
        if !fits { return; }
        lit := 0;
      } else {
        NoCandidate(input, ref, ip);
        fits, lit, op := TakeByte(input, table, cs, ip, lit, out, op, htab, hval, hval0, htab0);
        if !fits { return; }
        ip := ip + 1;
      }
      cs := cs + [c];
    }
    Through(input, table, out.Length - 1, cs, ip, hval, htab[..]);
    WrittenLength(input, cs, lit, out[..op]);
  }

  lemma Entered(input: seq<byte>, t: Table, p: nat)
    requires p + 2 < |input|
    ensures t[Slot(input, p) := p] == Enter(input, t, p)
  {
  }

  lemma IsCandidate(input: seq<byte>, ref: nat, ip: nat)
    requires 0 < ref < ip && ip - ref - 1 < MAX_OFF && ip + 4 < |input| && SameStart(input, ref, ip)
    ensures Candidate(input, ref, ip)
  {
  }

  lemma NoCandidate(input: seq<byte>, ref: int, ip: nat)
    requires !(0 <= ip - ref - 1 < MAX_OFF && ip + 4 < |input| && ref > 0 && SameStart(input, ref, ip))
    ensures !Candidate(input, ref, ip)
  {
  }

  /** The main loop is over. */
  lemma Through(input: seq<byte>, table: Table, outLen: nat, cs: seq<Choice>, ip: nat, hval: int, htab: seq<int>)
    requires Current(input, table, outLen, cs, ip, hval, htab) && ip + 2 >= |input|
    ensures Legal(input, cs) && ip == Reach(cs) && Parse(input, table, cs) == Parse(input, table, [])
    ensures Roomy(input, table, [], outLen) <==> |Written(input, cs)| + Header(input, cs) + 3 <= outLen
  {
    hide Parse, Legal, Written, Header, TableAfter;
  }

  /** The bytes that are left, and the end of the last run (lines 280-294). */
  method Finish(input: seq<byte>, ghost table: Table, ghost cs0: seq<Choice>, ip0: nat, lit0: nat, out: array<byte>,
                op0: nat)
    returns (n: nat)
    requires |input| - 2 <= ip0 <= |input| && 1 <= op0 && op0 + 3 < out.Length
    requires Pending(input, cs0, lit0, out[..op0]) && ip0 == Reach(cs0)
    requires Parse(input, table, cs0) == Parse(input, table, [])
    modifies out
    ensures n < out.Length && out[..n] == Stream(input, table)
    ensures n <= |input| + (|input| + 31) / 32
    ensures out[out.Length - 1] == old(out[out.Length - 1])
  {
    hide Pending, Legal, Parse, Chosen, Serialise;
    var ip: nat, lit: nat, op: nat := ip0, lit0, op0;
    ghost var cs := cs0;
    while ip < |input|
      invariant ip0 <= ip <= |input| && ip == Reach(cs) && 1 <= op < out.Length
      invariant op <= op0 + (ip - ip0) + (if lit < ip - ip0 then 1 else 0)
      invariant Pending(input, cs, lit, out[..op]) && Parse(input, table, cs) == Parse(input, table, [])
      invariant out[out.Length - 1] == old(out[out.Length - 1])
    {
      Pended(input, cs, lit, out[..op]);
      TailIsCopied(input, table, cs);
      ParseNext(input, table, cs);
      lit, op := PutLiteral(input, cs, ip, lit, out, op);
      ip, cs := ip + 1, cs + [Choice.Byte];
    }
    Pended(input, cs, lit, out[..op]);
    ParseDone(input, table, cs);
    n := StopRun(Tokens(input, cs), lit, out, op);
  }

  lemma TailIsCopied(input: seq<byte>, table: Table, cs: seq<Choice>)
    requires Reach(cs) < |input| <= Reach(cs) + 2
    ensures Chosen(input, table, cs) == Choice.Byte
  {
  }

  lemma ParseDone(input: seq<byte>, table: Table, cs: seq<Choice>)
    requires Legal(input, cs) && Reach(cs) == |input| && Parse(input, table, cs) == Parse(input, table, [])
    ensures AllValid(Tokens(input, cs)) && Stream(input, table) == Serialise(Tokens(input, cs))
  {
    LegalEncodes(input, cs);
  }

  /** What follows for the result from the greedy reading. */
  lemma PackedProps(input: seq<byte>, table: Table, outLen: nat)
    ensures var s := Packed(input, table, outLen);
            && (s != [] ==> s == Stream(input, table) && Encoded(s, input))
            && (input != [] && outLen > 0 ==> (s != [] <==> Roomy(input, table, [], outLen)))
            && (input == [] || outLen == 0 ==> s == [])
            && (input != [] && |Stream(input, table)| + 4 <= outLen ==> s != [])
            && (Repeated(input) && |input| >= 16 && outLen >= |input| - 4 ==> 0 < |s| <= 3 * (|input| / 264) + 9)
  {
    hide Roomy, Stream, Repeated;
    StreamSome(input, table);
    if input != [] && |Stream(input, table)| + 4 <= outLen { StreamFits(input, table, outLen); }
    if Repeated(input) && |input| >= 16 && outLen >= |input| - 4 { RepeatedShrinks(input, table, outLen); }
  }

  /** The output is the stream for the greedy reading of the input, or nothing if some test on the room
      fails.  The stream encodes the input, and exceeds it by at most one byte in 32 (rounded up);
      and with four bytes more than that the compressor always succeeds. */
  method Compress(input: seq<byte>, out: array<byte>, outLen: nat, htab: array<int>) returns (n: nat)
    requires out.Length == outLen + 1 && htab.Length == HSIZE
    modifies out, htab
    ensures n <= outLen && out[..n] == Packed(input, old(htab[..]), outLen)
    ensures n > 0 ==> Encoded(out[..n], input)
    ensures n > 0 ==> n <= |input| + (|input| + 31) / 32
    ensures n > 0 ==> out[outLen] == old(out[outLen])
    ensures input == [] || outLen == 0 ==> n == 0
    ensures input != [] && Ample(|input|, outLen) ==> n > 0
    ensures input != [] && |Stream(input, old(htab[..]))| + 4 <= outLen ==> n > 0
    ensures Repeated(input) && |input| >= 16 && outLen >= |input| - 4 ==> 0 < n <= 3 * (|input| / 264) + 9
  {
    hide Roomy, Stream, Parse, Legal, Pending, Repeated, Packed;
    PackedProps(input, htab[..], outLen);
    if |input| == 0 || outLen == 0 { return 0; }
    ghost var table := htab[..];
    ghost var cs;
    var fits, ip, lit, op;
    fits, cs, ip, lit, op := Scan(input, out, htab);
    if !fits { return 0; }
    Pended(input, cs, lit, out[..op]);
    if op + 3 > outLen { return 0; }
    n := Finish(input, table, cs, ip, lit, out, op);
  }
}
