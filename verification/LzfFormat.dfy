/** The LZF stream format, independently of how a stream is produced or read.

    A stream is a list of tokens.  `Serialise` gives its bytes and `Expand` the text
    that the tokens stand for; both are defined without reference to the compressor
    or the decompressor.  `Decode` is the byte-level reading of a stream, with the two
    error results of the decompressor; the lemmas below show that it is exactly the
    inverse of `Serialise` followed by `Expand`. */
module LzfFormat {
  import opened Bytes

  const MAX_LIT := 32
  const MAX_OFF := 8192
  const MAX_REF := 264

  /** `Literal(bs)` copies `bs`; `BackRef(off, len)` copies `len` bytes starting
      `off + 1` bytes back, one byte at a time, so that it may read what it writes. */
  datatype Token = Literal(bytes: seq<byte>) | BackRef(off: nat, len: nat) {
    predicate Valid() {
      match this
      case Literal(bs) => 1 <= |bs| <= MAX_LIT
      case BackRef(off, len) => off < MAX_OFF && 3 <= len <= MAX_REF
    }

    /** The token can be carried out after `text`. */
    predicate Fits(text: seq<byte>) {
      Literal? || off < |text|
    }

    function Size(): nat {
      if Literal? then |bytes| else len
    }

    function Apply(text: seq<byte>): (r: seq<byte>)
      requires Fits(text)
      ensures |r| == |text| + Size()
    {
      if Literal? then text + bytes else CopyBack(text, off, len)
    }

    function Bytes(): (bs: seq<byte>)
      requires Valid()
      ensures |bs| >= 2
    {
      match this
      case Literal(lit) => [|lit| - 1] + lit
      case BackRef(off, len) =>
        if len - 2 < 7
        then [off / 256 + (len - 2) * 32, off % 256]
        else [off / 256 + 7 * 32, len - 9, off % 256]
    }
  }

  predicate AllValid(ts: seq<Token>) {
    forall t :: t in ts ==> t.Valid()
  }

  function Serialise(ts: seq<Token>): (bs: seq<byte>)
    requires AllValid(ts)
  {
    if ts == [] then [] else ts[0].Bytes() + Serialise(ts[1..])
  }

  /** `len` bytes of an overlapping copy from `off + 1` back. */
  function CopyBack(text: seq<byte>, off: nat, len: nat): (r: seq<byte>)
    requires off < |text|
    ensures |r| == |text| + len
    decreases len
  {
    if len == 0 then text else CopyBack(text + [text[|text| - 1 - off]], off, len - 1)
  }

  /** Every back reference stays inside the text produced before it. */
  predicate InRange(text: seq<byte>, ts: seq<Token>)
    decreases |ts|
  {
    ts != [] ==> ts[0].Fits(text) && InRange(ts[0].Apply(text), ts[1..])
  }

  function Expand(text: seq<byte>, ts: seq<Token>): (r: seq<byte>)
    requires InRange(text, ts)
    ensures |r| >= |text|
    decreases |ts|
  {
    if ts == [] then text else Expand(ts[0].Apply(text), ts[1..])
  }

  /** The tokens `ts` stand for `text`. */
  ghost predicate Encodes(ts: seq<Token>, text: seq<byte>) {
    AllValid(ts) && InRange([], ts) && Expand([], ts) == text
  }

  /** The bytes `s` are a well-formed stream for `text`. */
  ghost predicate Encoded(s: seq<byte>, text: seq<byte>) {
    exists ts :: Encodes(ts, text) && Serialise(ts) == s
  }

  // ---------------------------------------------------------------- appending a token

  lemma {:induction false} SerialiseSnoc(ts: seq<Token>, t: Token)
    requires AllValid(ts) && t.Valid()
    ensures AllValid(ts + [t])
    ensures Serialise(ts + [t]) == Serialise(ts) + t.Bytes()
  {
    hide Token.Bytes;
    if ts == [] {
      assert Serialise([t][1..]) == [];
      assert [] + [t] == [t];
    } else {
      SerialiseSnoc(ts[1..], t);
      assert (ts + [t])[1..] == ts[1..] + [t];
    }
  }

  lemma {:induction false} ExpandSnoc(text: seq<byte>, ts: seq<Token>, t: Token)
    requires InRange(text, ts) && t.Fits(Expand(text, ts))
    ensures InRange(text, ts + [t])
    ensures Expand(text, ts + [t]) == t.Apply(Expand(text, ts))
    decreases |ts|
  {
    if ts == [] {
      assert (ts + [t])[1..] == [];
    } else {
      assert (ts + [t])[1..] == ts[1..] + [t];
      ExpandSnoc(ts[0].Apply(text), ts[1..], t);
    }
  }

  lemma EncodedEmpty()
    ensures Encoded([], [])
  {
    assert Encodes([], []);
  }

  /** Tokens for a text are extended by a token. */
  lemma EncodesSnoc(ts: seq<Token>, text: seq<byte>, t: Token)
    requires Encodes(ts, text) && t.Valid() && t.Fits(text)
    ensures Encodes(ts + [t], t.Apply(text)) && Serialise(ts + [t]) == Serialise(ts) + t.Bytes()
  {
    SerialiseSnoc(ts, t);
    ExpandSnoc([], ts, t);
  }

  /** A run of `text` that repeats with period `off + 1` is what the overlapping copy yields. */
  lemma {:induction false} CopyBackRepeats(text: seq<byte>, from: nat, off: nat, len: nat)
    requires off < from && from + len <= |text|
    requires forall i :: from <= i < from + len ==> text[i] == text[i - off - 1]
    ensures CopyBack(text[..from], off, len) == text[..from + len]
    decreases len
  {
    if len != 0 {
      var t := text[..from];
      assert t + [t[|t| - 1 - off]] == text[..from + 1];
      CopyBackRepeats(text, from + 1, off, len - 1);
    }
  }

  // ------------------------------------------------------------------------- decoding

  datatype Result = Ok(text: seq<byte>) | TooBig | Invalid

  /** Length and offset carried by a back reference with control byte `ctrl`. */
  function RefLen(ctrl: int, ext: int): int { (if ctrl / 32 == 7 then 7 + ext else ctrl / 32) + 2 }

  function RefOff(ctrl: int, low: int): int { ctrl % 32 * 256 + low }

  function RefHdr(ctrl: int): nat { if ctrl / 32 == 7 then 3 else 2 }

  datatype Reading = Got(token: Token, size: nat) | Stop(error: Result)

  /** The first token of `s`, when `have` bytes have been produced and `room` are allowed;
      the errors come in the order in which the decompressor tests for them. */
  function ReadToken(s: seq<byte>, have: nat, room: nat): (r: Reading)
    requires s != []
  {
    if s[0] < 32 then
      var n: int := s[0] + 1;
      if have + n > room then Stop(TooBig)
      else if 1 + n > |s| then Stop(Invalid)
      else Got(Literal(s[1..1 + n]), 1 + n)
    else
      var hdr := RefHdr(s[0]);
      if |s| < hdr then Stop(Invalid)
      else
        var len := RefLen(s[0], s[1]);
        var off := RefOff(s[0], s[hdr - 1]);
        if have + len > room then Stop(TooBig)
        else if off >= have then Stop(Invalid)
        else Got(BackRef(off, len), hdr)
  }

  lemma StopIsError(s: seq<byte>, have: nat, room: nat)
    requires s != []
    ensures ReadToken(s, have, room).Stop? ==> !ReadToken(s, have, room).error.Ok?
  {
  }

  /** What is read is a token followed by the rest of the stream. */
  lemma ReadSound(s: seq<byte>, have: nat, room: nat)
    requires s != [] && ReadToken(s, have, room).Got?
    ensures var Got(t, k) := ReadToken(s, have, room);
            t.Valid() && 0 < k <= |s| && t.Bytes() == s[..k] && have + t.Size() <= room
            && (t.BackRef? ==> t.off < have)
  {
    if s[0] >= 32 {
      var hdr := RefHdr(s[0]);
      var off := RefOff(s[0], s[hdr - 1]);
      assert off / 256 == s[0] % 32 && off % 256 == s[hdr - 1];
    }
  }

  /** A token that was written is read. */
  lemma ReadComplete(t: Token, rest: seq<byte>, have: nat, room: nat)
    requires t.Valid()
    ensures ReadToken(t.Bytes() + rest, have, room) ==
            if have + t.Size() > room then Stop(TooBig)
            else if t.BackRef? && t.off >= have then Stop(Invalid)
            else Got(t, |t.Bytes()|)
  {
    var s := t.Bytes() + rest;
    match t {
      case Literal(bs) =>
        assert s[1..1 + |bs|] == bs;
      case BackRef(off, len) =>
        assert off / 256 < 32;
        if len - 2 < 7 {
          assert s[0] == (len - 2) * 32 + off / 256;
          assert s[0] / 32 == len - 2 && s[0] % 32 == off / 256;
        } else {
          assert s[0] / 32 == 7 && s[0] % 32 == off / 256;
        }
    }
  }

  /** Reading a stream: `text` has been produced so far, `s` is still to be read. */
  function Decode(s: seq<byte>, text: seq<byte>, room: nat): (r: Result)
    decreases |s|
  {
    if s == [] then Ok(text) else
    match ReadToken(s, |text|, room)
    case Stop(error) => error
    case Got(t, k) => ReadSound(s, |text|, room); Decode(s[k..], t.Apply(text), room)
  }

  /** Whatever has been serialised is read back, if there is room for it. */
  lemma {:induction false} DecodeSerialise(ts: seq<Token>, text: seq<byte>, room: nat)
    requires AllValid(ts) && InRange(text, ts) && |text| <= room
    ensures Decode(Serialise(ts), text, room) ==
            if |Expand(text, ts)| <= room then Ok(Expand(text, ts)) else TooBig
    decreases |ts|
  {
    if ts != [] {
      var rest := Serialise(ts[1..]);
      ReadComplete(ts[0], rest, |text|, room);
      assert (ts[0].Bytes() + rest)[|ts[0].Bytes()|..] == rest;
      if |text| + ts[0].Size() <= room {
        DecodeSerialise(ts[1..], ts[0].Apply(text), room);
      }
    }
  }

  /** Conversely, a stream that is read without error is the serialisation of some tokens. */
  lemma {:induction false} DecodeParses(s: seq<byte>, text: seq<byte>, room: nat) returns (ts: seq<Token>)
    requires Decode(s, text, room).Ok? && |text| <= room
    ensures AllValid(ts) && Serialise(ts) == s
    ensures InRange(text, ts) && Decode(s, text, room).text == Expand(text, ts)
    ensures |Expand(text, ts)| <= room
    decreases |s|
  {
    hide Token.Bytes, ReadToken;
    if s == [] {
      ts := [];
    } else {
      StopIsError(s, |text|, room);
      ReadSound(s, |text|, room);
      var Got(t, k) := ReadToken(s, |text|, room);
      hide Token.Valid;
      var tail := DecodeParses(s[k..], t.Apply(text), room);
      ts := [t] + tail;
      assert ts[1..] == tail;
      assert s == s[..k] + s[k..];
    }
  }

  /** Decoding succeeds with `text` exactly on the streams that encode `text`. */
  lemma DecodeIff(s: seq<byte>, text: seq<byte>, room: nat)
    ensures Decode(s, [], room) == Ok(text) <==>
            |text| <= room && Encoded(s, text)
  {
    if Decode(s, [], room) == Ok(text) {
      var ts := DecodeParses(s, [], room);
      assert Encodes(ts, text);
    }
    if |text| <= room && Encoded(s, text) {
      var ts :| Encodes(ts, text) && Serialise(ts) == s;
      DecodeSerialise(ts, [], room);
    }
  }
}
