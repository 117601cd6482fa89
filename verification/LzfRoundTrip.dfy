/** The two LZF routines used together, as the RDB string code uses them. */
module LzfRoundTrip {
  import opened Bytes
  import opened LzfFormat
  import opened LzfGreedy
  import opened LzfMatches
  import opened LzfCompress
  import opened LzfDecompress

  /** Compress into a buffer of `outLen` bytes over a hash table holding `table`, then decompress
      into a buffer of `room` bytes: whatever the table held, a compressed stream comes back
      as exactly the input. */
  method RoundTrip(input: seq<byte>, outLen: nat, table: seq<int>, room: nat)
    returns (packed: seq<byte>, text: seq<byte>)
    requires |table| == HSIZE && room >= |input|
    ensures packed != [] ==> |packed| <= outLen && text == input
    ensures packed != [] ==> |packed| <= |input| + (|input| + 31) / 32
    ensures input != [] && Ample(|input|, outLen) ==> packed != []
    ensures packed == Packed(input, table, outLen)
  {
    hide Packed, Stream, Repeated;
    var htab := new int[HSIZE](i requires 0 <= i < HSIZE => table[i]);
    var out := new byte[outLen + 1](_ => 0);
    assert htab[..] == table;
    var n := Compress(input, out, outLen, htab);
    packed, text := out[..n], [];
    if n > 0 {
      DecodeIff(packed, input, room);
      var buf := new byte[room](_ => 0);
      var m, errno := Decompress(packed, buf);
      text := buf[..m];
    }
  }

  /** The result of the compressor for some contents of its table, which is not initialised. */
  ghost predicate PackedWith(s: seq<byte>, outLen: nat, packed: seq<byte>) {
    exists table: Table :: packed == Packed(s, table, outLen)
  }

  /** `rdbSaveLzfStringObject`: the stream that is written, empty when the string is to be
      stored verbatim.  What is written saves at least four bytes. */
  method SaveLzf(s: seq<byte>) returns (packed: seq<byte>)
    ensures packed != [] ==> |packed| + 4 <= |s|
    ensures |s| > 4 ==> PackedWith(s, |s| - 4, packed)
    ensures Repeated(s) && |s| >= 16 ==> packed != [] && |packed| <= 3 * (|s| / 264) + 9
    ensures packed != [] ==> Decode(packed, [], |s|) == Ok(s)
    ensures |s| <= 4 ==> packed == []
  {
    hide Packed, Stream, Repeated;
    packed := [];
    if |s| <= 4 { return; }
    var outLen := |s| - 4;
    var out := new byte[outLen + 1];
    var htab := new int[HSIZE];
    ghost var table: Table := htab[..];
    var n := Compress(s, out, outLen, htab);
    packed := out[..n];
    assert packed == Packed(s, table, |s| - 4);
    if n > 0 { DecodeIff(packed, s, |s|); }
  }

  datatype Loaded = Value(val: seq<byte>) | Failed

  /** `rdbLoadLzfStringObject`: the value has the recorded length, and loading fails
      exactly when the stream is corrupt or longer than recorded. */
  method LoadLzf(packed: seq<byte>, len: nat) returns (r: Loaded)
    requires packed != []
    ensures r.Failed? <==> !Decode(packed, [], len).Ok?
    ensures r.Value? ==> |r.val| == len && Decode(packed, [], len).text <= r.val
  {
    var val := new byte[len](_ => 0);
    var n, errno := Decompress(packed, val);
    if n == 0 {
      DecodeNonEmpty(packed, [], len);
      return Failed;
    }
    r := Value(val[..]);
    assert val[..n] <= val[..];
  }

  lemma {:induction false} DecodeNonEmpty(s: seq<byte>, text: seq<byte>, room: nat)
    ensures Decode(s, text, room).Ok? && s != [] ==> |Decode(s, text, room).text| > |text|
    decreases |s|
  {
    if s != [] && Decode(s, text, room).Ok? {
      ReadSound(s, |text|, room);
      var Got(t, k) := ReadToken(s, |text|, room);
      DecodeNonEmpty(s[k..], t.Apply(text), room);
    }
  }

  /** Saving and loading a string gives the string back. */
  method SaveLoad(s: seq<byte>) returns (packed: seq<byte>, r: Loaded)
    ensures packed != [] ==> r == Value(s)
  {
    packed := SaveLzf(s);
    r := Failed;
    if packed != [] {
      r := LoadLzf(packed, |s|);
      assert r.val == s;
    }
  }
}
