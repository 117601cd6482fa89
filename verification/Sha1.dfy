/** The streaming interface: a context that takes a message piece by piece. */
module Sha1 {
  import opened Sha1Spec
  import opened Sha1Transform

  const Two32: nat := 0x1_0000_0000
  const Two64: nat := 0x1_0000_0000_0000_0000

  // -------------------------------------------------------------------------- the counter

  function Whole(s: seq<Byte>): (n: nat)
    ensures n <= |s| && n % 64 == 0 && |s| - n < 64
  {
    |s| - |s| % 64
  }

  /** The counter holds the number of bits, modulo 2^64. */
  predicate Counts(count0: nat, count1: nat, n: nat) {
    count0 < Two32 && count1 < Two32 && count0 + Two32 * count1 == 8 * n % Two64
  }

  function NewLow(count0: nat, len: nat): nat { (count0 + 8 * len % Two32) % Two32 }
  function NextHigh(count1: nat): nat { (count1 + 1) % Two32 }
  function NewHigh(count1: nat, len: nat): nat { (count1 + len / 0x2000_0000) % Two32 }

  /** The carry shows as a sum that is less than one of its terms. */
  lemma CountAdd(count0: nat, count1: nat, n: nat, len: nat)
    requires Counts(count0, count1, n) && len < Two32
    ensures var low := NewLow(count0, len);
            Counts(low, NewHigh(if low < count0 then NextHigh(count1) else count1, len), n + len)
  {
    var add, up := 8 * len % Two32, len / 0x2000_0000;
    assert 8 * len == add + Two32 * up;
    var low := NewLow(count0, len);
    var carry := if low < count0 then 1 else 0;
    LowAdds(count0, len);
    HighAdds(count1, carry == 1, len);
    hide NewLow, NewHigh, NextHigh;
    Split64(count0 + add, count1 + up, low, carry, (count1 + carry + up) % Two32);
    Sum64(8 * n, count0 + Two32 * count1, 8 * len);
  }

  lemma LowAdds(count0: nat, len: nat)
    requires count0 < Two32
    ensures NewLow(count0, len) < Two32
    ensures count0 + 8 * len % Two32 == NewLow(count0, len) + Two32 * (if NewLow(count0, len) < count0 then 1 else 0)
  {
    LowCarry(count0, 8 * len % Two32);
  }

  lemma HighAdds(count1: nat, carries: bool, len: nat)
    requires count1 < Two32
    ensures NewHigh(if carries then NextHigh(count1) else count1, len)
         == (count1 + (if carries then 1 else 0) + len / 0x2000_0000) % Two32
  {
    HighWrap(count1, if carries then 1 else 0, len / 0x2000_0000);
  }

  lemma LowCarry(x: nat, y: nat)
    requires x < Two32 && y < Two32
    ensures var low := (x + y) % Two32; x + y == low + Two32 * (if low < x then 1 else 0)
  {
  }

  lemma HighWrap(x: nat, carry: nat, y: nat)
    requires x < Two32 && carry <= 1
    ensures ((x + carry) % Two32 + y) % Two32 == (x + carry + y) % Two32
    ensures carry == 0 ==> (x + y) % Two32 == (x + carry + y) % Two32
  {
  }

  lemma Split64(x: nat, y: nat, low: nat, carry: nat, high: nat)
    requires x == low + Two32 * carry && low < Two32 && high == (y + carry) % Two32
    ensures low + Two32 * high == (x + Two32 * y) % Two64
  {
    var q := (y + carry) / Two32;
    assert x + Two32 * y == low + Two32 * high + Two64 * q;
  }

  lemma Sum64(x: nat, r: nat, y: nat)
    requires r == x % Two64
    ensures (r + y) % Two64 == (x + y) % Two64
  {
    assert x + y == r + y + Two64 * (x / Two64);
  }

  /** Bits 3 to 8 of the counter are the number of bytes in the buffer. */
  lemma CountPosition(count0: nat, count1: nat, n: nat)
    requires Counts(count0, count1, n)
    ensures count0 / 8 % 64 == n % 64
  {
    var q := 8 * n / Two64;
    assert 8 * n == count0 + Two32 * count1 + Two64 * q;
    assert n == count0 / 8 + 64 * (0x80_0000 * count1 + 0x80_0000 * Two32 * q);
    Mod64(count0 / 8, 0x80_0000 * count1 + 0x80_0000 * Two32 * q);
  }

  lemma Mod64(r: nat, q: nat)
    ensures (r + 64 * q) % 64 == r % 64
  {
  }

  // --------------------------------------------------------------------------- the buffer

  /** The state has taken in all whole blocks of the message; the buffer starts with the rest. */
  ghost predicate Absorbed(state: Hash, buffer: seq<Byte>, s: seq<Byte>) {
    |buffer| == 64 && state == HashBlocks(Initial, s[..Whole(s)]) && buffer[..|s| % 64] == s[Whole(s)..]
  }

  /** The state has taken in the blocks of `s` before `p`. */
  ghost predicate Hashed(state: Hash, s: seq<Byte>, p: nat) {
    p <= |s| && p % 64 == 0 && state == HashBlocks(Initial, s[..p])
  }

  lemma NextBlock(s: seq<Byte>, p: nat)
    requires p % 64 == 0 && p + 64 <= |s|
    ensures HashBlocks(Initial, s[..p + 64]) == Compress(HashBlocks(Initial, s[..p]), s[p..p + 64])
  {
    hide Compress;
    var t := s[..p + 64];
    assert t[..|t| - 64] == s[..p] && t[|t| - 64..] == s[p..p + 64];
  }

  lemma BufferFilled(state: Hash, buffer: seq<Byte>, m: seq<Byte>, data: seq<Byte>)
    requires Absorbed(state, buffer, m) && |m| % 64 + |data| >= 64
    ensures var i := 64 - |m| % 64;
            buffer[..|m| % 64] + data[..i] == (m + data)[Whole(m)..Whole(m) + 64]
            && Compress(state, buffer[..|m| % 64] + data[..i]) == HashBlocks(Initial, (m + data)[..|m| + i])
  {
    hide Compress, HashBlocks;
    var s, w, i := m + data, Whole(m), 64 - |m| % 64;
    assert s[w..w + 64] == m[w..] + data[..i];
    assert s[..w] == m[..w];
    NextBlock(s, w);
  }

  lemma Rest(buffer: seq<Byte>, m: seq<Byte>, data: seq<Byte>, state: Hash, i: nat)
    requires i <= |data| < i + 64 && |buffer| == 64 && Hashed(state, m + data, |m| + i)
    requires buffer[..|data| - i] == data[i..]
    ensures Absorbed(state, buffer, m + data)
  {
    hide HashBlocks;
    var s := m + data;
    assert Whole(s) == |m| + i;
    assert s[|m| + i..] == data[i..];
  }

  lemma ShortRest(buffer: seq<Byte>, after: seq<Byte>, m: seq<Byte>, data: seq<Byte>, state: Hash)
    requires Absorbed(state, buffer, m) && |m| % 64 + |data| < 64 && |after| == 64
    requires after[..|m| % 64 + |data|] == buffer[..|m| % 64] + data
    ensures Absorbed(state, after, m + data)
  {
    hide HashBlocks;
    var s := m + data;
    assert Whole(s) == Whole(m);
    assert s[..Whole(m)] == m[..Whole(m)];
    assert s[Whole(m)..] == m[Whole(m)..] + data;
  }

  /** `memcpy` into the buffer. */
  method CopyIn(buffer: array<Byte>, j: nat, src: seq<Byte>)
    requires j + |src| <= buffer.Length
    modifies buffer
    ensures buffer[..] == old(buffer[..j]) + src + old(buffer[j + |src|..])
  {
    for k := 0 to |src|
      invariant forall x :: 0 <= x < k ==> buffer[j + x] == src[x]
      invariant forall x :: 0 <= x < buffer.Length && !(j <= x < j + k) ==> buffer[x] == old(buffer[x])
    {
      buffer[j + k] := src[k];
    }
  }

  // -------------------------------------------------------------------------- the context

  class Context {
    var state: Hash
    var count0: nat
    var count1: nat
    const buffer: array<Byte>
    ghost var message: seq<Byte>

    ghost predicate Valid() reads this, buffer {
      buffer.Length == 64 && Counts(count0, count1, |message|) && Absorbed(state, buffer[..], message)
    }

    /** `SHA1Init`. */
    constructor ()
      ensures Valid() && fresh(buffer) && message == []
    {
      state := Initial;
      count0, count1 := 0, 0;
      buffer := new Byte[64];
      message := [];
    }

    method AddCount(len: nat) returns (j: nat)
      requires Counts(count0, count1, |message|) && len < Two32
      modifies this`count0, this`count1
      ensures Counts(count0, count1, |message| + len) && j == |message| % 64
    {
      CountAdd(count0, count1, |message|, len);
      CountPosition(count0, count1, |message|);
      hide Counts, NewLow, NextHigh, NewHigh;
      j := count0;
      count0 := NewLow(count0, len);
      if count0 < j { count1 := NextHigh(count1); }
      count1 := NewHigh(count1, len);
      j := j / 8 % 64;
    }

    /** `SHA1Update`; its 32-bit sums must not wrap. */
    method Update(data: seq<Byte>)
      requires Valid() && |message| % 64 + |data| < Two32
      modifies this, buffer
      ensures Valid() && message == old(message) + data
    {
      hide Counts, Absorbed, HashBlocks, Compress, Hashed;
      ghost var m := message;
      var len := |data|;
      var j := AddCount(len);
      if (j + len) % Two32 > 63 {
        FirstBlock(data, j);
        var i := MoreBlocks(data, 64 - j, j);
        CopyIn(buffer, 0, data[i..]);
        assert buffer[..len - i] == data[i..];
        Rest(buffer[..], m, data, state, i);
      } else {
        ghost var before := buffer[..];
        CopyIn(buffer, j, data);
        assert buffer[..j + len] == before[..j] + data;
        ShortRest(before, buffer[..], m, data, state);
      }
      message := m + data;
    }

    method FirstBlock(data: seq<Byte>, j: nat)
      requires buffer.Length == 64 && Absorbed(state, buffer[..], message) && j == |message| % 64 && j + |data| >= 64
      modifies this`state, buffer
      ensures Hashed(state, message + data, |message| + (64 - j))
    {
      hide Absorbed, HashBlocks, Compress;
      BufferFilled(state, buffer[..], message, data);
      ghost var head := buffer[..j];
      CopyIn(buffer, j, data[..64 - j]);
      assert buffer[..] == head + data[..64 - j];
      state := Transform(state, buffer[..]);
    }

    /** The loop over the whole blocks of the data. */
    method MoreBlocks(data: seq<Byte>, i0: nat, j: nat) returns (i: nat)
      requires i0 <= |data| && j < 64 && j + |data| < Two32 && (j + i0) % 64 == 0
      requires Hashed(state, message + data, |message| + i0)
      modifies this`state
      ensures i <= |data| < i + 64 && Hashed(state, message + data, |message| + i)
    {
      hide Hashed, Fits;
      i := i0;
      NoWrap(i, j, |data|);
      while Fits(i, |data|)
        invariant i <= |data| && (j + i) % 64 == 0 && (Fits(i, |data|) <==> i + 63 < |data|)
        invariant Hashed(state, message + data, |message| + i)
        decreases |data| - i
      {
        TakeBlock(data, i);
        i := i + 64;
        NextMultiple(j, i);
        NoWrap(i, j, |data|);
      }
    }

    method TakeBlock(data: seq<Byte>, i: nat)
      requires i + 64 <= |data| && Hashed(state, message + data, |message| + i)
      modifies this`state
      ensures Hashed(state, message + data, |message| + (i + 64))
    {
      hide HashBlocks, Compress;
      NextBlock(message + data, |message| + i);
      assert (message + data)[|message| + i..|message| + i + 64] == data[i..i + 64];
      state := Transform(state, data[i..i + 64]);
    }

    /** `SHA1Final`: of the length only 64 bits are kept, and the context is wiped. */
    method Finish() returns (digest: seq<Byte>)
      requires Valid()
      modifies this, buffer
      ensures digest == DigestOf(HashBlocks(Initial, PaddedWith(old(message), 8 * |old(message)| % Two64)))
      ensures |old(message)| < 0x2000_0000_0000_0000 ==> digest == Sha1(old(message))
      ensures Wiped()
    {
      hide Counts, Absorbed, HashBlocks, DigestOf, LengthField, ZerosNeeded;
      ghost var m, bits := message, 8 * |message| % Two64;
      assert |m| < 0x2000_0000_0000_0000 ==> bits == 8 * |m|;
      var finalcount := LengthBytes();
      PadZeros();
      Update(finalcount);
      assert message == PaddedWith(m, bits);
      AllWhole(state, buffer[..], message);
      digest := DigestOf(state);
      Wipe();
    }

    method Wipe()
      modifies this, buffer
      ensures Wiped()
    {
      for k := 0 to buffer.Length
        invariant forall x :: 0 <= x < k ==> buffer[x] == 0
      {
        buffer[k] := 0;
      }
      state, count0, count1 := Hash(0, 0, 0, 0, 0), 0, 0;
    }

    /** Nothing of the message is left. */
    ghost predicate Wiped() reads this, buffer {
      state == Hash(0, 0, 0, 0, 0) && count0 == 0 && count1 == 0 &&
      forall x :: 0 <= x < buffer.Length ==> buffer[x] == 0
    }

    method PadZeros()
      requires Valid()
      modifies this, buffer
      ensures Valid() && message == old(message) + [0x80] + Zeros(ZerosNeeded(|old(message)|))
    {
      hide Counts, Absorbed, HashBlocks;
      ghost var m := message;
      Update([0x80]);
      ghost var zeros: nat := 0;
      PositionNow();
      while 8 * (count0 / 8 % 64) != 448
        invariant Valid() && message == m + [0x80] + Zeros(zeros) && count0 / 8 % 64 == |message| % 64
        invariant zeros <= ZerosNeeded(|m|)
        decreases 64 - zeros
      {
        Update([0]);
        assert Zeros(zeros) + [0] == Zeros(zeros + 1);
        NotYet(|m|, zeros);
        zeros := zeros + 1;
        PositionNow();
      }
      JustNow(|m|, zeros);
    }

    lemma PositionNow()
      requires Valid()
      ensures count0 / 8 % 64 == |message| % 64
    {
      CountPosition(count0, count1, |message|);
    }

    /** `finalcount`: the two halves of the counter, byte by byte. */
    method LengthBytes() returns (s: seq<Byte>)
      requires Counts(count0, count1, |message|)
      ensures s == LengthField(8 * |message| % Two64)
    {
      hide ToByte;
      HalfBytes(count0, count1);
      s := [ToByte(count1 / 0x100_0000 % 256), ToByte(count1 / 0x1_0000 % 256),
            ToByte(count1 / 0x100 % 256), ToByte(count1 % 256),
            ToByte(count0 / 0x100_0000 % 256), ToByte(count0 / 0x1_0000 % 256),
            ToByte(count0 / 0x100 % 256), ToByte(count0 % 256)];
    }
  }

  lemma NotYet(n: nat, zeros: nat)
    requires zeros <= ZerosNeeded(n) && (n + 1 + zeros) % 64 != 56
    ensures zeros < ZerosNeeded(n)
  {
  }

  lemma JustNow(n: nat, zeros: nat)
    requires zeros <= ZerosNeeded(n) && (n + 1 + zeros) % 64 == 56
    ensures zeros == ZerosNeeded(n)
  {
  }

  lemma AllWhole(state: Hash, buffer: seq<Byte>, s: seq<Byte>)
    requires Absorbed(state, buffer, s) && |s| % 64 == 0
    ensures state == HashBlocks(Initial, s)
  {
    assert s[..|s|] == s;
  }

  lemma HalfBytes(low: nat, high: nat)
    requires low < Two32 && high < Two32
    ensures var n := low + Two32 * high;
            && n / 0x100_0000_0000_0000 == high / 0x100_0000 && n / 0x1_0000_0000_0000 == high / 0x1_0000
            && n / 0x100_0000_0000 == high / 0x100 && n / 0x1_0000_0000 == high
            && n / 0x100_0000 % 256 == low / 0x100_0000 % 256 && n / 0x1_0000 % 256 == low / 0x1_0000 % 256
            && n / 0x100 % 256 == low / 0x100 % 256 && n % 256 == low % 256
  {
    UpperBytes(low, high);
    LowBytes(low, high);
  }

  lemma UpperBytes(low: nat, high: nat)
    requires low < Two32
    ensures var n := low + Two32 * high;
            && n / 0x100_0000_0000_0000 == high / 0x100_0000 && n / 0x1_0000_0000_0000 == high / 0x1_0000
            && n / 0x100_0000_0000 == high / 0x100 && n / 0x1_0000_0000 == high
  {
  }

  lemma LowBytes(low: nat, high: nat)
    ensures var n := low + Two32 * high;
            && n / 0x100_0000 % 256 == low / 0x100_0000 % 256 && n / 0x1_0000 % 256 == low / 0x1_0000 % 256
            && n / 0x100 % 256 == low / 0x100 % 256 && n % 256 == low % 256
  {
    Mod256(low / 0x100_0000, high);
    Mod256(low / 0x1_0000, 0x100 * high);
    Mod256(low / 0x100, 0x1_0000 * high);
    Mod256(low, 0x100_0000 * high);
    Quotients(low, high);
  }

  lemma Mod256(r: nat, q: nat)
    ensures (r + 256 * q) % 256 == r % 256
  {
  }

  lemma Quotients(low: nat, high: nat)
    ensures var n := low + Two32 * high;
            && n / 0x100_0000 == low / 0x100_0000 + 256 * high && n / 0x1_0000 == low / 0x1_0000 + 256 * (0x100 * high)
            && n / 0x100 == low / 0x100 + 256 * (0x1_0000 * high)
  {
  }

  lemma NextMultiple(j: nat, i: nat)
    requires i >= 64 && (j + (i - 64)) % 64 == 0
    ensures (j + i) % 64 == 0
  {
  }

  lemma NoWrap(i: nat, j: nat, len: nat)
    requires i <= len && j < 64 && j + len < Two32 && (j + i) % 64 == 0
    ensures Fits(i, len) <==> i + 63 < len
  {
    assert i + 63 < Two32;
  }

  /** Another block fits, with the sum in 32 bits. */
  predicate Fits(i: nat, len: nat) { (i + 63) % Two32 < len }

  function Concat(pieces: seq<seq<Byte>>): seq<Byte> {
    if pieces == [] then [] else Concat(pieces[..|pieces| - 1]) + pieces[|pieces| - 1]
  }

  /** However a message is cut into pieces, the digest is that of the message. */
  method HashPieces(pieces: seq<seq<Byte>>) returns (digest: seq<Byte>)
    requires forall p <- pieces :: |p| < Two32 - 63
    ensures |Concat(pieces)| < 0x2000_0000_0000_0000 ==> digest == Sha1(Concat(pieces))
  {
    hide Counts, Absorbed, HashBlocks, Sha1, DigestOf, PaddedWith;
    var context := new Context();
    assert pieces[..0] == [];
    for n := 0 to |pieces|
      invariant fresh(context) && fresh(context.buffer) && context.Valid() && context.message == Concat(pieces[..n])
    {
      context.Update(pieces[n]);
      assert pieces[..n + 1][..n] == pieces[..n];
    }
    assert pieces[..|pieces|] == pieces;
    digest := context.Finish();
  }
}
