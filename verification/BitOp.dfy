/** BITOP: strings combined bit by bit, in blocks of four words as long as all of them last. */
module BitOp {
  import opened Bits
  import opened BitWords

  datatype Op = And | Or | Xor | Not

  function And8(x: Byte, y: Byte): Byte { x & y }
  function Or8(x: Byte, y: Byte): Byte { x | y }
  function Xor8(x: Byte, y: Byte): Byte { x ^ y }
  function And64(x: bv64, y: bv64): bv64 { x & y }
  function Or64(x: bv64, y: bv64): bv64 { x | y }
  function Xor64(x: bv64, y: bv64): bv64 { x ^ y }

  function Op8(op: Op, x: Byte, y: Byte): Byte {
    match op case And => And8(x, y) case Or => Or8(x, y) case Xor => Xor8(x, y) case Not => x
  }

  function Op64(op: Op, x: bv64, y: bv64): bv64 {
    match op case And => And64(x, y) case Or => Or64(x, y) case Xor => Xor64(x, y) case Not => x
  }

  function Flip8(x: Byte): Byte { !x }
  function Flip64(x: bv64): bv64 { !x }

  function ByteOr0(s: seq<Byte>, j: nat): Byte { if j < |s| then s[j] else 0 }

  /** Byte `j` of the first `n` strings, combined; a string that has ended counts as zeros. */
  function Combined(op: Op, srcs: seq<seq<Byte>>, n: nat, j: nat): Byte
    requires 1 <= n <= |srcs|
  {
    if n > 1 then Op8(op, Combined(op, srcs, n - 1, j), ByteOr0(srcs[n - 1], j))
    else if op.Not? then Flip8(ByteOr0(srcs[0], j))
    else ByteOr0(srcs[0], j)
  }

  // ---------------------------------------------------------------- the result, bit by bit

  /** Bit `q` is set; a string that has ended counts as zeros. */
  predicate Has(s: seq<Byte>, q: nat) { q < 8 * |s| && BitAt(s, q) }

  /** An odd number of the first `n` strings have bit `q`. */
  predicate Odd(srcs: seq<seq<Byte>>, n: nat, q: nat)
    requires n <= |srcs|
  {
    n > 0 && (Odd(srcs, n - 1, q) != Has(srcs[n - 1], q))
  }

  /** Bit `q` of the combination of the first `n` strings. */
  ghost predicate Means(op: Op, srcs: seq<seq<Byte>>, n: nat, q: nat)
    requires 1 <= n <= |srcs|
  {
    match op
    case And => forall i :: 0 <= i < n ==> Has(srcs[i], q)
    case Or => exists i :: 0 <= i < n && Has(srcs[i], q)
    case Xor => Odd(srcs, n, q)
    case Not => !Has(srcs[0], q)
  }

  predicate Single8(m: Byte) {
    m == 0x80 || m == 0x40 || m == 0x20 || m == 0x10 || m == 0x08 || m == 0x04 || m == 0x02 || m == 0x01
  }

  lemma MaskSingle(k: nat)
    requires k < 8
    ensures Single8(Mask(k))
  {
  }

  lemma AndUnder(x: Byte, y: Byte, m: Byte)
    requires Single8(m)
    ensures And8(x, y) & m != 0 <==> x & m != 0 && y & m != 0
  {
  }

  lemma OrUnder(x: Byte, y: Byte, m: Byte)
    ensures Or8(x, y) & m != 0 <==> x & m != 0 || y & m != 0
  {
  }

  lemma XorUnder(x: Byte, y: Byte, m: Byte)
    requires Single8(m)
    ensures Xor8(x, y) & m != 0 <==> (x & m != 0) != (y & m != 0)
  {
  }

  lemma FlipUnder(x: Byte, m: Byte)
    requires Single8(m)
    ensures Flip8(x) & m != 0 <==> x & m == 0
    ensures (0 as Byte) & m == 0
  {
  }

  lemma BitsOfOps(x: Byte, y: Byte, k: nat)
    requires k < 8
    ensures Bit(And8(x, y), k) <==> Bit(x, k) && Bit(y, k)
    ensures Bit(Or8(x, y), k) <==> Bit(x, k) || Bit(y, k)
    ensures Bit(Xor8(x, y), k) <==> Bit(x, k) != Bit(y, k)
    ensures Bit(Flip8(x), k) <==> !Bit(x, k)
    ensures !Bit(0, k)
  {
    hide And8, Or8, Xor8, Flip8, Mask, Single8;
    var m := Mask(k);
    MaskSingle(k);
    AndUnder(x, y, m);
    OrUnder(x, y, m);
    XorUnder(x, y, m);
    FlipUnder(x, m);
  }

  lemma BitOrNone(s: seq<Byte>, j: nat, k: nat)
    requires k < 8
    ensures Bit(ByteOr0(s, j), k) <==> Has(s, 8 * j + k)
  {
    BitsOfOps(0, 0, k);
    hide Bit;
    assert (8 * j + k) / 8 == j && (8 * j + k) % 8 == k;
  }

  /** AND sets the bits that all strings have, OR those that some have, XOR those that an odd number
      have, and NOT those that the string does not have. */
  lemma {:induction false} CombinedMeans(op: Op, srcs: seq<seq<Byte>>, n: nat, j: nat, k: nat)
    requires 1 <= n <= |srcs| && k < 8 && (op.Not? ==> n == 1)
    ensures Bit(Combined(op, srcs, n, j), k) <==> Means(op, srcs, n, 8 * j + k)
  {
    hide Bit, And8, Or8, Xor8, Flip8, ByteOr0, Has;
    BitOrNone(srcs[n - 1], j, k);
    if n > 1 {
      CombinedMeans(op, srcs, n - 1, j, k);
      BitsOfOps(Combined(op, srcs, n - 1, j), ByteOr0(srcs[n - 1], j), k);
    } else {
      BitsOfOps(ByteOr0(srcs[0], j), 0, k);
      assert op.Xor? ==> !Odd(srcs, 0, 8 * j + k);
    }
  }

  lemma ResultMeans(op: Op, srcs: seq<seq<Byte>>, bytes: seq<Byte>, q: nat)
    requires |srcs| >= 1 && (op.Not? ==> |srcs| == 1) && q < 8 * |bytes|
    requires forall x :: 0 <= x < |bytes| ==> bytes[x] == Combined(op, srcs, |srcs|, x)
    ensures BitAt(bytes, q) <==> Means(op, srcs, |srcs|, q)
  {
    hide Bit, Combined, Means;
    CombinedMeans(op, srcs, |srcs|, q / 8, q % 8);
    assert 8 * (q / 8) + q % 8 == q;
  }

  // ------------------------------------------------------------- one word, byte by byte

  /** Byte `k` of a word. */
  function Part(w: bv64, k: nat): Byte
    requires k < 8
  {
    if k == 0 then First(w) else if k == 1 then First(w << 8)
    else if k == 2 then First(w << 16) else if k == 3 then First(w << 24)
    else if k == 4 then First(w << 32) else if k == 5 then First(w << 40)
    else if k == 6 then First(w << 48) else First(w << 56)
  }

  /** The bytes of a word in memory. */
  function Bytes8(w: bv64): (s: seq<Byte>)
    ensures |s| == 8
  {
    seq(8, k requires 0 <= k < 8 => Part(w, k))
  }

  lemma PartsOfCat(a: Byte, b: Byte, c: Byte, d: Byte, e: Byte, f: Byte, g: Byte, h: Byte)
    ensures var w := Cat(a, b, c, d, e, f, g, h);
            && Part(w, 0) == a && Part(w, 1) == b && Part(w, 2) == c && Part(w, 3) == d
            && Part(w, 4) == e && Part(w, 5) == f && Part(w, 6) == g && Part(w, 7) == h
  {
  }

  lemma BytesOfWord(s: seq<Byte>)
    requires |s| == 8
    ensures Bytes8(Word(s)) == s
  {
    hide Cat, Part;
    PartsOfCat(s[0], s[1], s[2], s[3], s[4], s[5], s[6], s[7]);
    forall k | 0 <= k < 8 ensures Part(Word(s), k) == s[k] { }
  }

  function Zip(op: Op, s: seq<Byte>, t: seq<Byte>): (r: seq<Byte>)
    requires |s| == |t|
    ensures |r| == |s| && forall i :: 0 <= i < |s| ==> r[i] == Op8(op, s[i], t[i])
  {
    seq(|s|, i requires 0 <= i < |s| => Op8(op, s[i], t[i]))
  }

  function FlipAll(s: seq<Byte>): (r: seq<Byte>)
    ensures |r| == |s| && forall i :: 0 <= i < |s| ==> r[i] == Flip8(s[i])
  {
    seq(|s|, i requires 0 <= i < |s| => Flip8(s[i]))
  }

  lemma AndBytes(x: bv64, y: bv64)
    ensures First(And64(x, y)) == And8(First(x), First(y))
            && First(And64(x, y) << 8) == And8(First(x << 8), First(y << 8))
    ensures First(And64(x, y) << 16) == And8(First(x << 16), First(y << 16))
            && First(And64(x, y) << 24) == And8(First(x << 24), First(y << 24))
    ensures First(And64(x, y) << 32) == And8(First(x << 32), First(y << 32))
            && First(And64(x, y) << 40) == And8(First(x << 40), First(y << 40))
    ensures First(And64(x, y) << 48) == And8(First(x << 48), First(y << 48))
            && First(And64(x, y) << 56) == And8(First(x << 56), First(y << 56))
  {
  }

  lemma AndParts(x: bv64, y: bv64, k: nat)
    requires k < 8
    ensures Part(And64(x, y), k) == And8(Part(x, k), Part(y, k))
  {
    hide First, And64, And8;
    AndBytes(x, y);
  }

  lemma OrBytes(x: bv64, y: bv64)
    ensures First(Or64(x, y)) == Or8(First(x), First(y)) && First(Or64(x, y) << 8) == Or8(First(x << 8), First(y << 8))
    ensures First(Or64(x, y) << 16) == Or8(First(x << 16), First(y << 16))
            && First(Or64(x, y) << 24) == Or8(First(x << 24), First(y << 24))
    ensures First(Or64(x, y) << 32) == Or8(First(x << 32), First(y << 32))
            && First(Or64(x, y) << 40) == Or8(First(x << 40), First(y << 40))
    ensures First(Or64(x, y) << 48) == Or8(First(x << 48), First(y << 48))
            && First(Or64(x, y) << 56) == Or8(First(x << 56), First(y << 56))
  {
  }

  lemma OrParts(x: bv64, y: bv64, k: nat)
    requires k < 8
    ensures Part(Or64(x, y), k) == Or8(Part(x, k), Part(y, k))
  {
    hide First, Or64, Or8;
    OrBytes(x, y);
  }

  lemma XorBytes(x: bv64, y: bv64)
    ensures First(Xor64(x, y)) == Xor8(First(x), First(y))
            && First(Xor64(x, y) << 8) == Xor8(First(x << 8), First(y << 8))
    ensures First(Xor64(x, y) << 16) == Xor8(First(x << 16), First(y << 16))
            && First(Xor64(x, y) << 24) == Xor8(First(x << 24), First(y << 24))
    ensures First(Xor64(x, y) << 32) == Xor8(First(x << 32), First(y << 32))
            && First(Xor64(x, y) << 40) == Xor8(First(x << 40), First(y << 40))
    ensures First(Xor64(x, y) << 48) == Xor8(First(x << 48), First(y << 48))
            && First(Xor64(x, y) << 56) == Xor8(First(x << 56), First(y << 56))
  {
  }

  lemma XorParts(x: bv64, y: bv64, k: nat)
    requires k < 8
    ensures Part(Xor64(x, y), k) == Xor8(Part(x, k), Part(y, k))
  {
    hide First, Xor64, Xor8;
    XorBytes(x, y);
  }

  lemma FlipBytes(x: bv64)
    ensures First(Flip64(x)) == Flip8(First(x)) && First(Flip64(x) << 8) == Flip8(First(x << 8))
    ensures First(Flip64(x) << 16) == Flip8(First(x << 16)) && First(Flip64(x) << 24) == Flip8(First(x << 24))
    ensures First(Flip64(x) << 32) == Flip8(First(x << 32)) && First(Flip64(x) << 40) == Flip8(First(x << 40))
    ensures First(Flip64(x) << 48) == Flip8(First(x << 48)) && First(Flip64(x) << 56) == Flip8(First(x << 56))
  {
  }

  lemma FlipParts(x: bv64, k: nat)
    requires k < 8
    ensures Part(Flip64(x), k) == Flip8(Part(x, k))
  {
    hide First, Flip64, Flip8;
    FlipBytes(x);
  }

  lemma OpParts(op: Op, x: bv64, y: bv64, k: nat)
    requires k < 8
    ensures Part(Op64(op, x, y), k) == Op8(op, Part(x, k), Part(y, k))
  {
    hide Part, And8, And64, Or8, Or64, Xor8, Xor64;
    AndParts(x, y, k);
    OrParts(x, y, k);
    XorParts(x, y, k);
  }

  lemma BytesOp(op: Op, x: bv64, y: bv64)
    ensures Bytes8(Op64(op, x, y)) == Zip(op, Bytes8(x), Bytes8(y))
    ensures Bytes8(Flip64(x)) == FlipAll(Bytes8(x))
  {
    hide Part, Op64, Op8, Flip64, Flip8;
    forall k | 0 <= k < 8
      ensures Bytes8(Op64(op, x, y))[k] == Zip(op, Bytes8(x), Bytes8(y))[k]
              && Bytes8(Flip64(x))[k] == FlipAll(Bytes8(x))[k]
    {
      OpParts(op, x, y, k);
      FlipParts(x, k);
    }
  }

  /** A word operation is eight byte operations. */
  lemma WordOp(op: Op, s: seq<Byte>, t: seq<Byte>)
    requires |s| == |t| == 8
    ensures Bytes8(Op64(op, Word(s), Word(t))) == Zip(op, s, t)
    ensures Bytes8(Flip64(Word(s))) == FlipAll(s)
  {
    hide Word, Op64, Op8, Bytes8, Flip64, Flip8;
    BytesOp(op, Word(s), Word(t));
    BytesOfWord(s);
    BytesOfWord(t);
  }

  // ----------------------------------------------------------------------- the fast path

  method Store(res: array<Byte>, at: nat, bytes: seq<Byte>)
    requires |bytes| == 8 && at + 8 <= res.Length
    modifies res
    ensures forall x :: 0 <= x < res.Length ==> res[x] == if at <= x < at + 8 then bytes[x - at] else old(res[x])
  {
    for k := 0 to 8
      invariant forall x :: 0 <= x < res.Length ==> res[x] == if at <= x < at + k then bytes[x - at] else old(res[x])
    {
      res[at + k] := bytes[k];
    }
  }

  /** `lres[k] op= lp[i][k]`. */
  method OpWord(op: Op, res: array<Byte>, src: seq<Byte>, at: nat)
    requires at + 8 <= res.Length && at + 8 <= |src|
    modifies res
    ensures forall x :: 0 <= x < res.Length ==>
              res[x] == if at <= x < at + 8 then Op8(op, old(res[x]), src[x]) else old(res[x])
  {
    hide Word, Op64, Op8, Bytes8;
    WordOp(op, res[at..at + 8], src[at..at + 8]);
    Store(res, at, Bytes8(Op64(op, Word(res[at..at + 8]), Word(src[at..at + 8]))));
  }

  /** `lres[k] = ~lres[k]`. */
  method FlipWord(res: array<Byte>, at: nat)
    requires at + 8 <= res.Length
    modifies res
    ensures forall x :: 0 <= x < res.Length ==> res[x] == if at <= x < at + 8 then Flip8(old(res[x])) else old(res[x])
  {
    hide Word, Flip64, Flip8, Bytes8;
    WordOp(Not, res[at..at + 8], res[at..at + 8]);
    Store(res, at, Bytes8(Flip64(Word(res[at..at + 8]))));
  }

  /** Four words of one more source. */
  method OpBlock(op: Op, res: array<Byte>, src: seq<Byte>, at: nat)
    requires at + 32 <= res.Length && at + 32 <= |src|
    modifies res
    ensures forall x :: 0 <= x < res.Length ==>
              res[x] == if at <= x < at + 32 then Op8(op, old(res[x]), src[x]) else old(res[x])
  {
    hide Op8;
    OpWord(op, res, src, at);
    OpWord(op, res, src, at + 8);
    OpWord(op, res, src, at + 16);
    OpWord(op, res, src, at + 24);
  }

  method FlipBlock(res: array<Byte>, at: nat)
    requires at + 32 <= res.Length
    modifies res
    ensures forall x :: 0 <= x < res.Length ==> res[x] == if at <= x < at + 32 then Flip8(old(res[x])) else old(res[x])
  {
    hide Flip8;
    FlipWord(res, at);
    FlipWord(res, at + 8);
    FlipWord(res, at + 16);
    FlipWord(res, at + 24);
  }

  /** The 32 bytes at `at` from all sources; they hold the first one's to start with. */
  method CombineBlock(op: Op, srcs: seq<seq<Byte>>, res: array<Byte>, at: nat)
    requires |srcs| >= 1 && at + 32 <= res.Length && (op.Not? ==> |srcs| == 1)
    requires forall s <- srcs :: at + 32 <= |s|
    requires forall x :: at <= x < at + 32 ==> res[x] == srcs[0][x]
    modifies res
    ensures forall x :: at <= x < at + 32 ==> res[x] == Combined(op, srcs, |srcs|, x)
    ensures forall x :: 0 <= x < res.Length && !(at <= x < at + 32) ==> res[x] == old(res[x])
  {
    hide Op8, Flip8;
    if op.Not? {
      FlipBlock(res, at);
      return;
    }
    for i := 1 to |srcs|
      invariant forall x :: at <= x < at + 32 ==> res[x] == Combined(op, srcs, i, x)
      invariant forall x :: 0 <= x < res.Length && !(at <= x < at + 32) ==> res[x] == old(res[x])
    {
      OpBlock(op, res, srcs[i], at);
    }
  }

  /** As many blocks as all sources have. */
  method FastPath(op: Op, srcs: seq<seq<Byte>>, res: array<Byte>, minlen: nat) returns (j: nat)
    requires |srcs| >= 1 && minlen <= res.Length && (op.Not? ==> |srcs| == 1)
    requires forall s <- srcs :: minlen <= |s|
    modifies res
    ensures j <= minlen < j + 32
    ensures forall x :: 0 <= x < j ==> res[x] == Combined(op, srcs, |srcs|, x)
  {
    hide Combined;
    for k := 0 to minlen
      invariant forall x :: 0 <= x < k ==> res[x] == srcs[0][x]
    {
      res[k] := srcs[0][k];
    }
    j := 0;
    while minlen - j >= 32
      invariant j <= minlen
      invariant forall x :: 0 <= x < j ==> res[x] == Combined(op, srcs, |srcs|, x)
      invariant forall x :: j <= x < minlen ==> res[x] == srcs[0][x]
    {
      CombineBlock(op, srcs, res, j);
      j := j + 32;
    }
  }

  // ------------------------------------------------------------------------ the operation

  /** One byte of the result, from all sources. */
  method CombineByte(op: Op, srcs: seq<seq<Byte>>, j: nat) returns (output: Byte)
    requires |srcs| >= 1
    ensures output == Combined(op, srcs, |srcs|, j)
  {
    hide Op8, Flip8;
    output := if |srcs[0]| <= j then 0 else srcs[0][j];
    if op.Not? { output := Flip8(output); }
    for i := 1 to |srcs|
      invariant output == Combined(op, srcs, i, j)
    {
      var byte := if |srcs[i]| <= j then 0 else srcs[i][j];
      output := Op8(op, output, byte);
    }
  }

  /** The shortest and the longest source; a key that does not exist is an empty string. */
  method Lengths(srcs: seq<seq<Byte>>) returns (minlen: nat, maxlen: nat)
    requires |srcs| >= 1
    ensures (forall s <- srcs :: minlen <= |s| <= maxlen) && (exists s <- srcs :: |s| == minlen)
            && (exists s <- srcs :: |s| == maxlen)
  {
    minlen, maxlen := |srcs[0]|, |srcs[0]|;
    assert srcs[0] in srcs;
    for j := 1 to |srcs|
      invariant forall i :: 0 <= i < j ==> minlen <= |srcs[i]| <= maxlen
      invariant (exists s <- srcs :: |s| == minlen) && (exists s <- srcs :: |s| == maxlen)
    {
      assert srcs[j] in srcs;
      if |srcs[j]| > maxlen { maxlen := |srcs[j]|; }
      if |srcs[j]| < minlen { minlen := |srcs[j]|; }
    }
  }

  /** The result is as long as the longest source, and each byte is the combination of the
      sources' bytes at its place. */
  method Compute(op: Op, srcs: seq<seq<Byte>>) returns (res: array<Byte>)
    requires |srcs| >= 1 && (op.Not? ==> |srcs| == 1)
    ensures (forall s <- srcs :: |s| <= res.Length) && exists s <- srcs :: |s| == res.Length
    ensures forall x :: 0 <= x < res.Length ==> res[x] == Combined(op, srcs, |srcs|, x)
  {
    hide Combined;
    var minlen, maxlen := Lengths(srcs);
    res := new Byte[maxlen];
    var j := 0;
    if minlen >= 32 && |srcs| <= 16 {
      j := FastPath(op, srcs, res, minlen);
    }
    while j < maxlen
      invariant j <= maxlen == res.Length
      invariant forall x :: 0 <= x < j ==> res[x] == Combined(op, srcs, |srcs|, x)
    {
      res[j] := CombineByte(op, srcs, j);
      j := j + 1;
    }
  }

  datatype BitopReply = NotTakesOneKey | Stored(bytes: seq<Byte>)

  /** The command: NOT is refused unless it is given one key. */
  method Command(op: Op, srcs: seq<seq<Byte>>) returns (r: BitopReply)
    requires |srcs| >= 1
    ensures r.NotTakesOneKey? <==> op.Not? && |srcs| != 1
    ensures r.Stored? ==> (forall s <- srcs :: |s| <= |r.bytes|) && exists s <- srcs :: |s| == |r.bytes|
    ensures r.Stored? ==> forall q: nat :: q < 8 * |r.bytes| ==> (BitAt(r.bytes, q) <==> Means(op, srcs, |srcs|, q))
  {
    hide Combined, BitAt, Means;
    if op.Not? && |srcs| != 1 { return NotTakesOneKey; }
    var res := Compute(op, srcs);
    forall q: nat | q < 8 * res.Length ensures BitAt(res[..], q) <==> Means(op, srcs, |srcs|, q) {
      ResultMeans(op, srcs, res[..], q);
    }
    return Stored(res[..]);
  }
}
