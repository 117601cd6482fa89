/** Eight bytes as a machine word, the first byte being the most significant one. */
module BitWords {
  import opened Bits

  function Cat(a: Byte, b: Byte, c: Byte, d: Byte, e: Byte, f: Byte, g: Byte, h: Byte): bv64 {
    ((a as bv64) << 56) | ((b as bv64) << 48) | ((c as bv64) << 40) | ((d as bv64) << 32)
    | ((e as bv64) << 24) | ((f as bv64) << 16) | ((g as bv64) << 8) | (h as bv64)
  }

  function Word(s: seq<Byte>): bv64
    requires |s| == 8
  {
    Cat(s[0], s[1], s[2], s[3], s[4], s[5], s[6], s[7])
  }

  function Push(w: bv64, b: Byte): bv64 { (w << 8) | (b as bv64) }

  lemma PushCat(a: Byte, b: Byte, c: Byte, d: Byte, e: Byte, f: Byte, g: Byte, h: Byte, next: Byte)
    ensures Push(Cat(a, b, c, d, e, f, g, h), next) == Cat(b, c, d, e, f, g, h, next)
  {
  }

  /** A byte pushed in at the low end drives the first one out. */
  lemma PushWord(s: seq<Byte>, b: Byte)
    requires |s| == 8
    ensures Push(Word(s), b) == Word(s[1..] + [b])
  {
    hide Push, Cat;
    PushCat(s[0], s[1], s[2], s[3], s[4], s[5], s[6], s[7], b);
  }

  lemma CatZero(a: Byte, b: Byte, c: Byte, d: Byte, e: Byte, f: Byte, g: Byte, h: Byte)
    ensures Cat(a, b, c, d, e, f, g, h) == 0
            <==> a == 0 && b == 0 && c == 0 && d == 0 && e == 0 && f == 0 && g == 0 && h == 0
  {
  }

  lemma WordZero(s: seq<Byte>)
    requires |s| == 8
    ensures Word(s) == 0 <==> forall i :: 0 <= i < 8 ==> s[i] == 0
  {
    hide Cat;
    CatZero(s[0], s[1], s[2], s[3], s[4], s[5], s[6], s[7]);
    if Word(s) == 0 { forall i | 0 <= i < 8 ensures s[i] == 0 { } }
  }

  lemma CatOnes(a: Byte, b: Byte, c: Byte, d: Byte, e: Byte, f: Byte, g: Byte, h: Byte)
    ensures Cat(a, b, c, d, e, f, g, h) == 0xFFFF_FFFF_FFFF_FFFF
       <==> a == 0xFF && b == 0xFF && c == 0xFF && d == 0xFF && e == 0xFF && f == 0xFF && g == 0xFF && h == 0xFF
  {
  }

  lemma WordOnes(s: seq<Byte>)
    requires |s| == 8
    ensures Word(s) == 0xFFFF_FFFF_FFFF_FFFF <==> forall i :: 0 <= i < 8 ==> s[i] == 0xFF
  {
    hide Cat;
    CatOnes(s[0], s[1], s[2], s[3], s[4], s[5], s[6], s[7]);
    if Word(s) == 0xFFFF_FFFF_FFFF_FFFF { forall i | 0 <= i < 8 ensures s[i] == 0xFF { } }
  }

  // ------------------------------------------------------------- a single bit of the word

  const Top: bv64 := 0x8000_0000_0000_0000

  function Half(o: bv64): bv64 { o >> 1 }

  /** The mask `one` after `k` shifts. */
  function Single(k: nat): bv64 { if k == 0 then Top else Half(Single(k - 1)) }

  predicate Meets(o: bv64, w: bv64) { o & w != 0 }

  function Eight(o: bv64): bv64 { Half(Half(Half(Half(Half(Half(Half(Half(o)))))))) }

  lemma EightIsShift(o: bv64)
    ensures Eight(o) == o >> 8
  {
  }

  lemma ShiftAnd(o: bv64, w: bv64)
    ensures (o >> 8) & w == (o & (w << 8)) >> 8
    ensures (o & (w << 8)) & 0xFF == 0
  {
  }

  lemma ShiftZero(x: bv64)
    requires x & 0xFF == 0
    ensures x >> 8 == 0 <==> x == 0
  {
  }

  lemma RawShift(o: bv64, w: bv64)
    ensures (o >> 8) & w == 0 <==> o & (w << 8) == 0
  {
    ShiftAnd(o, w);
    ShiftZero(o & (w << 8));
  }

  /** Moving the mask down is moving the word up. */
  lemma MeetsShift(o: bv64, w: bv64)
    ensures Meets(Eight(o), w) <==> Meets(o, Push(w, 0))
  {
    hide Eight;
    EightIsShift(o);
    RawShift(o, w);
    assert Push(w, 0) == w << 8;
  }

  function First(w: bv64): Byte { (w >> 56) as Byte }

  lemma FirstOfCat(a: Byte, b: Byte, c: Byte, d: Byte, e: Byte, f: Byte, g: Byte, h: Byte)
    ensures First(Cat(a, b, c, d, e, f, g, h)) == a
  {
  }

  lemma Singles()
    ensures Single(0) == Top && Single(1) == Top >> 1 && Single(2) == Top >> 2 && Single(3) == Top >> 3
    ensures Single(4) == Top >> 4 && Single(5) == Top >> 5 && Single(6) == Top >> 6 && Single(7) == Top >> 7
  {
    assert Single(1) == Half(Single(0));
    assert Single(2) == Half(Single(1));
    assert Single(3) == Half(Single(2));
    assert Single(4) == Half(Single(3));
    assert Single(5) == Half(Single(4));
    assert Single(6) == Half(Single(5));
    assert Single(7) == Half(Single(6));
  }

  lemma TopBits(w: bv64)
    ensures (w & (Top >> 0) != 0) == (First(w) & 0x80 != 0) && (w & (Top >> 1) != 0) == (First(w) & 0x40 != 0)
    ensures (w & (Top >> 2) != 0) == (First(w) & 0x20 != 0) && (w & (Top >> 3) != 0) == (First(w) & 0x10 != 0)
    ensures (w & (Top >> 4) != 0) == (First(w) & 0x08 != 0) && (w & (Top >> 5) != 0) == (First(w) & 0x04 != 0)
    ensures (w & (Top >> 6) != 0) == (First(w) & 0x02 != 0) && (w & (Top >> 7) != 0) == (First(w) & 0x01 != 0)
  {
  }

  lemma HighBits(w: bv64)
    ensures Meets(Top, w) == Bit(First(w), 0) && Meets(Top >> 1, w) == Bit(First(w), 1)
    ensures Meets(Top >> 2, w) == Bit(First(w), 2) && Meets(Top >> 3, w) == Bit(First(w), 3)
  {
    hide First;
    TopBits(w);
  }

  lemma LowBits(w: bv64)
    ensures Meets(Top >> 4, w) == Bit(First(w), 4) && Meets(Top >> 5, w) == Bit(First(w), 5)
    ensures Meets(Top >> 6, w) == Bit(First(w), 6) && Meets(Top >> 7, w) == Bit(First(w), 7)
  {
    hide First;
    TopBits(w);
  }

  lemma FirstBits(w: bv64, k: nat)
    requires k < 8
    ensures Meets(Single(k), w) <==> Bit(First(w), k)
  {
    hide Single, First, Meets, Bit;
    Singles();
    HighBits(w);
    LowBits(w);
  }

  lemma SingleEight(k: nat)
    ensures Single(k + 8) == Eight(Single(k))
  {
    hide Half;
    assert Single(k + 1) == Half(Single(k));
    assert Single(k + 2) == Half(Single(k + 1));
    assert Single(k + 3) == Half(Single(k + 2));
    assert Single(k + 4) == Half(Single(k + 3));
    assert Single(k + 5) == Half(Single(k + 4));
    assert Single(k + 6) == Half(Single(k + 5));
    assert Single(k + 7) == Half(Single(k + 6));
    assert Single(k + 8) == Half(Single(k + 7));
  }

  /** The mask meets the word where the bytes, read from the left, have a set bit. */
  lemma {:induction false} WordBit(s: seq<Byte>, k: nat)
    requires |s| == 8 && k < 64
    ensures Meets(Single(k), Word(s)) <==> Bit(s[k / 8], k % 8)
    decreases k
  {
    hide Meets, Single, Bit, First, Cat, Push, Eight;
    if k < 8 {
      FirstBits(Word(s), k);
      FirstOfCat(s[0], s[1], s[2], s[3], s[4], s[5], s[6], s[7]);
    } else {
      SingleEight(k - 8);
      MeetsShift(Single(k - 8), Word(s));
      PushWord(s, 0);
      var t := s[1..] + [0];
      WordBit(t, k - 8);
      assert t[(k - 8) / 8] == s[k / 8];
    }
  }

  /** The mask has run out after 64 shifts, and not before. */
  lemma SingleEnds(k: nat)
    requires k <= 64
    ensures Single(k) == 0 <==> k == 64
  {
    hide Single, Eight;
    SingleEight(0);
    SingleEight(8);
    SingleEight(16);
    SingleEight(24);
    SingleEight(32);
    SingleEight(40);
    SingleEight(48);
    SingleEight(56);
    if k < 64 {
      var s := seq(8, _ => 0xFF as Byte);
      WordBit(s, k);
      FullByte(0xFF);
    } else {
      EightTimes(Single(0));
      SingleStart();
    }
  }

  lemma SingleStart()
    ensures Single(0) == Top
  {
  }

  lemma EightTimes(o: bv64)
    ensures Eight(Eight(Eight(Eight(Eight(Eight(Eight(Eight(o)))))))) == 0
  {
    EightIsShift(o);
    var o1 := Eight(o);
    EightIsShift(o1);
    var o2 := Eight(o1);
    EightIsShift(o2);
    var o3 := Eight(o2);
    EightIsShift(o3);
    var o4 := Eight(o3);
    EightIsShift(o4);
    var o5 := Eight(o4);
    EightIsShift(o5);
    var o6 := Eight(o5);
    EightIsShift(o6);
    var o7 := Eight(o6);
    EightIsShift(o7);
    hide Eight;
  }

  /** A byte is 0 if no bit is set, and 255 if all are. */
  lemma FullByte(b: Byte)
    ensures b == 0xFF <==> forall i: nat :: i < 8 ==> Bit(b, i)
    ensures b == 0 <==> forall i: nat :: i < 8 ==> !Bit(b, i)
  {
    assert b == 0xFF
           <==> Bit(b, 0) && Bit(b, 1) && Bit(b, 2) && Bit(b, 3) && Bit(b, 4) && Bit(b, 5) && Bit(b, 6) && Bit(b, 7);
    assert b == 0 <==> !Bit(b, 0) && !Bit(b, 1) && !Bit(b, 2) && !Bit(b, 3)
                       && !Bit(b, 4) && !Bit(b, 5) && !Bit(b, 6) && !Bit(b, 7);
  }
}

/** `redisBitpos`: whole words are skipped, and the word that follows is searched. */
module BitPos {
  import opened Bits
  import opened BitWords

  /** The position of the first bit with the given value, or the end of the string. */
  ghost predicate FirstAt(s: seq<Byte>, bit: bool, pos: int) {
    && 0 <= pos <= 8 * |s| && (forall q: nat :: q < pos ==> BitAt(s, q) != bit)
    && (pos < 8 * |s| ==> BitAt(s, pos) == bit)
  }

  function SkipByte(bit: bool): Byte { if bit then 0 else 0xFF }
  function SkipWord(bit: bool): bv64 { if bit then 0 else 0xFFFF_FFFF_FFFF_FFFF }

  ghost predicate Skipped(s: seq<Byte>, p: nat, bit: bool) {
    p <= |s| && forall i :: 0 <= i < p ==> s[i] == SkipByte(bit)
  }

  lemma SkippedBits(s: seq<Byte>, p: nat, bit: bool)
    requires Skipped(s, p, bit)
    ensures forall q: nat :: q < 8 * p ==> BitAt(s, q) != bit
  {
    hide Bit;
    forall q: nat | q < 8 * p ensures BitAt(s, q) != bit { FullByte(s[q / 8]); }
  }

  lemma WordSkips(s: seq<Byte>, bit: bool)
    requires |s| == 8
    ensures Word(s) == SkipWord(bit) <==> forall i :: 0 <= i < 8 ==> s[i] == SkipByte(bit)
  {
    hide Word;
    WordZero(s);
    WordOnes(s);
  }

  /** The eight bytes from `p` on, with zeros after the end of the string. */
  function Window(s: seq<Byte>, p: nat): (w: seq<Byte>)
    ensures |w| == 8
  {
    seq(8, i requires 0 <= i => if p + i < |s| then s[p + i] else 0)
  }

  lemma WindowBit(s: seq<Byte>, p: nat, k: nat)
    requires p <= |s| && k < 64
    ensures Bit(Window(s, p)[k / 8], k % 8) <==> 8 * p + k < 8 * |s| && BitAt(s, 8 * p + k)
  {
    hide Bit;
    var q := 8 * p + k;
    assert q / 8 == p + k / 8 && q % 8 == k % 8;
    FullByte(0);
  }

  /** What is searched: not all of it can be skipped. */
  ghost predicate Stopped(s: seq<Byte>, p: nat, bit: bool) {
    Skipped(s, p, bit) && (p + 8 <= |s| ==> exists i :: p <= i < p + 8 && s[i] != SkipByte(bit))
  }

  lemma Found(s: seq<Byte>, p: nat, bit: bool, k: nat)
    requires Stopped(s, p, bit) && k < 64 && Bit(Window(s, p)[k / 8], k % 8) == bit
    requires forall i: nat :: i < k ==> Bit(Window(s, p)[i / 8], i % 8) != bit
    ensures FirstAt(s, bit, 8 * p + k) && (bit ==> 8 * p + k < 8 * |s|)
  {
    hide Bit, BitAt, Window;
    SkippedBits(s, p, bit);
    WindowBit(s, p, k);
    forall q: nat | q < 8 * p + k && q < 8 * |s| ensures BitAt(s, q) != bit {
      if q >= 8 * p { WindowBit(s, p, q - 8 * p); }
    }
    var end := 8 * |s| - 8 * p;
    if end < k { WindowBit(s, p, end); }
  }

  /** The search ends before the mask has run out. */
  lemma SomeBit(s: seq<Byte>, p: nat, bit: bool)
    requires Stopped(s, p, bit) && (bit ==> Word(Window(s, p)) != 0)
    ensures exists k: nat :: k < 64 && Bit(Window(s, p)[k / 8], k % 8) == bit
  {
    hide Bit, Word;
    var w := Window(s, p);
    WordZero(w);
    var i: int;
    if bit {
      i :| 0 <= i < 8 && w[i] != 0;
    } else if p + 8 <= |s| {
      var x :| p <= x < p + 8 && s[x] != SkipByte(bit);
      i := x - p;
    } else {
      i := 7;
    }
    assert w[i] != SkipByte(bit);
    var j := ByteHas(w[i], bit);
    var k := 8 * i + j;
    assert k / 8 == i && k % 8 == j;
  }

  lemma ByteHas(b: Byte, bit: bool) returns (j: nat)
    requires b != SkipByte(bit)
    ensures j < 8 && Bit(b, j) == bit
  {
    hide Bit;
    FullByte(b);
    if bit { j :| j < 8 && Bit(b, j); } else { j :| j < 8 && !Bit(b, j); }
  }

  lemma NoBit(s: seq<Byte>, p: nat)
    requires Stopped(s, p, true) && Word(Window(s, p)) == 0
    ensures forall q: nat :: q < 8 * |s| ==> !BitAt(s, q)
  {
    hide Bit, BitAt, Word;
    var w := Window(s, p);
    WordZero(w);
    assert forall i :: p <= i < p + 8 && i < |s| ==> s[i] == w[i - p];
    assert |s| < p + 8;
    SkippedBits(s, |s|, true);
  }

  /** The first two loops. */
  method Skip(s: seq<Byte>, address: nat, bit: bool) returns (p: nat)
    ensures Stopped(s, p, bit)
  {
    hide Word;
    p := 0;
    while (address + p) % 8 != 0 && p < |s|
      invariant Skipped(s, p, bit)
      decreases |s| - p
    {
      if s[p] != SkipByte(bit) { break; }
      p := p + 1;
    }
    while |s| - p >= 8
      invariant Skipped(s, p, bit)
    {
      var word := s[p..p + 8];
      WordSkips(word, bit);
      if Word(word) != SkipWord(bit) {
        var i :| 0 <= i < 8 && word[i] != SkipByte(bit);
        assert s[p..p + 8][i] == s[p + i] != SkipByte(bit);
        break;
      }
      assert forall i :: p <= i < p + 8 ==> s[i] == word[i - p];
      p := p + 8;
    }
  }

  /** The next bytes, as many as there are, shifted into a word. */
  method Gather(s: seq<Byte>, p: nat) returns (word: bv64)
    requires p <= |s|
    ensures word == Word(Window(s, p))
  {
    hide Word, Push;
    ghost var bytes: seq<Byte> := seq(8, _ => 0);
    WordZero(bytes);
    word := 0;
    var c := p;
    for j := 0 to 8
      invariant |bytes| == 8 && word == Word(bytes) && c == if p + j < |s| then p + j else |s|
      invariant forall i :: 0 <= i < j ==> bytes[8 - j + i] == Window(s, p)[i]
    {
      var next: Byte := 0;
      if c < |s| {
        next := s[c];
        c := c + 1;
      }
      PushWord(bytes, next);
      word := Push(word, next);
      bytes := bytes[1..] + [next];
    }
    assert bytes == Window(s, p);
  }

  /** The first set or clear bit; for a clear one the string counts as followed by zeros. */
  method Bitpos(s: seq<Byte>, address: nat, bit: bool) returns (pos: int)
    ensures pos == -1 <==> bit && forall q: nat :: q < 8 * |s| ==> !BitAt(s, q)
    ensures pos != -1 ==> FirstAt(s, bit, pos) && (bit ==> pos < 8 * |s|)
  {
    hide Bit, Word, Window, Stopped, Meets, Single, Half;
    var p := Skip(s, address, bit);
    StoppedInside(s, p, bit);
    var word := Gather(s, p);
    if bit && word == 0 {
      NoBit(s, p);
      return -1;
    }
    SomeBit(s, p, bit);
    ghost var w := Window(s, p);
    SingleStart();
    var one, k := Top, 0;
    SingleEnds(0);
    while one != 0
      invariant k <= 64 && one == Single(k) && (one == 0 <==> k == 64)
      invariant forall i: nat :: i < k ==> Bit(w[i / 8], i % 8) != bit
      decreases 64 - k
    {
      WordBit(w, k);
      if Meets(one, word) == bit {
        Found(s, p, bit, k);
        return 8 * p + k;
      }
      SingleNext(k);
      SingleEnds(k + 1);
      one, k := Half(one), k + 1;
    }
    assert false;
  }

  lemma StoppedInside(s: seq<Byte>, p: nat, bit: bool)
    requires Stopped(s, p, bit)
    ensures p <= |s|
  {
  }

  lemma SingleNext(k: nat)
    ensures Single(k + 1) == Half(Single(k))
  {
  }
}
