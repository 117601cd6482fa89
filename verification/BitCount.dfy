/** Byte strings as strings of bits, the first bit of a byte being its most significant one. */
module Bits {

  type Byte = bv8

  function Mask(i: nat): Byte
    requires i < 8
  {
    if i == 0 then 0x80 else if i == 1 then 0x40 else if i == 2 then 0x20 else if i == 3 then 0x10
    else if i == 4 then 0x08 else if i == 5 then 0x04 else if i == 6 then 0x02 else 0x01
  }

  predicate Bit(b: Byte, i: nat)
    requires i < 8
  {
    b & Mask(i) != 0
  }

  predicate BitAt(s: seq<Byte>, p: nat)
    requires p < 8 * |s|
  {
    Bit(s[p / 8], p % 8)
  }

  function BitValue(b: Byte, i: nat): (n: nat)
    requires i < 8
    ensures n <= 1
  {
    if Bit(b, i) then 1 else 0
  }

  /** The number of set bits among the first `i` bits of a byte. */
  function CountFirst(b: Byte, i: nat): (n: nat)
    requires i <= 8
    ensures n <= i
  {
    if i == 0 then 0 else CountFirst(b, i - 1) + BitValue(b, i - 1)
  }

  function CountByte(b: Byte): (n: nat)
    ensures n <= 8
  {
    CountFirst(b, 8)
  }

  /** The number of set bits. */
  function CountBits(s: seq<Byte>): nat {
    if s == [] then 0 else CountBits(s[..|s| - 1]) + CountByte(s[|s| - 1])
  }

  lemma {:induction false} CountAppend(s: seq<Byte>, t: seq<Byte>)
    ensures CountBits(s + t) == CountBits(s) + CountBits(t)
  {
    if t == [] {
      assert s + t == s;
    } else {
      var n := |t| - 1;
      assert (s + t)[..|s| + n] == s + t[..n];
      CountAppend(s, t[..n]);
    }
  }
}

/** Sums of bits inside machine words. */
module Swar {
  import opened Bits

  /** Four bytes as a word, as a little-endian machine loads them. */
  function Load32(p: Byte, q: Byte, r: Byte, s: Byte): bv32 {
    (p as bv32) | ((q as bv32) << 8) | ((r as bv32) << 16) | ((s as bv32) << 24)
  }

  /** The value of a word as a number. */
  function Value(x: bv32): nat {
    ((x & 0xFF) as Byte) as nat + 0x100 * (((x >> 8) & 0xFF) as Byte as nat)
      + 0x10000 * (((x >> 16) & 0xFF) as Byte as nat) + 0x1000000 * (((x >> 24) & 0xFF) as Byte as nat)
  }

  lemma LoadValue(p: Byte, q: Byte, r: Byte, s: Byte)
    ensures Value(Load32(p, q, r, s)) == Number(p) + 0x100 * Number(q) + 0x10000 * Number(r) + 0x1000000 * Number(s)
  {
    assert (Load32(p, q, r, s) & 0xFF) as Byte == p;
    assert ((Load32(p, q, r, s) >> 8) & 0xFF) as Byte == q;
    assert ((Load32(p, q, r, s) >> 16) & 0xFF) as Byte == r;
    assert ((Load32(p, q, r, s) >> 24) & 0xFF) as Byte == s;
  }

  /** The two statements for each of `aux1` to `aux7`, and the fold inside the sum. */
  function Pairs(x: bv32): bv32 { x - ((x >> 1) & 0x55555555) }
  function Quads(x: bv32): bv32 { (x & 0x33333333) + ((x >> 2) & 0x33333333) }
  function Fold(x: bv32): bv32 { (x + (x >> 4)) & 0x0F0F0F0F }

  // the same on one byte
  function PairsOf(b: Byte): Byte { b - ((b >> 1) & 0x55) }
  function QuadsOf(b: Byte): Byte { (b & 0x33) + ((b >> 2) & 0x33) }
  function FoldOf(b: Byte): Byte { (b + (b >> 4)) & 0x0F }

  /** Nothing is borrowed across a pair of bits. */
  lemma PairsBitwise(x: bv32)
    ensures x - ((x >> 1) & 0x55555555)
         == ((x & 0x55555555) ^ ((x >> 1) & 0x55555555)) | (((x & 0x55555555) & ((x >> 1) & 0x55555555)) << 1)
  {
  }

  lemma PairsBitwiseOf(b: Byte)
    ensures b - ((b >> 1) & 0x55) == ((b & 0x55) ^ ((b >> 1) & 0x55)) | (((b & 0x55) & ((b >> 1) & 0x55)) << 1)
  {
  }

  lemma PairsLanes(p: Byte, q: Byte, r: Byte, s: Byte)
    ensures Pairs(Load32(p, q, r, s)) == Load32(PairsOf(p), PairsOf(q), PairsOf(r), PairsOf(s))
  {
    hide Load32;
    LoadPairs(p, q, r, s);
  }

  lemma LoadPairs(p: Byte, q: Byte, r: Byte, s: Byte)
    ensures Load32(p, q, r, s) - ((Load32(p, q, r, s) >> 1) & 0x55555555)
         == Load32(p - ((p >> 1) & 0x55), q - ((q >> 1) & 0x55), r - ((r >> 1) & 0x55), s - ((s >> 1) & 0x55))
  {
    PairsBitwise(Load32(p, q, r, s));
    PairsBitwiseOf(p);
    PairsBitwiseOf(q);
    PairsBitwiseOf(r);
    PairsBitwiseOf(s);
  }

  lemma QuadsLanes(p: Byte, q: Byte, r: Byte, s: Byte)
    ensures Quads(Load32(p, q, r, s)) == Load32(QuadsOf(p), QuadsOf(q), QuadsOf(r), QuadsOf(s))
  {
  }

  /** Nothing is carried from one lane to the next, because a nibble holds at most 4. */
  lemma FoldLanes(p: Byte, q: Byte, r: Byte, s: Byte)
    requires p & 0x88 == 0 && q & 0x88 == 0 && r & 0x88 == 0 && s & 0x88 == 0
    ensures Fold(Load32(p, q, r, s)) == Load32(FoldOf(p), FoldOf(q), FoldOf(r), FoldOf(s))
  {
  }

  /** The number of set bits of a byte, as a byte. */
  function Pop(b: Byte): Byte { FoldOf(QuadsOf(PairsOf(b))) }

  lemma NibblesSmall(b: Byte)
    ensures QuadsOf(PairsOf(b)) & 0x88 == 0
  {
  }

  function Lanes(x: bv32): bv32 { Fold(Quads(Pairs(x))) }

  lemma LanesCount(p: Byte, q: Byte, r: Byte, s: Byte)
    ensures Lanes(Load32(p, q, r, s)) == Load32(Pop(p), Pop(q), Pop(r), Pop(s))
  {
    hide Fold, Quads, Pairs, FoldOf, QuadsOf, PairsOf, Load32;
    NibblesSmall(p);
    NibblesSmall(q);
    NibblesSmall(r);
    NibblesSmall(s);
    PairsLanes(p, q, r, s);
    QuadsLanes(PairsOf(p), PairsOf(q), PairsOf(r), PairsOf(s));
    FoldLanes(QuadsOf(PairsOf(p)), QuadsOf(PairsOf(q)), QuadsOf(PairsOf(r)), QuadsOf(PairsOf(s)));
  }

  // ------------------------------------------------------------------ bytes and numbers

  function Number(b: Byte): nat { b as nat }

  /** A bit as a byte. */
  function Flag(b: Byte, i: nat): Byte
    requires i < 8
  {
    if Bit(b, i) then 1 else 0
  }

  function Plus(x: Byte, y: Byte): Byte { x + y }

  function Plus4(n: Byte, p: Byte, q: Byte, r: Byte, s: Byte): Byte { Plus(Plus(Plus(Plus(n, p), q), r), s) }

  lemma PopIsShifts(b: Byte)
    ensures Pop(b) == Plus4(Plus4(0, (b >> 7) & 1, (b >> 6) & 1, (b >> 5) & 1, (b >> 4) & 1), (b >> 3) & 1,
                            (b >> 2) & 1, (b >> 1) & 1, b & 1)
  {
  }

  lemma HighFlags(b: Byte)
    ensures Flag(b, 0) == (b >> 7) & 1 && Flag(b, 1) == (b >> 6) & 1 && Flag(b, 2) == (b >> 5) & 1
            && Flag(b, 3) == (b >> 4) & 1
  {
  }

  lemma LowFlags(b: Byte)
    ensures Flag(b, 4) == (b >> 3) & 1 && Flag(b, 5) == (b >> 2) & 1 && Flag(b, 6) == (b >> 1) & 1
            && Flag(b, 7) == b & 1
  {
  }

  lemma PopIsSum(b: Byte)
    ensures Pop(b) == Plus4(Plus4(0, Flag(b, 0), Flag(b, 1), Flag(b, 2), Flag(b, 3)), Flag(b, 4), Flag(b, 5),
                            Flag(b, 6), Flag(b, 7))
  {
    hide Pop, Plus4, Flag;
    PopIsShifts(b);
    HighFlags(b);
    LowFlags(b);
  }

  lemma FlagNumber(b: Byte, i: nat)
    requires i < 8
    ensures Number(Flag(b, i)) == BitValue(b, i)
  {
    hide Bit;
  }

  lemma PlusNumber(x: Byte, y: Byte)
    requires Number(x) < 8 && Number(y) <= 1
    ensures Number(Plus(x, y)) == Number(x) + Number(y)
  {
    Small(x, 8);
    Small(y, 2);
  }

  lemma Small(x: Byte, n: Byte)
    requires Number(x) < Number(n)
    ensures x < n
  {
  }

  lemma Plus4Number(n: Byte, p: Byte, q: Byte, r: Byte, s: Byte)
    requires Number(n) <= 4 && Number(p) <= 1 && Number(q) <= 1 && Number(r) <= 1 && Number(s) <= 1
    ensures Number(Plus4(n, p, q, r, s)) == Number(n) + Number(p) + Number(q) + Number(r) + Number(s)
  {
    hide Plus, Number;
    PlusNumber(n, p);
    PlusNumber(Plus(n, p), q);
    PlusNumber(Plus(Plus(n, p), q), r);
    PlusNumber(Plus(Plus(Plus(n, p), q), r), s);
  }

  lemma Zero()
    ensures Number(0) == 0
  {
  }

  lemma Flags(b: Byte)
    ensures forall i: nat :: i < 8 ==> Number(Flag(b, i)) == BitValue(b, i)
  {
    hide Number, BitValue, Flag;
    forall i: nat | i < 8 ensures Number(Flag(b, i)) == BitValue(b, i) { FlagNumber(b, i); }
  }

  lemma CountAll(b: Byte)
    ensures CountByte(b) == BitValue(b, 0) + BitValue(b, 1) + BitValue(b, 2) + BitValue(b, 3)
                            + BitValue(b, 4) + BitValue(b, 5) + BitValue(b, 6) + BitValue(b, 7)
  {
    hide BitValue;
    assert CountFirst(b, 1) == BitValue(b, 0);
    assert CountFirst(b, 2) == CountFirst(b, 1) + BitValue(b, 1);
    assert CountFirst(b, 3) == CountFirst(b, 2) + BitValue(b, 2);
    assert CountFirst(b, 4) == CountFirst(b, 3) + BitValue(b, 3);
    assert CountFirst(b, 5) == CountFirst(b, 4) + BitValue(b, 4);
    assert CountFirst(b, 6) == CountFirst(b, 5) + BitValue(b, 5);
    assert CountFirst(b, 7) == CountFirst(b, 6) + BitValue(b, 6);
    assert CountFirst(b, 8) == CountFirst(b, 7) + BitValue(b, 7);
  }

  lemma PopCounts(b: Byte)
    ensures Number(Pop(b)) == CountByte(b)
  {
    hide Pop, Number, CountByte, BitValue, Plus4, Flag;
    PopIsSum(b);
    CountAll(b);
    Flags(b);
    Zero();
    var half := Plus4(0, Flag(b, 0), Flag(b, 1), Flag(b, 2), Flag(b, 3));
    Plus4Number(0, Flag(b, 0), Flag(b, 1), Flag(b, 2), Flag(b, 3));
    Plus4Number(half, Flag(b, 4), Flag(b, 5), Flag(b, 6), Flag(b, 7));
  }
}

/** `redisPopcount`: seven words at a time. */
module BitCount {
  import opened Bits
  import opened Swar

  const Two32: nat := 0x1_0000_0000

  function WordAt(s: seq<Byte>, p: nat): bv32
    requires p + 4 <= |s|
  {
    Load32(s[p], s[p + 1], s[p + 2], s[p + 3])
  }

  /** Four numbers, one in each lane. */
  function Spread(a: nat, b: nat, c: nat, d: nat): nat { a + 0x100 * b + 0x10000 * c + 0x1000000 * d }

  /** The four bytes' counts, one in each lane. */
  lemma LaneValues(s: seq<Byte>, p: nat)
    requires p + 4 <= |s|
    ensures Value(Lanes(WordAt(s, p))) == Spread(CountByte(s[p]), CountByte(s[p + 1]), CountByte(s[p + 2]),
                                                 CountByte(s[p + 3]))
  {
    hide Load32, Lanes, Pop, Value, CountByte, Number;
    LanesCount(s[p], s[p + 1], s[p + 2], s[p + 3]);
    LoadValue(Pop(s[p]), Pop(s[p + 1]), Pop(s[p + 2]), Pop(s[p + 3]));
    PopCounts(s[p]);
    PopCounts(s[p + 1]);
    PopCounts(s[p + 2]);
    PopCounts(s[p + 3]);
  }

  /** What `n` words hold in one of their lanes. */
  function LaneSum(s: seq<Byte>, p: nat, n: nat, lane: nat): (c: nat)
    requires p + 4 * n <= |s| && lane < 4
    ensures c <= 8 * n
  {
    if n == 0 then 0 else LaneSum(s, p, n - 1, lane) + CountByte(s[p + 4 * (n - 1) + lane])
  }

  /** The sum of `n` folded words. */
  function WordSum(s: seq<Byte>, p: nat, n: nat): nat
    requires p + 4 * n <= |s|
  {
    if n == 0 then 0 else (WordSum(s, p, n - 1) + Value(Lanes(WordAt(s, p + 4 * (n - 1))))) % Two32
  }

  lemma SumStep(s: seq<Byte>, p: nat, n: nat, lane: nat)
    requires p + 4 * n + 4 <= |s| && lane < 4
    ensures LaneSum(s, p, n + 1, lane) == LaneSum(s, p, n, lane) + CountByte(s[p + 4 * n + lane])
    ensures WordSum(s, p, n + 1) == (WordSum(s, p, n) + Value(Lanes(WordAt(s, p + 4 * n)))) % Two32
    ensures LaneSum(s, p, 0, lane) == 0 == WordSum(s, p, 0)
  {
    hide Value, Lanes, WordAt, CountByte;
  }

  /** With up to seven words no lane overflows. */
  lemma {:induction false} WordSumLanes(s: seq<Byte>, p: nat, n: nat)
    requires p + 4 * n <= |s| && 1 <= n <= 7
    ensures WordSum(s, p, n) == Spread(LaneSum(s, p, n, 0), LaneSum(s, p, n, 1), LaneSum(s, p, n, 2),
                                       LaneSum(s, p, n, 3))
  {
    hide Value, Lanes, WordAt, CountByte, LaneSum, WordSum, Spread;
    var m := n - 1;
    var q := p + 4 * m;
    if m > 0 { WordSumLanes(s, p, m); } else { NoLanes(); }
    LaneValues(s, q);
    SumStep(s, p, m, 0);
    SumStep(s, p, m, 1);
    SumStep(s, p, m, 2);
    SumStep(s, p, m, 3);
    AddLanes(LaneSum(s, p, m, 0), LaneSum(s, p, m, 1), LaneSum(s, p, m, 2), LaneSum(s, p, m, 3),
             CountByte(s[q]), CountByte(s[q + 1]), CountByte(s[q + 2]), CountByte(s[q + 3]));
  }

  lemma NoLanes()
    ensures Spread(0, 0, 0, 0) == 0
  {
  }

  lemma AddLanes(a: nat, b: nat, c: nat, d: nat, a': nat, b': nat, c': nat, d': nat)
    requires a <= 48 && b <= 48 && c <= 48 && d <= 48 && a' <= 8 && b' <= 8 && c' <= 8 && d' <= 8
    ensures (Spread(a, b, c, d) + Spread(a', b', c', d')) % Two32 == Spread(a + a', b + b', c + c', d + d')
  {
    var sum := Spread(a + a', b + b', c + c', d + d');
    assert Spread(a, b, c, d) + Spread(a', b', c', d') == sum;
    assert sum < Two32;
    Reduce(sum, 0);
  }

  lemma {:induction false} LanesCountBits(s: seq<Byte>, p: nat, n: nat)
    requires p + 4 * n <= |s| && 1 <= n
    ensures LaneSum(s, p, n, 0) + LaneSum(s, p, n, 1) + LaneSum(s, p, n, 2) + LaneSum(s, p, n, 3)
            == CountBits(s[p..p + 4 * n])
  {
    hide CountByte, CountBits, LaneSum, WordSum, Value, Lanes, WordAt;
    var m := n - 1;
    var q := p + 4 * m;
    if m > 0 { LanesCountBits(s, p, m); } else { NoBits(s[p..q]); }
    SumStep(s, p, m, 0);
    SumStep(s, p, m, 1);
    SumStep(s, p, m, 2);
    SumStep(s, p, m, 3);
    CountSnoc(s, p, q);
    CountSnoc(s, p, q + 1);
    CountSnoc(s, p, q + 2);
    CountSnoc(s, p, q + 3);
  }

  lemma NoBits(s: seq<Byte>)
    requires s == []
    ensures CountBits(s) == 0
  {
  }

  lemma CountSnoc(s: seq<Byte>, p: nat, q: nat)
    requires p <= q < |s|
    ensures CountBits(s[p..q + 1]) == CountBits(s[p..q]) + CountByte(s[q])
  {
    hide CountByte;
    assert s[p..q + 1][..q - p] == s[p..q];
  }

  /** The multiplication gathers the four lanes in the top byte. */
  lemma Gather(a: nat, b: nat, c: nat, d: nat)
    requires a <= 56 && b <= 56 && c <= 56 && d <= 56
    ensures Spread(a, b, c, d) * 0x01010101 % Two32 / 0x1000000 == a + b + c + d
  {
    var low := a + 0x100 * (a + b) + 0x10000 * (a + b + c);
    var rest := low + 0x1000000 * (a + b + c + d);
    var over := (b + c + d) + 0x100 * (c + d) + 0x10000 * d;
    assert Spread(a, b, c, d) * 0x01010101 == rest + Two32 * over;
    Reduce(rest, over);
    assert low < 0x1000000;
    TopByte(low, a + b + c + d);
  }

  lemma Reduce(r: nat, q: nat)
    requires r < Two32
    ensures (r + Two32 * q) % Two32 == r
  {
  }

  lemma TopByte(low: nat, top: nat)
    requires low < 0x1000000
    ensures (low + 0x1000000 * top) / 0x1000000 == top
  {
  }

  /** The body of the loop: 28 bytes as seven words. */
  method Count28(s: seq<Byte>, p: nat) returns (bits: nat)
    requires p + 28 <= |s|
    ensures bits == CountBits(s[p..p + 28])
  {
    hide Value, Lanes, WordAt, CountBits, LaneSum, Spread;
    var sum := 0;
    for n := 0 to 7
      invariant sum == WordSum(s, p, n)
    {
      sum := (sum + Value(Lanes(WordAt(s, p + 4 * n)))) % Two32;
    }
    bits := sum * 0x01010101 % Two32 / 0x1000000;
    WordSumLanes(s, p, 7);
    LanesCountBits(s, p, 7);
    Gather(LaneSum(s, p, 7, 0), LaneSum(s, p, 7, 1), LaneSum(s, p, 7, 2), LaneSum(s, p, 7, 3));
  }

  lemma CountMore(s: seq<Byte>, p: nat, q: nat)
    requires p <= q <= |s|
    ensures CountBits(s[..q]) == CountBits(s[..p]) + CountBits(s[p..q])
  {
    assert s[..q] == s[..p] + s[p..q];
    CountAppend(s[..p], s[p..q]);
  }

  /** The number of set bits of any string at any address. */
  method Popcount(s: seq<Byte>, address: nat) returns (bits: nat)
    ensures bits == CountBits(s)
  {
    hide CountBits, CountByte;
    bits := 0;
    var p, count := 0, |s|;
    NoBits(s[..0]);
    while (address + p) % 4 != 0 && count > 0
      decreases count
      invariant 0 <= p <= |s| && p + count == |s| && bits == CountBits(s[..p])
    {
      CountSnoc(s, 0, p);
      bits := bits + CountByte(s[p]);
      p, count := p + 1, count - 1;
    }
    while count >= 28
      invariant 0 <= p <= |s| && p + count == |s| && bits == CountBits(s[..p])
    {
      CountMore(s, p, p + 28);
      var more := Count28(s, p);
      bits := bits + more;
      p, count := p + 28, count - 28;
    }
    while count > 0
      invariant 0 <= p <= |s| && p + count == |s| && bits == CountBits(s[..p])
    {
      CountSnoc(s, 0, p);
      bits := bits + CountByte(s[p]);
      p, count := p + 1, count - 1;
    }
    assert s[..p] == s;
  }
}
