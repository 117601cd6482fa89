/** `SHA1Transform`: one block, with a circular schedule of 16 words and with the five working
    variables changing roles instead of places. */
module Sha1Transform {
  import opened Sha1Spec

  // ------------------------------------------------------------------ the macros' formulas

  function LittleEndian(p: Byte, q: Byte, r: Byte, s: Byte): Word {
    ((s as Word) << 24) | ((r as Word) << 16) | ((q as Word) << 8) | (p as Word)
  }

  /** `blk0` on a little-endian machine. */
  function Turn(x: Word): Word { (Rol(x, 24) & 0xFF00FF00) | (Rol(x, 8) & 0x00FF00FF) }

  lemma TurnIsBigEndian(p: Byte, q: Byte, r: Byte, s: Byte)
    ensures Turn(LittleEndian(p, q, r, s)) == BigEndian(p, q, r, s)
  {
  }

  /** The logical functions as R0 and R1, R2, R3 and R4 write them. */
  function Mix(t: nat, w: Word, x: Word, y: Word): Word {
    if t < 20 then (w & (x ^ y)) ^ y
    else if t < 40 then w ^ x ^ y
    else if t < 60 then ((w | x) & y) | (w & x)
    else w ^ x ^ y
  }

  lemma ChooseForm(w: Word, x: Word, y: Word)
    ensures (w & (x ^ y)) ^ y == (w & x) | (!w & y)
  {
  }

  lemma MajorityForm(w: Word, x: Word, y: Word)
    ensures ((w | x) & y) | (w & x) == (w & x) | (w & y) | (x & y)
  {
  }

  lemma MixIsF(t: nat, w: Word, x: Word, y: Word)
    ensures Mix(t, w, x, y) == F(t, w, x, y)
  {
    ChooseForm(w, x, y);
    MajorityForm(w, x, y);
  }

  /** The order in which the macros add up. */
  function Added(z: Word, f: Word, w: Word, k: Word, r: Word): Word { z + (f + w + k + r) }

  lemma SumOrder(r: Word, f: Word, z: Word, w: Word, k: Word)
    ensures Added(z, f, w, k, r) == Sum5(r, f, z, w, k)
  {
  }

  // ------------------------------------------------------------------ the circular schedule

  /** What slot `j` holds before round `t`: the block's own word until round `j`, and then the
      latest word of the schedule whose number is `j` modulo 16. */
  ghost function Held(m: seq<Byte>, t: nat, j: nat): Word
    requires |m| == 64 && j < 16
  {
    if t <= j then LittleEndian(m[4 * j], m[4 * j + 1], m[4 * j + 2], m[4 * j + 3])
    else W(m, t - 1 - (t - 1 - j) % 16)
  }

  ghost predicate Schedule(block: seq<Word>, m: seq<Byte>, t: nat) {
    |block| == 16 && |m| == 64 && forall j :: 0 <= j < 16 ==> block[j] == Held(m, t, j)
  }

  /** Rounds leave the other slots as they are. */
  lemma HeldNext(m: seq<Byte>, t: nat, j: nat)
    requires |m| == 64 && j < 16
    ensures Held(m, t + 1, j) == if j == t % 16 then W(m, t) else Held(m, t, j)
  {
    if t > j { LatestNext(t, j); }
  }

  lemma LatestNext(t: nat, j: nat)
    requires j < 16 && j < t
    ensures t - (t - j) % 16 == if j == t % 16 then t else t - 1 - (t - 1 - j) % 16
  {
  }

  lemma HeldBack(m: seq<Byte>, t: nat, k: nat)
    requires |m| == 64 && 1 <= k <= 16 <= t
    ensures Held(m, t, (t - k) % 16) == W(m, t - k)
  {
    hide W, LittleEndian;
    var j := (t - k) % 16;
    assert (t - 1 - j) % 16 == k - 1;
  }

  lemma ScheduleNext(block: seq<Word>, m: seq<Byte>, t: nat)
    requires Schedule(block, m, t)
    ensures Schedule(block[t % 16 := W(m, t)], m, t + 1)
  {
    hide Held, W;
    var next := block[t % 16 := W(m, t)];
    forall j | 0 <= j < 16 ensures next[j] == Held(m, t + 1, j) { HeldNext(m, t, j); }
  }

  lemma LaterWord(m: seq<Byte>, t: nat)
    requires |m| == 64 && t >= 16
    ensures W(m, t) == Rol(Xor4(W(m, t - 3), W(m, t - 8), W(m, t - 14), W(m, t - 16)), 1)
  {
  }

  lemma Slots(t: nat)
    requires t >= 16
    ensures (t - 3) % 16 == (t + 13) % 16 && (t - 8) % 16 == (t + 8) % 16
    ensures (t - 14) % 16 == (t + 2) % 16 && (t - 16) % 16 == t % 16
  {
    Around(t - 3);
    Around(t - 8);
    Around(t - 14);
    Around(t - 16);
  }

  lemma Around(x: nat)
    ensures (x + 16) % 16 == x % 16
  {
  }

  /** `blk` on the slots. */
  function Circular(block: seq<Word>, t: nat): Word
    requires |block| == 16
  {
    Rol(Xor4(block[(t + 13) % 16], block[(t + 8) % 16], block[(t + 2) % 16], block[t % 16]), 1)
  }

  lemma CircularIsW(block: seq<Word>, m: seq<Byte>, t: nat)
    requires Schedule(block, m, t) && t >= 16
    ensures Circular(block, t) == W(m, t)
  {
    hide Held, W, Rol, Xor4;
    LaterWord(m, t);
    Slots(t);
    HeldBack(m, t, 3);
    HeldBack(m, t, 8);
    HeldBack(m, t, 14);
    HeldBack(m, t, 16);
  }

  lemma TurnIsW(block: seq<Word>, m: seq<Byte>, t: nat)
    requires Schedule(block, m, t) && t < 16
    ensures Turn(block[t]) == W(m, t)
  {
    hide Turn, BigEndian, LittleEndian, Rol;
    TurnIsBigEndian(m[4 * t], m[4 * t + 1], m[4 * t + 2], m[4 * t + 3]);
    assert block[t] == Held(m, t, t);
  }

  /** `blk0` and `blk`. */
  method Blk(block: array<Word>, t: nat, ghost m: seq<Byte>) returns (w: Word)
    requires Schedule(block[..], m, t)
    modifies block
    ensures w == W(m, t) && Schedule(block[..], m, t + 1)
  {
    hide Held, W, Turn, Circular, Schedule;
    ScheduleNext(block[..], m, t);
    ScheduleLength(block[..], m, t);
    if t < 16 {
      TurnIsW(block[..], m, t);
      w := Turn(block[t]);
    } else {
      CircularIsW(block[..], m, t);
      w := Circular(block[..], t);
    }
    block[t % 16] := w;
  }

  // ------------------------------------------------------------------------------- rounds

  /** R0 to R4.  The variables named by the first five arguments hold the words A to E. */
  method Round(v: Word, w: Word, x: Word, y: Word, z: Word, t: nat, block: array<Word>, ghost h: Hash,
               ghost m: seq<Byte>)
    returns (z': Word, w': Word)
    requires Schedule(block[..], m, t) && Hash(v, w, x, y, z) == Rounds(h, m, t)
    modifies block
    ensures Schedule(block[..], m, t + 1) && Hash(z', v, w', x, y) == Rounds(h, m, t + 1)
  {
    hide Schedule, W, Rounds, Mixed, Rol;
    ScheduleLength(block[..], m, t);
    var word := Blk(block, t, m);
    z' := Mixed(v, w, x, y, z, t, word);
    w' := Rol(w, 30);
    RoundNext(h, m, t, v, w, x, y, z);
  }

  /** The new value of the last variable. */
  function Mixed(v: Word, w: Word, x: Word, y: Word, z: Word, t: nat, word: Word): Word {
    Added(z, Mix(t, w, x, y), word, K(t), Rol(v, 5))
  }

  lemma MixedIsTemp(v: Word, w: Word, x: Word, y: Word, z: Word, t: nat, word: Word)
    ensures Mixed(v, w, x, y, z, t, word) == Temp(Hash(v, w, x, y, z), t, word)
  {
    hide Mix, F, K, Rol, Added, Sum5;
    MixIsF(t, w, x, y);
    SumOrder(Rol(v, 5), F(t, w, x, y), z, word, K(t));
  }

  lemma RoundNext(h: Hash, m: seq<Byte>, t: nat, v: Word, w: Word, x: Word, y: Word, z: Word)
    requires |m| == 64 && Hash(v, w, x, y, z) == Rounds(h, m, t)
    ensures Rounds(h, m, t + 1) == Hash(Mixed(v, w, x, y, z, t, W(m, t)), v, Rol(w, 30), x, y)
  {
    hide W, Mixed, Temp, Rol;
    MixedIsTemp(v, w, x, y, z, t, W(m, t));
  }

  lemma ScheduleLength(block: seq<Word>, m: seq<Byte>, t: nat)
    requires Schedule(block, m, t)
    ensures |m| == 64 && |block| == 16
  {
  }

  /** Five rounds, after which each variable has its first role again. */
  method FiveRounds(a0: Word, b0: Word, c0: Word, d0: Word, e0: Word, t: nat, block: array<Word>, ghost h: Hash,
                    ghost m: seq<Byte>)
    returns (a: Word, b: Word, c: Word, d: Word, e: Word)
    requires |m| == 64 && Schedule(block[..], m, t) && Hash(a0, b0, c0, d0, e0) == Rounds(h, m, t)
    modifies block
    ensures Schedule(block[..], m, t + 5) && Hash(a, b, c, d, e) == Rounds(h, m, t + 5)
  {
    hide Schedule, Rounds;
    a, b, c, d, e := a0, b0, c0, d0, e0;
    e, b := Round(a, b, c, d, e, t, block, h, m);
    d, a := Round(e, a, b, c, d, t + 1, block, h, m);
    c, e := Round(d, e, a, b, c, t + 2, block, h, m);
    b, d := Round(c, d, e, a, b, t + 3, block, h, m);
    a, c := Round(b, c, d, e, a, t + 4, block, h, m);
  }

  /** The block's bytes read as little-endian words. */
  method Load(m: seq<Byte>) returns (block: array<Word>)
    requires |m| == 64
    ensures fresh(block) && Schedule(block[..], m, 0)
  {
    hide LittleEndian;
    block := new Word[16];
    var j := 0;
    while j < 16
      invariant 0 <= j <= 16 && forall i :: 0 <= i < j ==> block[i] == Held(m, 0, i)
    {
      block[j] := LittleEndian(m[4 * j], m[4 * j + 1], m[4 * j + 2], m[4 * j + 3]);
      j := j + 1;
    }
  }

  /** The 80 rounds, written out in the source, in sixteen turns of five. */
  method Transform(h: Hash, m: seq<Byte>) returns (r: Hash)
    requires |m| == 64
    ensures r == Compress(h, m)
  {
    hide Schedule, Rounds, Compress, Plus;
    NoRounds(h, m);
    var block := Load(m);
    var a, b, c, d, e := h.a, h.b, h.c, h.d, h.e;
    for k := 0 to 16
      invariant Schedule(block[..], m, 5 * k) && Hash(a, b, c, d, e) == Rounds(h, m, 5 * k)
    {
      a, b, c, d, e := FiveRounds(a, b, c, d, e, 5 * k, block, h, m);
    }
    AddedBack(h, m, a, b, c, d, e);
    r := Hash(Plus(h.a, a), Plus(h.b, b), Plus(h.c, c), Plus(h.d, d), Plus(h.e, e));
  }

  lemma AddedBack(h: Hash, m: seq<Byte>, a: Word, b: Word, c: Word, d: Word, e: Word)
    requires |m| == 64 && Hash(a, b, c, d, e) == Rounds(h, m, 80)
    ensures Compress(h, m) == Hash(Plus(h.a, a), Plus(h.b, b), Plus(h.c, c), Plus(h.d, d), Plus(h.e, e))
  {
    hide Rounds, Plus;
  }

  lemma NoRounds(h: Hash, m: seq<Byte>)
    requires |m| == 64
    ensures Rounds(h, m, 0) == h
  {
  }
}
