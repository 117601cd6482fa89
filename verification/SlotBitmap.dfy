/** Bitmaps of hash slots: one bit per slot, eight slots per byte. */
module SlotBitmap {
  const SLOTS := 16384

  function Mask(i: nat): bv8
    requires i < 8
  {
    (1 as bv8) << i
  }

  lemma MaskTable(i: nat)
    requires i < 8
    ensures Mask(i) == if i == 0 then 1 else if i == 1 then 2 else if i == 2 then 4 else if i == 3 then 8
                       else if i == 4 then 16 else if i == 5 then 32 else if i == 6 then 64 else 128
  {
    if i == 0 {} else if i == 1 {} else if i == 2 {} else if i == 3 {}
    else if i == 4 {} else if i == 5 {} else if i == 6 {} else {}
  }

  predicate Meets(x: bv8, m: bv8) { x & m != 0 }
  function With(x: bv8, m: bv8): bv8 { x | m }
  function Without(x: bv8, m: bv8): bv8 { x & !m }

  predicate TestByte(x: bv8, i: nat)
    requires i < 8
  {
    Meets(x, Mask(i))
  }

  function SetByte(x: bv8, i: nat): bv8
    requires i < 8
  {
    With(x, Mask(i))
  }

  function ClearByte(x: bv8, i: nat): bv8
    requires i < 8
  {
    Without(x, Mask(i))
  }

  lemma Masks(i: nat, j: nat)
    requires i < 8 && j < 8
    ensures Mask(i) != 0 && (i != j ==> !Meets(Mask(i), Mask(j)))
  {
    MaskTable(i);
    MaskTable(j);
    hide Mask;
  }

  lemma SameMask(x: bv8, m: bv8)
    requires m != 0
    ensures Meets(With(x, m), m) && !Meets(Without(x, m), m)
  {
  }

  lemma OtherMask(x: bv8, m: bv8, n: bv8)
    requires !Meets(m, n)
    ensures Meets(With(x, m), n) == Meets(x, n) == Meets(Without(x, m), n)
  {
  }

  lemma SameBit(x: bv8, i: nat)
    requires i < 8
    ensures TestByte(SetByte(x, i), i) && !TestByte(ClearByte(x, i), i)
  {
    hide Mask, Meets, With, Without;
    Masks(i, i);
    SameMask(x, Mask(i));
  }

  lemma OtherBit(x: bv8, i: nat, j: nat)
    requires i < 8 && j < 8 && i != j
    ensures TestByte(SetByte(x, i), j) == TestByte(x, j) == TestByte(ClearByte(x, i), j)
  {
    hide Mask, Meets, With, Without;
    Masks(i, j);
    OtherMask(x, Mask(i), Mask(j));
  }

  predicate IsBitmap(b: seq<bv8>) { |b| == SLOTS / 8 }

  /** `bitmapTestBit`. */
  predicate Test(b: seq<bv8>, pos: nat)
    requires IsBitmap(b) && pos < SLOTS
  {
    TestByte(b[pos / 8], pos % 8)
  }

  /** `bitmapSetBit`. */
  function Set(b: seq<bv8>, pos: nat): (r: seq<bv8>)
    requires IsBitmap(b) && pos < SLOTS
    ensures IsBitmap(r)
  {
    b[pos / 8 := SetByte(b[pos / 8], pos % 8)]
  }

  /** `bitmapClearBit`. */
  function Clear(b: seq<bv8>, pos: nat): (r: seq<bv8>)
    requires IsBitmap(b) && pos < SLOTS
    ensures IsBitmap(r)
  {
    b[pos / 8 := ClearByte(b[pos / 8], pos % 8)]
  }

  /** Each bit is set and cleared alone. */
  lemma BitOver(b: seq<bv8>, p: nat, q: nat)
    requires IsBitmap(b) && p < SLOTS && q < SLOTS
    ensures Test(Set(b, p), q) <==> p == q || Test(b, q)
    ensures Test(Clear(b, p), q) <==> p != q && Test(b, q)
  {
    hide TestByte, SetByte, ClearByte;
    if p / 8 == q / 8 {
      if p == q { SameBit(b[p / 8], p % 8); } else { OtherBit(b[p / 8], p % 8, q % 8); }
    }
  }
}
