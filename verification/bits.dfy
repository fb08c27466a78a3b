/**
  32-bit register words and the single-bit operations the virtual Local APIC
  performs on them: bit test, set_bit, clear_bit and the "bit scan reverse"
  (most significant set bit) that the 256-bit bitmap scans rely on.
  Bit positions are 32-bit bit-vectors below 32 so that every fact here stays
  in the solver's bit-vector theory.
 */
module Bits {

  /** One 32-bit APIC register slot. */
  type Word = bv32

  /** A bit position inside a Word. */
  type BitIndex = b: bv32 | b < 32

  /** True iff bit `b` of `w` is set. */
  predicate Bit(w: Word, b: BitIndex) {
    (w >> b) & 1 == 1
  }

  /**
    set_bit: bit `b` becomes set and no set bit of `w` is lost (that no other
    bit is gained is SetBitBits).
   */
  function SetBit(w: Word, b: BitIndex): (r: Word)
    ensures Bit(r, b)
    ensures r & w == w
  {
    w | (1 << b)
  }

  /**
    clear_bit: bit `b` becomes clear and no bit is gained (that no other set
    bit is lost is ClearBitBits).
   */
  function ClearBit(w: Word, b: BitIndex): (r: Word)
    ensures !Bit(r, b)
    ensures r & w == r
  {
    w & !(1 << b)
  }

  // Point facts first; the quantified forms are built from them one bit at a
  // time, which keeps each solver query small.

  lemma SetBitAt(w: Word, b: BitIndex, j: BitIndex)
    ensures Bit(SetBit(w, b), j) == (j == b || Bit(w, j))
  {
  }

  lemma ClearBitAt(w: Word, b: BitIndex, j: BitIndex)
    ensures Bit(ClearBit(w, b), j) == (j != b && Bit(w, j))
  {
  }

  lemma SetBitBits(w: Word, b: BitIndex)
    ensures forall j: BitIndex :: Bit(SetBit(w, b), j) == (j == b || Bit(w, j))
  {
    forall j: BitIndex
      ensures Bit(SetBit(w, b), j) == (j == b || Bit(w, j))
    {
      SetBitAt(w, b, j);
    }
  }

  lemma ClearBitBits(w: Word, b: BitIndex)
    ensures forall j: BitIndex :: Bit(ClearBit(w, b), j) == (j != b && Bit(w, j))
  {
    forall j: BitIndex
      ensures Bit(ClearBit(w, b), j) == (j != b && Bit(w, j))
    {
      ClearBitAt(w, b, j);
    }
  }

  lemma SetBitNoop(w: Word, b: BitIndex)
    requires Bit(w, b)
    ensures SetBit(w, b) == w
  {
  }

  lemma ClearBitNoop(w: Word, b: BitIndex)
    requires !Bit(w, b)
    ensures ClearBit(w, b) == w
  {
  }

  /** Clearing a bit that was just set, and was clear before, gives the word back. */
  lemma ClearSetBit(w: Word, b: BitIndex)
    requires !Bit(w, b)
    ensures ClearBit(SetBit(w, b), b) == w
  {
  }

  lemma NoBitOfZero(b: BitIndex)
    ensures !Bit(0, b)
  {
  }

  /** Bit `r` is set and every bit above it is clear. */
  predicate IsMsb(w: Word, r: BitIndex) {
    w >> r == 1
  }

  lemma IsMsbAt(w: Word, r: BitIndex, j: BitIndex)
    requires IsMsb(w, r)
    ensures Bit(w, r)
    ensures r < j ==> !Bit(w, j)
  {
  }

  /**
    bsr: the position of the most significant set bit of a non-zero word,
    found by halving the window that holds it (16, 8, 4, 2, 1 bits).
   */
  function Msb(w: Word): (r: BitIndex)
    requires w != 0
    ensures Bit(w, r) && IsMsb(w, r)
  {
    var r4: bv32 := if w >> 16 != 0 then 16 else 0;
    var r3: bv32 := if w >> (r4 + 8) != 0 then r4 + 8 else r4;
    var r2: bv32 := if w >> (r3 + 4) != 0 then r3 + 4 else r3;
    var r1: bv32 := if w >> (r2 + 2) != 0 then r2 + 2 else r2;
    var r: BitIndex := if w >> (r1 + 1) != 0 then r1 + 1 else r1;
    IsMsbAt(w, r, r);
    r
  }
}
