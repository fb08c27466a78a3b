/**
  The 256-bit priority bitmaps of the Local APIC (IRR and ISR): eight 32-bit
  words, word k holding vectors 32*k .. 32*k+31, bit b of word k standing for
  vector 32*k + b.  The operations scan the words from the highest (word 7)
  down and, inside a word, pick the most significant set bit, so the highest
  pending vector always wins (Intel SDM Vol. 3A, section 10.8.4).
 */
module Bitmap256 {
  import opened Bits

  /** An interrupt vector, 0 .. 255. */
  type Vector = bv8

  /** The position of a word inside a bitmap. */
  type WordIndex = k: nat | k < 8

  /** Eight consecutive 32-bit registers; index 0 holds vectors 0 .. 31. */
  type Bitmap = s: seq<Word> | |s| == 8 witness [0, 0, 0, 0, 0, 0, 0, 0]

  /** ipc = (vector & 0xE0) >> 5: the word that holds `v`. */
  function Ipc(v: Vector): WordIndex {
    ((v & 0xE0) >> 5) as int
  }

  /** bit = vector & 0x1F: the position of `v` inside its word. */
  function BitOf(v: Vector): BitIndex {
    (v & 0x1F) as bv32
  }

  /** ((word) << 5) | bit: the vector a word index and a bit position name. */
  function VectorOf(k: WordIndex, b: BitIndex): Vector {
    ((k as bv8) << 5) | (b as bv8)
  }

  lemma VectorOfParts(k: WordIndex, b: BitIndex)
    ensures Ipc(VectorOf(k, b)) == k && BitOf(VectorOf(k, b)) == b
  {
  }

  lemma PartsOfVector(v: Vector)
    ensures VectorOf(Ipc(v), BitOf(v)) == v
  {
  }

  /** Vector order is word order first, bit order inside a word. */
  lemma VectorOrder(u: Vector, v: Vector)
    ensures u <= v <==> Ipc(u) < Ipc(v) || (Ipc(u) == Ipc(v) && BitOf(u) <= BitOf(v))
  {
  }

  /** True iff vector `v` is flagged in `m`. */
  predicate Has(m: Bitmap, v: Vector) {
    Bit(m[Ipc(v)], BitOf(v))
  }

  /** The number of 32-bit words in a bitmap. */
  const Words: nat := 8

  /** The bitmap with no vector flagged. */
  const Empty: Bitmap := [0, 0, 0, 0, 0, 0, 0, 0]

  ///--------------------------------------------------------------------------
  /// Setting and clearing one vector
  ///--------------------------------------------------------------------------

  /** Read-modify-write of the word holding `v`, setting its bit. */
  function Set(m: Bitmap, v: Vector): Bitmap {
    m[Ipc(v) := SetBit(m[Ipc(v)], BitOf(v))]
  }

  /** Read-modify-write of the word holding `v`, clearing its bit. */
  function Clear(m: Bitmap, v: Vector): Bitmap {
    m[Ipc(v) := ClearBit(m[Ipc(v)], BitOf(v))]
  }

  /** Set flags `v` and leaves every other vector as it was. */
  lemma SetHas(m: Bitmap, v: Vector, u: Vector)
    ensures Has(Set(m, v), u) == (u == v || Has(m, u))
  {
    PartsOfVector(u);
    PartsOfVector(v);
    SetBitAt(m[Ipc(v)], BitOf(v), BitOf(u));
  }

  /** Clear unflags `v` and leaves every other vector as it was. */
  lemma ClearHas(m: Bitmap, v: Vector, u: Vector)
    ensures Has(Clear(m, v), u) == (u != v && Has(m, u))
  {
    PartsOfVector(u);
    PartsOfVector(v);
    ClearBitAt(m[Ipc(v)], BitOf(v), BitOf(u));
  }

  lemma SetMembers(m: Bitmap, v: Vector)
    ensures forall u :: Has(Set(m, v), u) == (u == v || Has(m, u))
  {
    forall u ensures Has(Set(m, v), u) == (u == v || Has(m, u)) {
      SetHas(m, v, u);
    }
  }

  lemma ClearMembers(m: Bitmap, v: Vector)
    ensures forall u :: Has(Clear(m, v), u) == (u != v && Has(m, u))
  {
    forall u ensures Has(Clear(m, v), u) == (u != v && Has(m, u)) {
      ClearHas(m, v, u);
    }
  }

  /** Setting a vector that is already flagged changes no word. */
  lemma SetIdempotent(m: Bitmap, v: Vector)
    requires Has(m, v)
    ensures Set(m, v) == m
  {
    SetBitNoop(m[Ipc(v)], BitOf(v));
  }

  /** Clearing a vector that is not flagged changes no word. */
  lemma ClearIdempotent(m: Bitmap, v: Vector)
    requires !Has(m, v)
    ensures Clear(m, v) == m
  {
    ClearBitNoop(m[Ipc(v)], BitOf(v));
  }

  /** Clearing a vector just set, that was not flagged before, restores the bitmap. */
  lemma ClearAfterSet(m: Bitmap, v: Vector)
    requires !Has(m, v)
    ensures Clear(Set(m, v), v) == m
  {
    ClearSetBit(m[Ipc(v)], BitOf(v));
    assert Clear(Set(m, v), v) == m[Ipc(v) := m[Ipc(v)]];
  }

  ///--------------------------------------------------------------------------
  /// is_empty_256bit
  ///--------------------------------------------------------------------------

  /** Scan words n-1 down to 0, answering false at the first non-zero word. */
  function IsEmptyBelow(m: Bitmap, n: nat): (r: bool)
    requires n <= 8
    ensures r <==> forall k :: 0 <= k < n ==> m[k] == 0
  {
    if n == 0 then true
    else if m[n - 1] != 0 then false
    else IsEmptyBelow(m, n - 1)
  }

  /** is_empty_256bit: true iff all eight words are zero. */
  function IsEmpty(m: Bitmap): (r: bool)
    ensures r <==> forall k :: 0 <= k < 8 ==> m[k] == 0
  {
    IsEmptyBelow(m, Words)
  }

  /** The bitmap is empty iff no vector is flagged in it. */
  lemma {:induction false} EmptyIffNoVector(m: Bitmap)
    ensures IsEmpty(m) <==> forall v :: !Has(m, v)
  {
    if IsEmpty(m) {
      forall v ensures !Has(m, v) {
        NoBitOfZero(BitOf(v));
      }
    } else {
      var k :| 0 <= k < 8 && m[k] != 0;
      var b := Msb(m[k]);
      VectorOfParts(k, b);
      assert Has(m, VectorOf(k, b));
    }
  }

  ///--------------------------------------------------------------------------
  /// top_256bit
  ///--------------------------------------------------------------------------

  /**
    Scan words n-1 down to 0; at the first non-zero word k answer
    (k << 5) | msb; answer 0 when all n words are zero.
   */
  function TopBelow(m: Bitmap, n: nat): (r: Vector)
    requires n <= 8
    ensures IsEmptyBelow(m, n) ==> r == 0
    ensures !IsEmptyBelow(m, n) ==> Ipc(r) < n && Has(m, r)
  {
    if n == 0 then 0
    else if m[n - 1] == 0 then TopBelow(m, n - 1)
    else
      var b := Msb(m[n - 1]);
      VectorOfParts(n - 1, b);
      VectorOf(n - 1, b)
  }

  /** top_256bit: the highest flagged vector, or 0 when none is flagged. */
  function Top(m: Bitmap): (r: Vector)
    ensures IsEmpty(m) ==> r == 0
    ensures !IsEmpty(m) ==> Has(m, r)
    ensures forall u :: Has(m, u) ==> u <= r
  {
    TopBelowBound(m);
    TopBelow(m, Words)
  }

  /** A vector in a lower word, or lower in the same word, is below VectorOf(k, b). */
  lemma BelowVectorOf(u: Vector, k: WordIndex, b: BitIndex)
    requires Ipc(u) < k || (Ipc(u) == k && BitOf(u) <= b)
    ensures u <= VectorOf(k, b)
  {
    VectorOfParts(k, b);
    VectorOrder(u, VectorOf(k, b));
  }

  /** The scan stops at a non-zero word k, answering its most significant bit. */
  lemma TopInNonZeroWord(m: Bitmap, k: WordIndex, u: Vector)
    requires m[k] != 0 && Ipc(u) <= k && Has(m, u)
    ensures u <= TopBelow(m, k + 1)
  {
    var b := Msb(m[k]);
    assert TopBelow(m, k + 1) == VectorOf(k, b);
    if Ipc(u) == k {
      IsMsbAt(m[k], b, BitOf(u));
    }
    BelowVectorOf(u, k, b);
  }

  /** A flagged vector does not live in a zero word. */
  lemma NotInZeroWord(m: Bitmap, n: nat, u: Vector)
    requires 0 < n <= 8 && m[n - 1] == 0 && Ipc(u) < n && Has(m, u)
    ensures Ipc(u) < n - 1
  {
    if Ipc(u) == n - 1 {
      NoBitOfZero(BitOf(u));
    }
  }

  /** The scan passes over a zero word. */
  lemma TopBelowSkip(m: Bitmap, n: nat)
    requires 0 < n <= 8 && m[n - 1] == 0
    ensures TopBelow(m, n) == TopBelow(m, n - 1)
  {
  }

  /** No vector flagged in words below n exceeds TopBelow(m, n). */
  lemma {:induction false} TopBelowIsHighest(m: Bitmap, n: nat, u: Vector)
    requires n <= 8 && Ipc(u) < n && Has(m, u)
    ensures u <= TopBelow(m, n)
  {
    var k: nat := n - 1;
    if m[k] != 0 {
      TopInNonZeroWord(m, k, u);
    } else {
      NotInZeroWord(m, n, u);
      TopBelowSkip(m, n);
      TopBelowIsHighest(m, k, u);
    }
  }

  lemma TopBelowBound(m: Bitmap)
    ensures forall u :: Has(m, u) ==> u <= TopBelow(m, Words)
  {
    forall u | Has(m, u) ensures u <= TopBelow(m, Words) {
      TopBelowIsHighest(m, Words, u);
    }
  }

  ///--------------------------------------------------------------------------
  /// pop_256bit
  ///--------------------------------------------------------------------------

  /**
    Scan words n-1 down to 0; clear the most significant set bit of the first
    non-zero word and stop; change nothing when all n words are zero.
   */
  function PopBelow(m: Bitmap, n: nat): (r: Bitmap)
    requires n <= 8
    ensures r == if IsEmptyBelow(m, n) then m else Clear(m, TopBelow(m, n))
  {
    if n == 0 then m
    else if m[n - 1] == 0 then PopBelow(m, n - 1)
    else
      var b := Msb(m[n - 1]);
      VectorOfParts(n - 1, b);
      m[n - 1 := ClearBit(m[n - 1], b)]
  }

  /** pop_256bit clears exactly the bit top_256bit reports; no-op when empty. */
  function Pop(m: Bitmap): (r: Bitmap)
    ensures IsEmpty(m) ==> r == m
    ensures !IsEmpty(m) ==> r == Clear(m, Top(m))
  {
    PopBelow(m, Words)
  }

  /** Pop unflags the top vector and no other (on an empty bitmap, nothing). */
  lemma PopMembers(m: Bitmap)
    ensures forall u :: Has(Pop(m), u) == (u != Top(m) && Has(m, u))
  {
    if IsEmpty(m) {
      EmptyIffNoVector(m);
    } else {
      ClearMembers(m, Top(m));
    }
  }

  /** Setting a vector above every flagged one makes it the top, and Pop takes it off again. */
  lemma TopAfterSet(m: Bitmap, v: Vector)
    requires forall u :: Has(m, u) ==> u < v
    ensures Top(Set(m, v)) == v
    ensures Pop(Set(m, v)) == m
  {
    var m1 := Set(m, v);
    SetHas(m, v, v);
    SetHas(m, v, Top(m1));
    assert Top(m1) == v;
    ClearAfterSet(m, v);
  }

  /** A bitmap holding exactly one vector reports that vector as its top. */
  lemma SingleTop(v: Vector)
    ensures Top(Set(Empty, v)) == v
    ensures IsEmpty(Pop(Set(Empty, v)))
  {
    var m := Set(Empty, v);
    MembersTopPop(Empty);
    SetClearMembers(Empty, v);
    MembersTopPop(m);
    MembersTopPop(Pop(m));
  }

  ///--------------------------------------------------------------------------
  /// The bitmap as a set of vectors
  ///--------------------------------------------------------------------------

  /** The vectors set in `m`. */
  ghost function Members(m: Bitmap): iset<Vector> {
    iset u | Has(m, u)
  }

  /** A bitmap holding the members of `m` and `v`. */
  lemma MembersWith(m: Bitmap, m1: Bitmap, v: Vector)
    requires forall u :: Has(m1, u) <==> u == v || Has(m, u)
    ensures Members(m1) == Members(m) + iset{v}
  {
    assert forall u :: u in Members(m1) <==> u == v || u in Members(m);
  }

  /** A bitmap holding the members of `m` other than `v`. */
  lemma MembersWithout(m: Bitmap, m1: Bitmap, v: Vector)
    requires forall u :: Has(m1, u) <==> u != v && Has(m, u)
    ensures Members(m1) == Members(m) - iset{v}
  {
    assert forall u :: u in Members(m1) <==> u != v && u in Members(m);
  }

  /** Set and Clear add and remove one member. */
  lemma SetClearMembers(m: Bitmap, v: Vector)
    ensures Members(Set(m, v)) == Members(m) + iset{v}
    ensures Members(Clear(m, v)) == Members(m) - iset{v}
  {
    SetMembers(m, v);
    MembersWith(m, Set(m, v), v);
    ClearMembers(m, v);
    MembersWithout(m, Clear(m, v), v);
  }

  /**
    Emptiness, Top and Pop seen on the members: empty means no member; the top
    of a non-empty bitmap is its largest member; Pop removes the top.
   */
  lemma MembersTopPop(m: Bitmap)
    ensures IsEmpty(m) <==> Members(m) == iset{}
    ensures !IsEmpty(m) ==> Top(m) in Members(m)
    ensures forall u :: u in Members(m) ==> u <= Top(m)
    ensures Members(Pop(m)) == Members(m) - (if IsEmpty(m) then iset{} else iset{Top(m)})
  {
    EmptyIffNoVector(m);
    PopMembers(m);
    if IsEmpty(m) {
      assert Members(m) == iset{};
    } else {
      assert Top(m) in Members(m);
    }
  }
}
