/**
  The virtual x2APIC register page: one 32-bit slot per 16-byte boundary of a
  4 KiB page, laid out as the xAPIC memory map of Intel SDM Vol. 3A,
  Table 10-1.  Reads zero-extend a slot to 64 bits; writes keep the low 32
  bits of a 64-bit value.  The named accessors (ID, VERSION, TPR, ICR, SVR,
  self-IPI) sit on top of the raw read and write.
 */
module Registers {
  import opened Bits

  /** A register's byte offset inside the page. */
  type Offset = o: int | 0 <= o < 0x1000 && o % 16 == 0

  /** The register page, one Word per 16-byte boundary. */
  type RegisterFile = s: seq<Word> | |s| == 256 witness seq(256, _ => 0)

  /** The slot of the page that `o` addresses. */
  function Slot(o: Offset): (i: nat)
    ensures i < 256 && o == 16 * i
  {
    o / 16
  }

  /** The low 32 bits of a 64-bit value. */
  const Low32: bv64 := 0xFFFF_FFFF

  // Register byte offsets, chosen from SDM Vol. 3A, Table 10-1 (lapic.h,
  // which defines the source's offsets, is not part of this model).
  const Id: Offset := 0x020
  const Version: Offset := 0x030
  const Tpr: Offset := 0x080
  const Eoi: Offset := 0x0B0
  const Dfr: Offset := 0x0E0
  const Svr: Offset := 0x0F0
  const Isr0: Offset := 0x100
  const Irr0: Offset := 0x200
  const LvtCmci: Offset := 0x2F0
  const Icr0: Offset := 0x300
  const Icr1: Offset := 0x310
  const LvtTimer: Offset := 0x320
  const LvtThermal: Offset := 0x330
  const LvtPmi: Offset := 0x340
  const LvtLint0: Offset := 0x350
  const LvtLint1: Offset := 0x360
  const LvtError: Offset := 0x370
  const SelfIpi: Offset := 0x3F0

  /** narrow_cast<uint32_t>: keep the low 32 bits. */
  function Trunc(x: bv64): (w: Word)
    ensures w as bv64 == x & Low32
  {
    (x & Low32) as bv32
  }

  lemma TruncExtend(w: Word)
    ensures Trunc(w as bv64) == w
  {
  }

  /** The two halves of a 64-bit value put back together give the value. */
  lemma SplitJoin(x: bv64)
    ensures ((x >> 32) << 32) | (x & Low32) == x
    ensures (x >> 32) & Low32 == x >> 32
  {
  }

  ///--------------------------------------------------------------------------
  /// Raw register access
  ///--------------------------------------------------------------------------

  /** read_register: the slot at `o`, zero-extended to 64 bits. */
  function Read(f: RegisterFile, o: Offset): (r: bv64)
    ensures r >> 32 == 0
    ensures Trunc(r) == f[Slot(o)]
  {
    var w := f[Slot(o)];
    TruncExtend(w);
    w as bv64
  }

  /** Every offset other than those in `changed` reads the same in `f` and `g`. */
  ghost predicate SameExcept(f: RegisterFile, g: RegisterFile, changed: set<Offset>) {
    forall p: Offset :: p !in changed ==> Read(f, p) == Read(g, p)
  }

  lemma SameExceptTrans(f: RegisterFile, g: RegisterFile, h: RegisterFile, a: set<Offset>, b: set<Offset>)
    requires SameExcept(f, g, a) && SameExcept(g, h, b)
    ensures SameExcept(f, h, a + b)
  {
  }

  lemma SameExceptWeaken(f: RegisterFile, g: RegisterFile, a: set<Offset>, b: set<Offset>)
    requires SameExcept(f, g, a) && a <= b
    ensures SameExcept(f, g, b)
  {
  }

  /** write_register: store the low 32 bits of `x` at `o`, nothing else. */
  function Write(f: RegisterFile, o: Offset, x: bv64): (r: RegisterFile)
    ensures Read(r, o) == x & Low32
    ensures SameExcept(f, r, {o})
  {
    f[Slot(o) := Trunc(x)]
  }

  /** Writing twice to one offset is writing the second value. */
  lemma WriteWrite(f: RegisterFile, o: Offset, x: bv64, y: bv64)
    ensures Write(Write(f, o, x), o, y) == Write(f, o, y)
  {
  }

  /** Writing back what was read changes nothing. */
  lemma WriteRead(f: RegisterFile, o: Offset)
    ensures Write(f, o, Read(f, o)) == f
  {
    assert Trunc(Read(f, o)) == f[Slot(o)];
  }

  ///--------------------------------------------------------------------------
  /// Named accessors
  ///--------------------------------------------------------------------------

  /** read_id: the ID register, zero-extended to 64 bits. */
  function ReadId(f: RegisterFile): (r: bv64)
    ensures r >> 32 == 0
    ensures Trunc(r) == f[Slot(Id)]
  {
    Read(f, Id)
  }

  /** read_version: the VERSION register, zero-extended to 64 bits. */
  function ReadVersion(f: RegisterFile): (r: bv64)
    ensures r >> 32 == 0
    ensures Trunc(r) == f[Slot(Version)]
  {
    Read(f, Version)
  }

  /** read_tpr: the TPR register, zero-extended to 64 bits. */
  function ReadTpr(f: RegisterFile): (r: bv64)
    ensures r >> 32 == 0
    ensures Trunc(r) == f[Slot(Tpr)]
  {
    Read(f, Tpr)
  }

  /** read_svr: the SVR register, zero-extended to 64 bits. */
  function ReadSvr(f: RegisterFile): (r: bv64)
    ensures r >> 32 == 0
    ensures Trunc(r) == f[Slot(Svr)]
  {
    Read(f, Svr)
  }

  /** write_tpr: TPR takes the low 32 bits of `x`; no other register moves. */
  function WriteTpr(f: RegisterFile, x: bv64): (r: RegisterFile)
    ensures ReadTpr(r) == x & Low32
    ensures SameExcept(f, r, {Tpr})
  {
    Write(f, Tpr, x)
  }

  /** write_svr: SVR takes the low 32 bits of `x`; no other register moves. */
  function WriteSvr(f: RegisterFile, x: bv64): (r: RegisterFile)
    ensures ReadSvr(r) == x & Low32
    ensures SameExcept(f, r, {Svr})
  {
    Write(f, Svr, x)
  }

  /** write_self_ipi: the self-IPI register stores the vector; nothing is sent. */
  function WriteSelfIpi(f: RegisterFile, vector: bv64): (r: RegisterFile)
    ensures Read(r, SelfIpi) == vector & Low32
    ensures SameExcept(f, r, {SelfIpi})
  {
    Write(f, SelfIpi, vector)
  }

  /** read_icr: icr1 is the high half, icr0 the low half of the 64-bit ICR. */
  function ReadIcr(f: RegisterFile): (r: bv64)
    ensures r & Low32 == Read(f, Icr0)
    ensures r >> 32 == Read(f, Icr1)
  {
    var icr0 := Read(f, Icr0);
    var icr1 := Read(f, Icr1);
    (icr1 << 32) | icr0
  }

  /** write_icr: the high half goes to icr1 first, then the low half to icr0. */
  function WriteIcr(f: RegisterFile, x: bv64): (r: RegisterFile)
    ensures Read(r, Icr1) == x >> 32
    ensures Read(r, Icr0) == x & Low32
    ensures SameExcept(f, r, {Icr0, Icr1})
  {
    var f1 := Write(f, Icr1, x >> 32);
    Write(f1, Icr0, x & Low32)
  }

  /** Reading the ICR back after writing it gives the full 64-bit value. */
  lemma IcrRoundTrip(f: RegisterFile, x: bv64)
    ensures ReadIcr(WriteIcr(f, x)) == x
  {
    var g := WriteIcr(f, x);
    SplitJoin(x);
    assert Read(g, Icr1) == x >> 32;
    assert Read(g, Icr0) == x & Low32;
  }

  /** Writing back the ICR value just read leaves the page as it was. */
  lemma IcrWriteBack(f: RegisterFile)
    ensures WriteIcr(f, ReadIcr(f)) == f
  {
    var x := ReadIcr(f);
    WriteRead(f, Icr1);
    WriteRead(f, Icr0);
    assert Write(f, Icr1, x >> 32) == f;
  }
}
