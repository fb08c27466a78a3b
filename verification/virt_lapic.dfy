/**
  The virtual Local APIC: the register page together with the hypervisor's
  interrupt window.  IRR and ISR are read out of the page as 256-bit bitmaps;
  queueing, injecting, end-of-interrupt and the interrupt-window exit handler
  move vectors between them and hand vectors to the window.
 */
module VirtLapic {
  import opened Bits
  import opened Bitmap256
  import opened Registers
  import opened InterruptWindow
  import opened Reset

  /** One virtual Local APIC: its register page and its vCPU's interrupt window. */
  datatype Lapic = Lapic(regs: RegisterFile, window: Window)

  ///--------------------------------------------------------------------------
  /// Where IRR and ISR live in the page
  ///--------------------------------------------------------------------------

  /** x2APIC MSR addresses of IRR7 and ISR7 (SDM Vol. 3A, Table 10-6). */
  const Irr7Msr: int := 0x827
  const Isr7Msr: int := 0x817

  /**
    from_msr_addr, as this model lays out the page (lapic.h, which defines
    it, is not part of this model): x2APIC MSR 0x800 + i is the register at
    byte offset i << 4, the MMIO offset of SDM Vol. 3A, section 10.12.1.2.
   */
  function FromMsrAddr(addr: int): (o: Offset)
    requires 0x800 <= addr < 0x900
    ensures Slot(o) == addr - 0x800
  {
    (addr - 0x800) * 16
  }

  /** The first page slot of the bitmap whose word 7 is at MSR `last`. */
  function FirstSlot(last: int): nat
    requires last == Irr7Msr || last == Isr7Msr
  {
    last - 7 - 0x800
  }

  /** The eight words of the bitmap whose word 7 is at MSR `last`, word 0 first. */
  function Range(f: RegisterFile, last: int): Bitmap
    requires last == Irr7Msr || last == Isr7Msr
  {
    f[FirstSlot(last) .. FirstSlot(last) + 8]
  }

  /**
    The 256-bit scans (top, pop, is_empty) read, at step i (0 .. 7), the
    register at MSR `last - i`: that is word 7 - i of the bitmap.
   */
  lemma RangeIsScan(f: RegisterFile, last: int)
    requires last == Irr7Msr || last == Isr7Msr
    ensures forall k :: 0 <= k < 8 ==> Range(f, last)[k] == f[Slot(FromMsrAddr(last - (7 - k)))]
  {
    forall k | 0 <= k < 8
      ensures Range(f, last)[k] == f[Slot(FromMsrAddr(last - (7 - k)))]
    {
      assert Slot(FromMsrAddr(last - (7 - k))) == FirstSlot(last) + k;
    }
  }

  /**
    irr0 | (ipc << 4), isr0 | (ipc << 4): the offset of word `ipc` of the
    bitmap whose word 0 is at `base`.
   */
  function WordOffset(base: Offset, ipc: WordIndex): (o: Offset)
    requires base == Irr0 || base == Isr0
    ensures o == base + 16 * ipc
  {
    WordOffsetIsSum(base, ipc);
    ((base as bv16) | ((ipc as bv16) << 4)) as int
  }

  /** Bits 4-6 of irr0 and isr0 are clear, so or-ing in ipc << 4 adds 16 * ipc. */
  lemma WordOffsetIsSum(base: Offset, ipc: WordIndex)
    requires base == Irr0 || base == Isr0
    ensures ((base as bv16) | ((ipc as bv16) << 4)) as int == base + 16 * ipc
    ensures 0 <= base + 16 * ipc < 0x1000 && (base + 16 * ipc) % 16 == 0
  {
    match ipc
    case 0 => case 1 => case 2 => case 3 =>
    case 4 => case 5 => case 6 => case 7 =>
  }

  /** The offset computation of queue_interrupt and the scan of top_256bit agree. */
  lemma WordOffsetInRange(ipc: WordIndex)
    ensures Slot(WordOffset(Irr0, ipc)) == FirstSlot(Irr7Msr) + ipc
    ensures Slot(WordOffset(Isr0, ipc)) == FirstSlot(Isr7Msr) + ipc
  {
  }

  /** IRR as a bitmap. */
  function Irr(l: Lapic): Bitmap {
    Range(l.regs, Irr7Msr)
  }

  /** ISR as a bitmap. */
  function Isr(l: Lapic): Bitmap {
    Range(l.regs, Isr7Msr)
  }

  /** Offset of the IRR word that holds `v`. */
  function IrrWord(v: Vector): Offset {
    WordOffset(Irr0, Ipc(v))
  }

  /** Offset of the ISR word that holds `v`. */
  function IsrWord(v: Vector): Offset {
    WordOffset(Isr0, Ipc(v))
  }

  /** Replace the eight words of the range ending at `last` by `m`. */
  function WithRange(f: RegisterFile, last: int, m: Bitmap): RegisterFile
    requires last == Irr7Msr || last == Isr7Msr
  {
    var s := FirstSlot(last);
    f[..s] + m + f[s + 8..]
  }

  /** The offsets of the eight words of the range ending at `last`. */
  function RangeOffsets(last: int): set<Offset>
    requires last == Irr7Msr || last == Isr7Msr
  {
    set p: Offset | 0 <= p < 0x1000 && FirstSlot(last) <= Slot(p) < FirstSlot(last) + 8
  }

  ///--------------------------------------------------------------------------
  /// How writes move the bitmaps
  ///--------------------------------------------------------------------------

  /** A write to word k of a range updates word k of that bitmap. */
  lemma RangeWriteInside(f: RegisterFile, last: int, k: WordIndex, x: bv64)
    requires last == Irr7Msr || last == Isr7Msr
    ensures Range(Write(f, (FirstSlot(last) + k) * 16, x), last) == Range(f, last)[k := Trunc(x)]
  {
  }

  /** A write outside a range leaves that bitmap as it was. */
  lemma RangeWriteOutside(f: RegisterFile, last: int, o: Offset, x: bv64)
    requires last == Irr7Msr || last == Isr7Msr
    requires !(FirstSlot(last) <= Slot(o) < FirstSlot(last) + 8)
    ensures Range(Write(f, o, x), last) == Range(f, last)
  {
  }

  /** Storing a bitmap into its range and reading it back gives the bitmap. */
  lemma WithRangeFacts(f: RegisterFile, last: int, m: Bitmap)
    requires last == Irr7Msr || last == Isr7Msr
    ensures Range(WithRange(f, last, m), last) == m
    ensures forall other :: (other == Irr7Msr || other == Isr7Msr) && other != last ==>
      Range(WithRange(f, last, m), other) == Range(f, other)
    ensures SameExcept(f, WithRange(f, last, m), RangeOffsets(last))
  {
    var g := WithRange(f, last, m);
    forall other | (other == Irr7Msr || other == Isr7Msr) && other != last
      ensures Range(g, other) == Range(f, other)
    {
    }
    forall p: Offset | p !in RangeOffsets(last)
      ensures Read(f, p) == Read(g, p)
    {
      assert g[Slot(p)] == f[Slot(p)];
    }
  }

  ///--------------------------------------------------------------------------
  /// 256-bit register manipulation on IRR and ISR
  ///--------------------------------------------------------------------------

  /** top_irr: the highest pending vector, or 0 when none is pending. */
  function TopIrr(l: Lapic): (r: Vector)
    ensures IrrIsEmpty(l) ==> r == 0
    ensures !IrrIsEmpty(l) ==> Has(Irr(l), r)
    ensures forall u :: Has(Irr(l), u) ==> u <= r
  {
    Top(Irr(l))
  }

  /** top_isr: the highest in-service vector, or 0 when none is in service. */
  function TopIsr(l: Lapic): (r: Vector)
    ensures IsrIsEmpty(l) ==> r == 0
    ensures !IsrIsEmpty(l) ==> Has(Isr(l), r)
    ensures forall u :: Has(Isr(l), u) ==> u <= r
  {
    Top(Isr(l))
  }

  /** irr_is_empty: true iff no vector is pending. */
  function IrrIsEmpty(l: Lapic): (r: bool)
    ensures r <==> forall u :: !Has(Irr(l), u)
  {
    EmptyIffNoVector(Irr(l));
    IsEmpty(Irr(l))
  }

  /** isr_is_empty: true iff no vector is in service. */
  function IsrIsEmpty(l: Lapic): (r: bool)
    ensures r <==> forall u :: !Has(Isr(l), u)
  {
    EmptyIffNoVector(Isr(l));
    IsEmpty(Isr(l))
  }

  /** pop_irr: IRR loses its top vector; ISR, the window and every register outside IRR stay. */
  function PopIrr(l: Lapic): (r: Lapic)
    ensures Irr(r) == Pop(Irr(l)) && Isr(r) == Isr(l) && r.window == l.window
    ensures SameExcept(l.regs, r.regs, RangeOffsets(Irr7Msr))
  {
    WithRangeFacts(l.regs, Irr7Msr, Pop(Irr(l)));
    l.(regs := WithRange(l.regs, Irr7Msr, Pop(Irr(l))))
  }

  /** pop_isr: ISR loses its top vector; IRR, the window and every register outside ISR stay. */
  function PopIsr(l: Lapic): (r: Lapic)
    ensures Isr(r) == Pop(Isr(l)) && Irr(r) == Irr(l) && r.window == l.window
    ensures SameExcept(l.regs, r.regs, RangeOffsets(Isr7Msr))
  {
    WithRangeFacts(l.regs, Isr7Msr, Pop(Isr(l)));
    l.(regs := WithRange(l.regs, Isr7Msr, Pop(Isr(l))))
  }

  ///--------------------------------------------------------------------------
  /// Read-modify-write of one bitmap bit in the page
  ///--------------------------------------------------------------------------

  /** write_register(o, set_bit(read_register(o), b)) */
  function WriteSetBit(f: RegisterFile, o: Offset, b: BitIndex): RegisterFile {
    Write(f, o, SetBit(Trunc(Read(f, o)), b) as bv64)
  }

  /** write_register(o, clear_bit(read_register(o), b)) */
  function WriteClearBit(f: RegisterFile, o: Offset, b: BitIndex): RegisterFile {
    Write(f, o, ClearBit(Trunc(Read(f, o)), b) as bv64)
  }

  /** Setting a bit that is already set writes back the word that was read. */
  lemma WriteSetBitNoop(f: RegisterFile, o: Offset, b: BitIndex)
    requires Bit(f[Slot(o)], b)
    ensures WriteSetBit(f, o, b) == f
  {
    var w := f[Slot(o)];
    assert Trunc(Read(f, o)) == w;
    SetBitNoop(w, b);
    TruncExtend(w);
    assert WriteSetBit(f, o, b) == f[Slot(o) := w];
  }

  /** Setting bit `b` of word k of a range sets bit `b` of word k of that bitmap. */
  lemma RangeWriteSetBit(f: RegisterFile, last: int, k: WordIndex, b: BitIndex)
    requires last == Irr7Msr || last == Isr7Msr
    ensures Range(WriteSetBit(f, (FirstSlot(last) + k) * 16, b), last)
         == Range(f, last)[k := SetBit(Range(f, last)[k], b)]
  {
    var o := (FirstSlot(last) + k) * 16;
    var w := SetBit(Trunc(Read(f, o)), b);
    assert Trunc(Read(f, o)) == Range(f, last)[k];
    TruncExtend(w);
    RangeWriteInside(f, last, k, w as bv64);
    assert Range(Write(f, o, w as bv64), last) == Range(f, last)[k := Trunc(w as bv64)];
    assert Trunc(w as bv64) == SetBit(Range(f, last)[k], b);
    assert WriteSetBit(f, o, b) == Write(f, o, w as bv64);
  }

  /** Clearing bit `b` of word k of a range clears bit `b` of word k of that bitmap. */
  lemma RangeWriteClearBit(f: RegisterFile, last: int, k: WordIndex, b: BitIndex)
    requires last == Irr7Msr || last == Isr7Msr
    ensures Range(WriteClearBit(f, (FirstSlot(last) + k) * 16, b), last)
         == Range(f, last)[k := ClearBit(Range(f, last)[k], b)]
  {
    var o := (FirstSlot(last) + k) * 16;
    var w := ClearBit(Trunc(Read(f, o)), b);
    assert Trunc(Read(f, o)) == Range(f, last)[k];
    TruncExtend(w);
    RangeWriteInside(f, last, k, w as bv64);
    assert Range(Write(f, o, w as bv64), last) == Range(f, last)[k := Trunc(w as bv64)];
    assert Trunc(w as bv64) == ClearBit(Range(f, last)[k], b);
    assert WriteClearBit(f, o, b) == Write(f, o, w as bv64);
  }

  /** Set the bit of `v` in the IRR word that holds it. */
  function SetIrrBit(f: RegisterFile, v: Vector): (g: RegisterFile)
    ensures Range(g, Irr7Msr) == Set(Range(f, Irr7Msr), v)
    ensures Range(g, Isr7Msr) == Range(f, Isr7Msr)
    ensures SameExcept(f, g, {IrrWord(v)})
  {
    var o := IrrWord(v);
    WordOffsetInRange(Ipc(v));
    RangeWriteSetBit(f, Irr7Msr, Ipc(v), BitOf(v));
    RangeWriteOutside(f, Isr7Msr, o, SetBit(Trunc(Read(f, o)), BitOf(v)) as bv64);
    WriteSetBit(f, o, BitOf(v))
  }

  /** Clear the bit of `v` in the IRR word that holds it. */
  function ClearIrrBit(f: RegisterFile, v: Vector): (g: RegisterFile)
    ensures Range(g, Irr7Msr) == Clear(Range(f, Irr7Msr), v)
    ensures Range(g, Isr7Msr) == Range(f, Isr7Msr)
    ensures SameExcept(f, g, {IrrWord(v)})
  {
    var o := IrrWord(v);
    WordOffsetInRange(Ipc(v));
    RangeWriteClearBit(f, Irr7Msr, Ipc(v), BitOf(v));
    RangeWriteOutside(f, Isr7Msr, o, ClearBit(Trunc(Read(f, o)), BitOf(v)) as bv64);
    WriteClearBit(f, o, BitOf(v))
  }

  /** Set the bit of `v` in the ISR word that holds it. */
  function SetIsrBit(f: RegisterFile, v: Vector): (g: RegisterFile)
    ensures Range(g, Isr7Msr) == Set(Range(f, Isr7Msr), v)
    ensures Range(g, Irr7Msr) == Range(f, Irr7Msr)
    ensures SameExcept(f, g, {IsrWord(v)})
  {
    var o := IsrWord(v);
    WordOffsetInRange(Ipc(v));
    RangeWriteSetBit(f, Isr7Msr, Ipc(v), BitOf(v));
    RangeWriteOutside(f, Irr7Msr, o, SetBit(Trunc(Read(f, o)), BitOf(v)) as bv64);
    WriteSetBit(f, o, BitOf(v))
  }

  ///--------------------------------------------------------------------------
  /// Interrupt injection
  ///--------------------------------------------------------------------------

  /**
    queue_interrupt: IRR gains exactly `v`; ISR, the window and every
    register other than the IRR word of `v` stay as they were.
   */
  function QueueInterrupt(l: Lapic, v: Vector): (r: Lapic)
    ensures forall u :: Has(Irr(r), u) <==> u == v || Has(Irr(l), u)
    ensures Irr(r) == Set(Irr(l), v)
    ensures Isr(r) == Isr(l) && r.window == l.window
    ensures SameExcept(l.regs, r.regs, {IrrWord(v)})
  {
    SetMembers(Irr(l), v);
    l.(regs := SetIrrBit(l.regs, v))
  }

  /** queue_interrupt into an empty IRR: top_irr reports the queued vector, and popping it empties IRR. */
  lemma QueueOnEmptyTop(l: Lapic, v: Vector)
    requires IsEmpty(Irr(l))
    ensures TopIrr(QueueInterrupt(l, v)) == v
    ensures IsEmpty(Irr(PopIrr(QueueInterrupt(l, v))))
  {
    assert Irr(l) == Empty;
    SingleTop(v);
  }

  /**
    inject_interrupt: IRR loses `v` (nothing happens there if it was not
    pending), ISR gains `v`, and `v` is handed to the window; no other
    vector and no register outside those two words moves.
   */
  function InjectInterrupt(l: Lapic, v: Vector): (r: Lapic)
    ensures forall u :: Has(Irr(r), u) <==> u != v && Has(Irr(l), u)
    ensures forall u :: Has(Isr(r), u) <==> u == v || Has(Isr(l), u)
    ensures Irr(r) == Clear(Irr(l), v) && Isr(r) == Set(Isr(l), v)
    ensures r.window == Inject(l.window, v)
    ensures SameExcept(l.regs, r.regs, {IrrWord(v), IsrWord(v)})
  {
    ClearMembers(Irr(l), v);
    SetMembers(Isr(l), v);
    var f1 := ClearIrrBit(l.regs, v);
    var f2 := SetIsrBit(f1, v);
    Lapic(f2, Inject(l.window, v))
  }

  /**
    queue_injection: with the window open, exactly inject_interrupt; with it
    closed, IRR gains `v`, window exiting is armed, ISR is untouched and
    nothing is injected.
   */
  function QueueInjection(l: Lapic, v: Vector): (r: Lapic)
    ensures l.window.open ==> r == InjectInterrupt(l, v)
    ensures !l.window.open ==>
      && (forall u :: Has(Irr(r), u) <==> u == v || Has(Irr(l), u))
      && Isr(r) == Isr(l)
      && r.window == EnableExiting(l.window)
      && SameExcept(l.regs, r.regs, {IrrWord(v)})
  {
    if l.window.open then
      InjectInterrupt(l, v)
    else
      var l1 := QueueInterrupt(l, v);
      l1.(window := EnableExiting(l1.window))
  }

  /** Queueing a vector that is already pending changes no register. */
  lemma RequeuePending(l: Lapic, v: Vector)
    requires !l.window.open && Has(Irr(l), v)
    ensures QueueInjection(l, v).regs == l.regs
  {
    WordOffsetInRange(Ipc(v));
    assert l.regs[Slot(IrrWord(v))] == Irr(l)[Ipc(v)];
    WriteSetBitNoop(l.regs, IrrWord(v), BitOf(v));
  }

  /**
    inject_spurious as written: with the window open the vector goes straight
    to the window, IRR and ISR untouched; with it closed nothing happens.  The
    "denied" diagnostic (second component) is raised in both cases.
   */
  function InjectSpuriousAsWritten(l: Lapic, v: Vector): (r: (Lapic, bool))
    ensures r.0.regs == l.regs
    ensures r.0.window.open == l.window.open && r.0.window.exiting == l.window.exiting
    ensures r.0.window.injected == l.window.injected + (if l.window.open then [v] else [])
    ensures r.1
  {
    var l1 := if l.window.open then l.(window := Inject(l.window, v)) else l;
    (l1, true)
  }

  /**
    inject_spurious with the diagnostic raised only when the vector was
    dropped, which is what its message says.
   */
  function InjectSpurious(l: Lapic, v: Vector): (r: (Lapic, bool))
    ensures r.0.regs == l.regs
    ensures r.0.window.open == l.window.open && r.0.window.exiting == l.window.exiting
    ensures r.0.window.injected == l.window.injected + (if l.window.open then [v] else [])
    ensures r.1 <==> |r.0.window.injected| == |l.window.injected|
  {
    if l.window.open then
      (l.(window := Inject(l.window, v)), false)
    else
      (l, true)
  }

  /**
    The discrepancy: on an open window inject_spurious as written hands the
    vector over and still reports it denied; the corrected version does not.
   */
  lemma SpuriousDeniedWhenInjected(l: Lapic, v: Vector)
    requires l.window.open
    ensures InjectSpuriousAsWritten(l, v).0.window.injected == l.window.injected + [v]
    ensures InjectSpuriousAsWritten(l, v).1
    ensures !InjectSpurious(l, v).1
  {
  }

  ///--------------------------------------------------------------------------
  /// End of interrupt
  ///--------------------------------------------------------------------------

  /**
    write_eoi: EOI reads 0, ISR loses exactly its highest in-service vector
    (nothing when ISR is empty); IRR, the window and every other register
    stay (SDM Vol. 3A, section 10.8.5).
   */
  function WriteEoi(l: Lapic): (r: Lapic)
    ensures Read(r.regs, Eoi) == 0
    ensures forall u :: Has(Isr(r), u) <==> u != Top(Isr(l)) && Has(Isr(l), u)
    ensures Isr(r) == Pop(Isr(l))
    ensures Irr(r) == Irr(l) && r.window == l.window
    ensures SameExcept(l.regs, r.regs, {Eoi} + RangeOffsets(Isr7Msr))
  {
    var l1 := l.(regs := Write(l.regs, Eoi, 0));
    RangeWriteOutside(l.regs, Irr7Msr, Eoi, 0);
    RangeWriteOutside(l.regs, Isr7Msr, Eoi, 0);
    PopMembers(Isr(l));
    var r := PopIsr(l1);
    assert Eoi !in RangeOffsets(Isr7Msr);
    SameExceptTrans(l.regs, l1.regs, r.regs, {Eoi}, RangeOffsets(Isr7Msr));
    r
  }

  /**
    EOI right after injecting a vector above everything in service retires
    that vector: ISR is back to what it was, and `v` has left IRR.
   */
  lemma EoiAfterInject(l: Lapic, v: Vector)
    requires forall u :: Has(Isr(l), u) ==> u < v
    ensures Isr(WriteEoi(InjectInterrupt(l, v))) == Isr(l)
    ensures Irr(WriteEoi(InjectInterrupt(l, v))) == Clear(Irr(l), v)
  {
    TopAfterSet(Isr(l), v);
  }

  ///--------------------------------------------------------------------------
  /// Interrupt-window exit
  ///--------------------------------------------------------------------------

  /**
    The first half of handle_interrupt_window_exit: take top_irr, pop it from
    IRR and inject it.  IRR loses that vector, ISR gains it, the window
    receives it.
   */
  function InjectTopIrr(l: Lapic): (r: Lapic)
    ensures r.window == Inject(l.window, Top(Irr(l)))
    ensures forall u :: Has(Irr(r), u) <==> u != Top(Irr(l)) && Has(Irr(l), u)
    ensures forall u :: Has(Isr(r), u) <==> u == Top(Irr(l)) || Has(Isr(l), u)
    ensures SameExcept(l.regs, r.regs, RangeOffsets(Irr7Msr) + RangeOffsets(Isr7Msr))
  {
    var vector := TopIrr(l);
    var l1 := PopIrr(l);
    PopMembers(Irr(l));
    InjectFrame(l1, vector);
    SameExceptTrans(l.regs, l1.regs, InjectInterrupt(l1, vector).regs,
                    RangeOffsets(Irr7Msr), RangeOffsets(Irr7Msr) + RangeOffsets(Isr7Msr));
    InjectInterrupt(l1, vector)
  }

  /** inject_interrupt only writes inside IRR and ISR. */
  lemma InjectFrame(l: Lapic, v: Vector)
    ensures SameExcept(l.regs, InjectInterrupt(l, v).regs, RangeOffsets(Irr7Msr) + RangeOffsets(Isr7Msr))
  {
    WordOffsetInRange(Ipc(v));
    assert IrrWord(v) in RangeOffsets(Irr7Msr);
    assert IsrWord(v) in RangeOffsets(Isr7Msr);
    SameExceptWeaken(l.regs, InjectInterrupt(l, v).regs, {IrrWord(v), IsrWord(v)},
                     RangeOffsets(Irr7Msr) + RangeOffsets(Isr7Msr));
  }

  /**
    handle_interrupt_window_exit: the previous top of IRR is injected
    (inject_interrupt) and leaves IRR; window exiting stays armed iff IRR
    still holds a vector; the exit always counts as handled.  Nothing checks
    that IRR was non-empty: on an empty IRR the "top" is 0 and vector 0 is
    injected and put in service.
   */
  function HandleWindowExit(l: Lapic): (r: (Lapic, bool))
    ensures r.1
    ensures r.0.window.injected == l.window.injected + [Top(Irr(l))]
    ensures r.0.window.open == l.window.open
    ensures r.0.window.exiting <==> !IsEmpty(Irr(r.0))
    ensures Members(Irr(r.0)) == Members(Irr(l)) - iset{Top(Irr(l))}
    ensures Members(Isr(r.0)) == Members(Isr(l)) + iset{Top(Irr(l))}
  {
    var l2 := InjectTopIrr(l);
    MembersWithout(Irr(l), Irr(l2), Top(Irr(l)));
    MembersWith(Isr(l), Isr(l2), Top(Irr(l)));
    if IrrIsEmpty(l2) then
      (l2.(window := DisableExiting(l2.window)), true)
    else
      (l2.(window := EnableExiting(l2.window)), true)
  }

  /** The exit handler writes only inside IRR and ISR. */
  lemma HandleWindowExitFrame(l: Lapic)
    ensures SameExcept(l.regs, HandleWindowExit(l).0.regs, RangeOffsets(Irr7Msr) + RangeOffsets(Isr7Msr))
  {
    assert HandleWindowExit(l).0.regs == InjectTopIrr(l).regs;
  }

  ///--------------------------------------------------------------------------
  /// Construction
  ///--------------------------------------------------------------------------

  /**
    What initialisation leaves in a listed register: the physical x2APIC's
    value when x2APIC mode can read that register, its reset value otherwise,
    either one cut to 32 bits.
   */
  function InitValue(d: Defaults, readable: Offset -> bool, phys: Offset -> bv64, o: Offset): bv64
    requires Valid(d)
  {
    if readable(o) then phys(o) & Low32 else ResetValue(d, o) & Low32
  }

  /** One step of the constructor: copy or reset the register at `o`. */
  function InitRegister(f: RegisterFile, d: Defaults, readable: Offset -> bool, phys: Offset -> bv64,
                        o: Offset): (g: RegisterFile)
    requires Valid(d)
    ensures Read(g, o) == InitValue(d, readable, phys, o)
    ensures SameExcept(f, g, {o})
  {
    if readable(o) then
      Write(f, o, phys(o))
    else
      ResetRegisterReads(f, d, o);
      ResetRegister(f, d, o)
  }

  /** The constructor's loop invariant survives one more register. */
  lemma InitStep(f: RegisterFile, g: RegisterFile, page: RegisterFile, d: Defaults,
                 readable: Offset -> bool, phys: Offset -> bv64, offsets: seq<Offset>, i: nat)
    requires Valid(d) && i < |offsets|
    requires g == InitRegister(f, d, readable, phys, offsets[i])
    requires forall o :: o in offsets[..i] ==> Read(f, o) == InitValue(d, readable, phys, o)
    requires forall o: Offset :: o !in offsets[..i] ==> Read(f, o) == Read(page, o)
    ensures forall o :: o in offsets[..i + 1] ==> Read(g, o) == InitValue(d, readable, phys, o)
    ensures forall o: Offset :: o !in offsets[..i + 1] ==> Read(g, o) == Read(page, o)
  {
    var p := offsets[i];
    assert offsets[..i + 1] == offsets[..i] + [p];
    forall o | o in offsets[..i + 1]
      ensures Read(g, o) == InitValue(d, readable, phys, o)
    {
      if o != p {
        assert o in offsets[..i];
        assert o !in {p};
      }
    }
    forall o: Offset | o !in offsets[..i + 1]
      ensures Read(g, o) == Read(page, o)
    {
      assert o !in {p};
      assert o !in offsets[..i];
    }
  }

  /**
    The constructor: the page at address `reg` (non-null, 4 KiB aligned) is
    filled from the physical x2APIC, register by register over `offsets`
    (the header's offset list), copying the readable ones and resetting the
    others; registers off the list keep what the page held.  `readable` and
    `phys` stand for readable_in_x2apic and the physical x2APIC's
    read_register.
   */
  method Construct(reg: nat, d: Defaults, offsets: seq<Offset>, readable: Offset -> bool,
                   phys: Offset -> bv64, page: RegisterFile, w: Window) returns (l: Lapic)
    requires reg != 0 && reg % 0x1000 == 0
    requires Valid(d)
    ensures forall o :: o in offsets ==> Read(l.regs, o) == InitValue(d, readable, phys, o)
    ensures forall o: Offset :: o !in offsets ==> Read(l.regs, o) == Read(page, o)
    ensures l.window == w
  {
    var f := page;
    for i := 0 to |offsets|
      invariant forall o :: o in offsets[..i] ==> Read(f, o) == InitValue(d, readable, phys, o)
      invariant forall o: Offset :: o !in offsets[..i] ==> Read(f, o) == Read(page, o)
    {
      var g := InitRegister(f, d, readable, phys, offsets[i]);
      InitStep(f, g, page, d, readable, phys, offsets, i);
      f := g;
    }
    assert offsets[..|offsets|] == offsets;
    l := Lapic(f, w);
  }
}
