# Virtual Local APIC — Dafny model

This project models the virtual Local APIC of the extended APIs hypervisor
(`virt_lapic`). The virtual Local APIC emulates an x2APIC register page for a guest vCPU
(Intel SDM Vol. 3A, chapter 10; x2APIC in section 10.12). It has four parts:

- **Register page** (`Registers`). 256 32-bit slots, one per 16-byte boundary of a 4 KiB page.
  - Reads zero-extend a slot to 64 bits.
  - Writes keep the low 32 bits.
  - The named accessors sit on top: ID, VERSION, TPR, SVR, self-IPI, and the 64-bit ICR
    split over `icr0`/`icr1`.
- **256-bit priority bitmaps** IRR and ISR (`Bits`, `Bitmap256`). Each is eight 32-bit words.
  - Vector `v` lives in word `(v & 0xE0) >> 5`, bit `v & 0x1F`.
  - `top_256bit` scans from word 7 down and answers `(word << 5) | bsr(word)`, or 0 when
    the bitmap is empty.
  - `pop_256bit` clears that bit.
  - `is_empty_256bit` tests all eight words. This is the "highest vector wins" rule of
    SDM Vol. 3A, section 10.8.4.
- **Injection** (`InterruptWindow`, `VirtLapic`, `WindowExits`). The hypervisor's interrupt
  window is an abstract record: `open`, exiting armed or not, and the list of vectors handed
  to `inject`.
  - `queue_injection` injects at once on an open window.
  - Otherwise it sets the IRR bit and arms window exiting.
  - The window-exit handler injects the top of IRR and re-arms or disarms exiting.
  - `write_eoi` retires the highest in-service vector (SDM Vol. 3A, section 10.8.5).
- **Reset and construction** (`Reset`, `VirtLapic.Construct`).
  - `reset_register` dispatches on the offset: VERSION formula, LVT reset value, SVR reset
    value, all ones for DFR, zero otherwise.
  - The constructor copies each listed register from the physical x2APIC when x2APIC mode
    can read it, and resets it otherwise.

The model is made of pure functions over an immutable `Lapic` record (register page plus
window). IRR and ISR are read out of the page as 8-word bitmaps, and `Members` views a bitmap
as the set of vectors it flags.

Some members are generic proof helpers and do not model any source function:
- `Traces`: decreasing sequences of vectors, and how they sit against sets.
- `Runs`: induction over repeated steps, with the step function as a parameter.
- `Bitmap256.MembersWith` and `Bitmap256.MembersWithout`: a bitmap's members from its per-vector flags.
- `Registers.SameExceptTrans` and `Registers.SameExceptWeaken`: how "no other register moves" frames compose.

There are two runs of window exits:
- `WindowExits.Drain` runs the exit handler with the emptiness check it lacks (see Findings).
- `WindowExits.DrainAsWritten` runs `handle_interrupt_window_exit` as written (`VirtLapic.HandleWindowExit`).

`WindowExits.AsWrittenAgrees` proves that the two runs are equal from any state where exiting is armed only while IRR is non-empty. That invariant holds after queueing behind a closed window, and every exit keeps it. So the delivery facts proved for `Drain` hold for the handler as written, and `WindowExits.AsWrittenCompletes` restates them for it. Where the invariant is broken, `WindowExits.AsWrittenOnEmpty` shows the handler as written injecting vector 0.

The generic modules `Traces` and `Runs` carry the induction for both runs. Because of them, a
fact proved about one exit becomes a fact about any number of exits.

The header `lapic.h` is not part of this model. It defines the values of `irr0` and `isr0`,
the register offsets, `from_msr_addr` and `to_mem_addr`. The model chooses them:
- Offsets are byte offsets into the page, as in SDM Vol. 3A, Table 10-1: `irr0` is 0x200,
  `isr0` is 0x100, and the words of IRR/ISR are 16 bytes apart.
- MSR `0x800 + i` maps to byte offset `i << 4`.

With these choices, the word `irr0 | (ipc << 4)` written by `queue_interrupt`/`inject_interrupt`
is the word of index `ipc` that the MSR scans read. `VirtLapic.WordOffsetInRange` proves this.
A 4-byte stride between IRR words would not agree with `irr0 | (ipc << 4)`.

## Model
| member | source | states |
|---|---|---|
| Bits.SetBitBits | bfvmm/src/hve/arch/intel_x64/apic/virt_lapic.cpp:192 | set_bit sets bit b and leaves every other bit of the word as it was |
| Bits.ClearBitBits | bfvmm/src/hve/arch/intel_x64/apic/virt_lapic.cpp:204 | clear_bit clears bit b and leaves every other bit of the word as it was |
| Bits.SetBit | bfvmm/src/hve/arch/intel_x64/apic/virt_lapic.cpp:192 | set_bit: bit b ends up set and every bit that was set stays set |
| Bits.ClearBit | bfvmm/src/hve/arch/intel_x64/apic/virt_lapic.cpp:204 | clear_bit: bit b ends up clear and no bit that was clear becomes set |
| Bits.SetBitNoop | bfvmm/src/hve/arch/intel_x64/apic/virt_lapic.cpp:192 | setting a bit that is already set returns the same word |
| Bits.ClearBitNoop | bfvmm/src/hve/arch/intel_x64/apic/virt_lapic.cpp:204 | clearing a bit that is already clear returns the same word |
| Bits.ClearSetBit | bfvmm/src/hve/arch/intel_x64/apic/virt_lapic.cpp:203-206 | clear_bit undoes a set_bit of a bit that was clear |
| Bits.Msb | bfvmm/src/hve/arch/intel_x64/apic/virt_lapic.cpp:250 | bsr of a non-zero word: the answer is a set bit and no higher bit is set |
| Bitmap256.VectorOfParts | bfvmm/src/hve/arch/intel_x64/apic/virt_lapic.cpp:251-252 | the vector built as `word << 5` or-ed with `bit` splits back, by the masks of queue_interrupt, into that word and that bit |
| Bitmap256.PartsOfVector | bfvmm/src/hve/arch/intel_x64/apic/virt_lapic.cpp:188-189 | every vector is rebuilt from its word `(v & 0xE0) >> 5` and bit `v & 0x1F` |
| Bitmap256.VectorOrder | bfvmm/src/hve/arch/intel_x64/apic/virt_lapic.cpp:241-252 | vector order is word order first, then bit order: scanning words from 7 down and taking the top bit finds the highest vector |
| Bitmap256.SetHas | bfvmm/src/hve/arch/intel_x64/apic/virt_lapic.cpp:185-193 | setting v flags v, and every other vector keeps its flag |
| Bitmap256.ClearHas | bfvmm/src/hve/arch/intel_x64/apic/virt_lapic.cpp:203-204 | clearing v unflags v, and every other vector keeps its flag |
| Bitmap256.SetMembers | bfvmm/src/hve/arch/intel_x64/apic/virt_lapic.cpp:190-192 | the flagged vectors after setting v are those before, plus v |
| Bitmap256.ClearMembers | bfvmm/src/hve/arch/intel_x64/apic/virt_lapic.cpp:200-204 | the flagged vectors after clearing v are those before, minus v |
| Bitmap256.SetIdempotent | bfvmm/src/hve/arch/intel_x64/apic/virt_lapic.cpp:185-193 | setting a vector that is already pending changes no word |
| Bitmap256.ClearIdempotent | bfvmm/src/hve/arch/intel_x64/apic/virt_lapic.cpp:203-204 | clearing a vector that is not flagged changes no word |
| Bitmap256.ClearAfterSet | bfvmm/src/hve/arch/intel_x64/apic/virt_lapic.cpp:203-206 | clearing a vector just set, that was not flagged before, restores the bitmap |
| Bitmap256.IsEmptyBelow | bfvmm/src/hve/arch/intel_x64/apic/virt_lapic.cpp:295-305 | the scan of the words below n answers true iff each of them is zero |
| Bitmap256.IsEmpty | bfvmm/src/hve/arch/intel_x64/apic/virt_lapic.cpp:292-306 | is_empty_256bit is true iff all eight words are zero |
| Bitmap256.EmptyIffNoVector | bfvmm/src/hve/arch/intel_x64/apic/virt_lapic.cpp:292-306 | the bitmap is empty iff no vector at all is flagged |
| Bitmap256.TopBelow | bfvmm/src/hve/arch/intel_x64/apic/virt_lapic.cpp:241-255 | the scan of the words below n answers 0 when they are all zero, and otherwise a flagged vector in one of them |
| Bitmap256.TopBelowIsHighest | bfvmm/src/hve/arch/intel_x64/apic/virt_lapic.cpp:241-253 | no vector flagged in the words below n lies above what the scan answers |
| Bitmap256.Top | bfvmm/src/hve/arch/intel_x64/apic/virt_lapic.cpp:238-256 | top_256bit answers 0 on an empty bitmap, and otherwise a flagged vector that is at least every flagged vector, i.e. the highest one |
| Bitmap256.PopBelow | bfvmm/src/hve/arch/intel_x64/apic/virt_lapic.cpp:269-281 | the pop scan clears exactly the vector the top scan reports, and changes nothing when the words are all zero |
| Bitmap256.Pop | bfvmm/src/hve/arch/intel_x64/apic/virt_lapic.cpp:266-282 | pop_256bit is a no-op on an empty bitmap and otherwise clears exactly the bit of top_256bit |
| Bitmap256.PopMembers | bfvmm/src/hve/arch/intel_x64/apic/virt_lapic.cpp:266-282 | after pop_256bit exactly the previous top has left, every other vector keeps its flag |
| Bitmap256.SingleTop | bfvmm/src/hve/arch/intel_x64/apic/virt_lapic.cpp:238-282 | a bitmap holding one vector reports it as top, and popping it leaves the bitmap empty |
| Bitmap256.TopAfterSet | bfvmm/src/hve/arch/intel_x64/apic/virt_lapic.cpp:238-282 | setting a vector above all flagged ones makes it the top, and popping takes it off again, restoring the bitmap |
| Bitmap256.SetClearMembers | bfvmm/src/hve/arch/intel_x64/apic/virt_lapic.cpp:185-209 | set and clear add and remove exactly one member |
| Bitmap256.MembersTopPop | bfvmm/src/hve/arch/intel_x64/apic/virt_lapic.cpp:238-306 | on the set of flagged vectors: empty iff no member, top is the largest member, pop removes the top |
| Registers.Slot | bfvmm/src/hve/arch/intel_x64/apic/virt_lapic.cpp:103 | each register offset addresses one of the 256 slots of the page, 16 bytes apart |
| Registers.Trunc | bfvmm/src/hve/arch/intel_x64/apic/virt_lapic.cpp:140 | narrow_cast to 32 bits keeps exactly the low 32 bits |
| Registers.TruncExtend | bfvmm/src/hve/arch/intel_x64/apic/virt_lapic.cpp:100-141 | truncating a zero-extended word gives the word back |
| Registers.Read | bfvmm/src/hve/arch/intel_x64/apic/virt_lapic.cpp:100-105 | a read answers the stored 32-bit word, zero-extended: the high half is 0 |
| Registers.Write | bfvmm/src/hve/arch/intel_x64/apic/virt_lapic.cpp:136-141 | after a write the offset reads back the value mod 2^32, and every other offset reads as before |
| Registers.WriteWrite | bfvmm/src/hve/arch/intel_x64/apic/virt_lapic.cpp:136-141 | two writes to one offset amount to the second |
| Registers.WriteRead | bfvmm/src/hve/arch/intel_x64/apic/virt_lapic.cpp:100-141 | writing back what was read leaves the page unchanged |
| Registers.ReadId | bfvmm/src/hve/arch/intel_x64/apic/virt_lapic.cpp:107-109 | read_id answers the ID register zero-extended: the high half is 0 and the low half is the stored word |
| Registers.ReadVersion | bfvmm/src/hve/arch/intel_x64/apic/virt_lapic.cpp:111-113 | read_version answers the VERSION register zero-extended: the high half is 0 and the low half is the stored word |
| Registers.ReadTpr | bfvmm/src/hve/arch/intel_x64/apic/virt_lapic.cpp:115-117 | read_tpr answers the TPR register zero-extended: the high half is 0 and the low half is the stored word |
| Registers.ReadSvr | bfvmm/src/hve/arch/intel_x64/apic/virt_lapic.cpp:128-130 | read_svr answers the SVR register zero-extended: the high half is 0 and the low half is the stored word |
| Registers.WriteTpr | bfvmm/src/hve/arch/intel_x64/apic/virt_lapic.cpp:150-152 | read_tpr after write_tpr(x) answers x mod 2^32; no other register moves |
| Registers.WriteSvr | bfvmm/src/hve/arch/intel_x64/apic/virt_lapic.cpp:165-167 | read_svr after write_svr(x) answers x mod 2^32; no other register moves |
| Registers.WriteSelfIpi | bfvmm/src/hve/arch/intel_x64/apic/virt_lapic.cpp:161-163 | the self-IPI register stores the vector mod 2^32; no other register moves |
| Registers.ReadIcr | bfvmm/src/hve/arch/intel_x64/apic/virt_lapic.cpp:119-126 | the low half of read_icr is icr0 and the high half is icr1 |
| Registers.WriteIcr | bfvmm/src/hve/arch/intel_x64/apic/virt_lapic.cpp:154-159 | write_icr puts the high half in icr1 and the low half in icr0, and changes no other register |
| Registers.IcrRoundTrip | bfvmm/src/hve/arch/intel_x64/apic/virt_lapic.cpp:119-159 | read_icr after write_icr(x) answers x, for every 64-bit x |
| Registers.IcrWriteBack | bfvmm/src/hve/arch/intel_x64/apic/virt_lapic.cpp:119-159 | write_icr(read_icr()) leaves the page unchanged |
| Reset.VersionValue | bfvmm/src/hve/arch/intel_x64/apic/virt_lapic.cpp:337-350 | VERSION holds the version field in bits 0-7 and the LVT count minus one in bits 16-23, with EOI-broadcast suppression (bit 24) and every other bit clear |
| Reset.VersionFits | bfvmm/src/hve/arch/intel_x64/apic/virt_lapic.cpp:342-349 | the VERSION value survives truncation to 32 bits |
| Reset.ResetValue | bfvmm/src/hve/arch/intel_x64/apic/virt_lapic.cpp:364-394 | the value reset_register writes is the LVT reset value for each of the seven LVT registers and 0 for every register outside VERSION, LVT, SVR and DFR |
| Reset.ResetRegister | bfvmm/src/hve/arch/intel_x64/apic/virt_lapic.cpp:364-394 | after reset_register: VERSION reads the version formula, the seven LVT registers the LVT reset value, SVR the SVR reset value, DFR 0xFFFFFFFF, any other offset 0; no other register moves |
| Reset.ResetRegisterReads | bfvmm/src/hve/arch/intel_x64/apic/virt_lapic.cpp:364-394 | a reset register reads back its reset value cut to 32 bits |
| Reset.ResetForgetsContents | bfvmm/src/hve/arch/intel_x64/apic/virt_lapic.cpp:364-394 | what a reset leaves in a register does not depend on what was there |
| Reset.ResetIdempotent | bfvmm/src/hve/arch/intel_x64/apic/virt_lapic.cpp:364-394 | resetting a register twice is resetting it once |
| VirtLapic.FromMsrAddr | bfvmm/src/hve/arch/intel_x64/apic/virt_lapic.cpp:243 | with the byte-offset layout chosen here (from_msr_addr is in lapic.h), x2APIC MSR 0x800 + i addresses page slot i |
| VirtLapic.RangeIsScan | bfvmm/src/hve/arch/intel_x64/apic/virt_lapic.cpp:241-244 | step i of the scans reads word 7 - i of the bitmap whose word 7 is at MSR `last` |
| VirtLapic.WordOffset | bfvmm/src/hve/arch/intel_x64/apic/virt_lapic.cpp:190 | irr0 or-ed with `ipc << 4` is the offset 16 * ipc above irr0 (and likewise for isr0) |
| VirtLapic.WordOffsetIsSum | bfvmm/src/hve/arch/intel_x64/apic/virt_lapic.cpp:200-201 | or-ing ipc << 4 into irr0 or isr0 adds 16 * ipc, because the or-ed bits of the base are clear |
| VirtLapic.WordOffsetInRange | bfvmm/src/hve/arch/intel_x64/apic/virt_lapic.cpp:188-201 | the word that queue_interrupt and inject_interrupt write is the word of the same index that the MSR scans read |
| VirtLapic.PopIrr | bfvmm/src/hve/arch/intel_x64/apic/virt_lapic.cpp:258-260 | pop_irr pops IRR; ISR, the window and every register outside IRR stay |
| VirtLapic.PopIsr | bfvmm/src/hve/arch/intel_x64/apic/virt_lapic.cpp:262-264 | pop_isr pops ISR; IRR, the window and every register outside ISR stay |
| VirtLapic.TopIrr | bfvmm/src/hve/arch/intel_x64/apic/virt_lapic.cpp:230-232 | top_irr answers 0 on an empty IRR, otherwise a pending vector, and never less than any pending vector |
| VirtLapic.TopIsr | bfvmm/src/hve/arch/intel_x64/apic/virt_lapic.cpp:234-236 | top_isr answers 0 on an empty ISR, otherwise an in-service vector, and never less than any in-service vector |
| VirtLapic.IrrIsEmpty | bfvmm/src/hve/arch/intel_x64/apic/virt_lapic.cpp:284-286 | irr_is_empty is true iff no vector is pending |
| VirtLapic.IsrIsEmpty | bfvmm/src/hve/arch/intel_x64/apic/virt_lapic.cpp:288-290 | isr_is_empty is true iff no vector is in service |
| VirtLapic.WriteSetBitNoop | bfvmm/src/hve/arch/intel_x64/apic/virt_lapic.cpp:192 | the read-modify-write of a bit already set writes back the page unchanged |
| VirtLapic.SetIrrBit | bfvmm/src/hve/arch/intel_x64/apic/virt_lapic.cpp:190-192 | the IRR bitmap gains v, ISR stays, and only the IRR word of v may change |
| VirtLapic.ClearIrrBit | bfvmm/src/hve/arch/intel_x64/apic/virt_lapic.cpp:200-204 | the IRR bitmap loses v, ISR stays, and only the IRR word of v may change |
| VirtLapic.SetIsrBit | bfvmm/src/hve/arch/intel_x64/apic/virt_lapic.cpp:201-206 | the ISR bitmap gains v, IRR stays, and only the ISR word of v may change |
| VirtLapic.QueueInterrupt | bfvmm/src/hve/arch/intel_x64/apic/virt_lapic.cpp:185-193 | queue_interrupt: IRR gains exactly v; ISR, the window and every register other than v's IRR word stay |
| VirtLapic.QueueOnEmptyTop | bfvmm/src/hve/arch/intel_x64/apic/virt_lapic.cpp:185-193 | queueing only v into an empty IRR makes top_irr answer v, and popping it empties IRR again |
| VirtLapic.InjectInterrupt | bfvmm/src/hve/arch/intel_x64/apic/virt_lapic.cpp:195-209 | inject_interrupt: IRR loses v (nothing if v was not pending), ISR gains v, v is handed to the window, and only v's IRR and ISR words may change |
| VirtLapic.QueueInjection | bfvmm/src/hve/arch/intel_x64/apic/virt_lapic.cpp:173-183 | open window: exactly inject_interrupt; closed window: IRR gains v, exiting is armed, ISR untouched, nothing injected, only v's IRR word may change |
| VirtLapic.RequeuePending | bfvmm/src/hve/arch/intel_x64/apic/virt_lapic.cpp:173-193 | re-queueing an already pending vector behind a closed window changes no register |
| VirtLapic.InjectSpuriousAsWritten | bfvmm/src/hve/arch/intel_x64/apic/virt_lapic.cpp:211-219 | inject_spurious hands v to an open window and does nothing on a closed one; registers never change; the "denied" message is raised either way |
| VirtLapic.SpuriousDeniedWhenInjected | bfvmm/src/hve/arch/intel_x64/apic/virt_lapic.cpp:214-218 | on an open window inject_spurious injects v and still reports it denied |
| VirtLapic.InjectSpurious | bfvmm/src/hve/arch/intel_x64/apic/virt_lapic.cpp:211-219 | the corrected inject_spurious: an open window receives v and a closed one nothing, no register changes, and "denied" is raised iff nothing was injected |
| VirtLapic.WriteEoi | bfvmm/src/hve/arch/intel_x64/apic/virt_lapic.cpp:143-148 | write_eoi: EOI reads 0, ISR loses exactly its highest in-service vector (nothing when empty), IRR and the window stay, and no register outside EOI and ISR moves |
| VirtLapic.EoiAfterInject | bfvmm/src/hve/arch/intel_x64/apic/virt_lapic.cpp:143-209 | an EOI right after injecting a vector above everything in service restores ISR, and the vector has left IRR |
| VirtLapic.InjectTopIrr | bfvmm/src/hve/arch/intel_x64/apic/virt_lapic.cpp:317-319 | top_irr, pop_irr, inject_interrupt: the previous top leaves IRR, enters ISR and goes to the window; only IRR and ISR registers may change |
| VirtLapic.InjectFrame | bfvmm/src/hve/arch/intel_x64/apic/virt_lapic.cpp:195-209 | inject_interrupt writes only inside IRR and ISR |
| VirtLapic.HandleWindowExit | bfvmm/src/hve/arch/intel_x64/apic/virt_lapic.cpp:312-328 | the exit handler injects the previous top of IRR and removes it from IRR, puts it in service, leaves exiting armed iff IRR is still non-empty, and always returns true |
| VirtLapic.HandleWindowExitFrame | bfvmm/src/hve/arch/intel_x64/apic/virt_lapic.cpp:312-328 | the exit handler writes only inside IRR and ISR |
| VirtLapic.InitRegister | bfvmm/src/hve/arch/intel_x64/apic/virt_lapic.cpp:78-84 | one step of initialisation: the register reads the physical value if readable in x2APIC mode, else its reset value; nothing else moves |
| VirtLapic.InitStep | bfvmm/src/hve/arch/intel_x64/apic/virt_lapic.cpp:78-84 | the constructor's loop invariant survives one more listed register |
| VirtLapic.Construct | bfvmm/src/hve/arch/intel_x64/apic/virt_lapic.cpp:58-85 | after construction (page non-null and 4 KiB aligned) every listed register reads its physical or reset value, and every unlisted one reads as the page held it |
| WindowExits.HandleWindowExitChecked | bfvmm/src/hve/arch/intel_x64/apic/virt_lapic.cpp:312-328 | the handler with the missing emptiness check: on a non-empty IRR it is the handler; on an empty one it injects nothing and touches no register; exiting stays armed iff IRR is non-empty |
| WindowExits.ExitStep | bfvmm/src/hve/arch/intel_x64/apic/virt_lapic.cpp:312-328 | what one checked exit delivers was pending, lies above all that is still pending, leaves IRR and enters ISR |
| WindowExits.ExitStepNonEmpty | bfvmm/src/hve/arch/intel_x64/apic/virt_lapic.cpp:317-319 | the same for the handler on a non-empty IRR, delivering the top |
| WindowExits.HandlerAgreesUnderInv | bfvmm/src/hve/arch/intel_x64/apic/virt_lapic.cpp:312-328 | while exiting is armed only with IRR non-empty, the handler as written is the checked one and injects a pending vector |
| WindowExits.InvPreserved | bfvmm/src/hve/arch/intel_x64/apic/virt_lapic.cpp:173-328 | queue_injection on a closed window, both handlers, write_eoi and inject_spurious keep "exiting armed only while IRR is non-empty" |
| WindowExits.QueueClosedOnEmpty | bfvmm/src/hve/arch/intel_x64/apic/virt_lapic.cpp:181-182 | queueing behind a closed window over an empty IRR leaves just v pending, with exiting armed |
| WindowExits.QueueOpenOnSingle | bfvmm/src/hve/arch/intel_x64/apic/virt_lapic.cpp:176-178 | queueing on an open window whose IRR holds just v empties IRR and injects v, exiting untouched |
| WindowExits.HandlerOnEmpty | bfvmm/src/hve/arch/intel_x64/apic/virt_lapic.cpp:317-319 | the handler as written on an empty IRR injects vector 0 and puts 0 in service |
| WindowExits.ZeroInjectedAfterReopen | bfvmm/src/hve/arch/intel_x64/apic/virt_lapic.cpp:173-328 | queue v behind a closed window, open it, queue v again, take the window exit: the window receives v and then 0 |
| WindowExits.ZeroInjectedExample | bfvmm/src/hve/arch/intel_x64/apic/virt_lapic.cpp:173-328 | the same run from a concrete state with vector 42: the window receives 42 and then 0 |
| WindowExits.CheckedAfterReopen | bfvmm/src/hve/arch/intel_x64/apic/virt_lapic.cpp:173-328 | on the same run the checked handler injects nothing more, disarms exiting and changes no register |
| WindowExits.ExitOrder | bfvmm/src/hve/arch/intel_x64/apic/virt_lapic.cpp:317-327 | two exits in a row inject a strictly decreasing pair, the second of which was pending before the first |
| WindowExits.Drain | bfvmm/src/hve/arch/intel_x64/apic/virt_lapic.cpp:312-328 | a run of exits hands to the window exactly what it delivers, and never opens or closes the window |
| WindowExits.DrainStop | bfvmm/src/hve/arch/intel_x64/apic/virt_lapic.cpp:321-323 | with exiting disarmed no exit arrives: nothing changes |
| WindowExits.DrainStep | bfvmm/src/hve/arch/intel_x64/apic/virt_lapic.cpp:312-328 | an armed run is one checked exit followed by the rest of the run |
| WindowExits.DrainFirst | bfvmm/src/hve/arch/intel_x64/apic/virt_lapic.cpp:317-319 | on a non-empty IRR the first vector a run delivers is the top of IRR |
| WindowExits.DrainOnEmpty | bfvmm/src/hve/arch/intel_x64/apic/virt_lapic.cpp:321-323 | an exit on an empty IRR ends the run, delivering nothing and disarming exiting |
| WindowExits.DrainInv | bfvmm/src/hve/arch/intel_x64/apic/virt_lapic.cpp:321-327 | after at least one exit, and after any run from a state where it held, exiting is armed only while IRR is non-empty |
| WindowExits.DrainDelivers | bfvmm/src/hve/arch/intel_x64/apic/virt_lapic.cpp:312-328 | a run of exits delivers pending vectors in strictly decreasing order, each above all still pending; IRR loses and ISR gains exactly them |
| WindowExits.ExitLowersTop | bfvmm/src/hve/arch/intel_x64/apic/virt_lapic.cpp:317-327 | an exit that leaves exiting armed lowers the top of IRR |
| WindowExits.DrainCompletes | bfvmm/src/hve/arch/intel_x64/apic/virt_lapic.cpp:312-328 | a run allowed more exits than the top of IRR ends disarmed; starting armed, it empties IRR and delivers every pending vector, highest first |
| WindowExits.DrainAsWritten | bfvmm/src/hve/arch/intel_x64/apic/virt_lapic.cpp:312-328 | a run of exits handled as written hands to the window exactly what it delivers, and never opens or closes the window |
| WindowExits.AsWrittenAgrees | bfvmm/src/hve/arch/intel_x64/apic/virt_lapic.cpp:312-328 | from a state where exiting is armed only with IRR non-empty, the run of exits handled as written equals the checked run: same final state, same vectors |
| WindowExits.AsWrittenOnEmpty | bfvmm/src/hve/arch/intel_x64/apic/virt_lapic.cpp:317-327 | exiting armed over an empty IRR: the handler as written delivers vector 0 and the run ends disarmed |
| WindowExits.AsWrittenCompletes | bfvmm/src/hve/arch/intel_x64/apic/virt_lapic.cpp:312-328 | from such a state, starting armed, enough exits handled as written deliver every pending vector highest first and end with IRR empty and exiting disarmed |
| Scenarios.QueueClosed | bfvmm/src/hve/arch/intel_x64/apic/virt_lapic.cpp:181-182 | behind a closed window queue_injection adds v to the pending vectors and arms exiting |
| Scenarios.QueueTwo | bfvmm/src/hve/arch/intel_x64/apic/virt_lapic.cpp:173-193 | two queueings behind a closed window add both vectors |
| Scenarios.QueueFour | bfvmm/src/hve/arch/intel_x64/apic/virt_lapic.cpp:173-193 | queueing 17, 200, 201, 64 over an empty IRR leaves exactly those pending |
| Scenarios.DrainAll | bfvmm/src/hve/arch/intel_x64/apic/virt_lapic.cpp:312-328 | with exiting armed, 256 exits deliver exactly the decreasing list of the pending vectors and end with IRR empty and exiting disarmed |
| Scenarios.PriorityDrain | bfvmm/src/hve/arch/intel_x64/apic/virt_lapic.cpp:173-328 | 17, 200, 201, 64 queued behind a closed window come out of the window exits as 201, 200, 64, 17 |
| Scenarios.PriorityDrainAsWritten | bfvmm/src/hve/arch/intel_x64/apic/virt_lapic.cpp:173-328 | the same example with the handler as written delivers the same trace 201, 200, 64, 17 and ends with IRR empty and exiting disarmed |

## Left out

- Logging: `bfdebug_info` (line 218) is not modelled. The one message that matters, inject_spurious's "denied", is the boolean second result of `InjectSpuriousAsWritten` (as written) and of `InjectSpurious` (corrected).
- Registration of the exit-handler delegate with the hypervisor (lines 87-94) is left out. Its effect is that window exits call `HandleWindowExit`. `WindowExits.DrainAsWritten` models a run of such exits; `WindowExits.Drain` runs the checked handler instead, and `WindowExits.AsWrittenAgrees` relates the two.
- The hypervisor object and the interrupt window are a record: `open`, exiting armed, and the vectors injected. Their internals are not part of this model, and neither is the ignored `vmcs` argument of the handler.
- The header `lapic.h` is not part of this model. Its pieces are supplied as follows:
  - The reset constants and the LVT count are the `Reset.Defaults` parameter.
  - The offset list and `readable_in_x2apic` are parameters of `VirtLapic.Construct`.
  - The register offsets are those of SDM Vol. 3A, Table 10-1.
- The physical x2APIC is a function parameter of `VirtLapic.Construct`.
- `lapic::init_attributes()` (line 69), called by the constructor, is not modelled. It fills `lapic.h`'s attribute table, which appears here only as the `readable_in_x2apic` parameter of `VirtLapic.Construct`.
- Pointer casts and `to_mem_addr` are not modelled. The page is a sequence of 256 slots indexed by offset / 16, and the page address appears only in the constructor's precondition.
- VirtLapic.WordOffsetInRange: the agreement it proves rests on the byte-offset layout chosen above, not on `lapic.h`: `irr0` = 0x200, `isr0` = 0x100, a 16-byte stride, and `from_msr_addr(0x800 + i)` = `i << 4`. With x2APIC MSR-index offsets instead (`irr0` = 0x20 and `to_mem_addr` = base or-ed with `offset << 4`), `irr0 | (ipc << 4)` would not address IRR word `ipc`.
- Reset.VersionValue: the field positions (version in bits 0-7, max LVT entry in bits 16-23, EOI-broadcast suppression in bit 24) come from SDM Vol. 3A, section 10.4.8, not from `lapic.h`.
- VirtLapic.Construct: the two `expects` checks (non-null, 4 KiB aligned) abort in the source. Here they are preconditions.
- VirtLapic.QueueInjection: the source takes a 64-bit vector but masks only bits 0-7 into the bitmaps, while handing the full value to the window. Vectors are 8-bit here, so values above 255 are not modelled.
- VirtLapic.InjectInterrupt: vectors are 8-bit, for the same reason as `QueueInjection`.
- Bits.Msb: `bsr` is an instruction. It is modelled by a binary search with the same result: the position of the highest set bit.
- VirtLapic.PopIrr: `pop_256bit` writes back the one word it changed. The model stores the whole 8-word bitmap, which differs from the old one in that word only, so the resulting page is the same.
- Registers.WriteIcr: the two writes of `write_icr` are ordered (icr1 first). Nothing in this sequential model can observe the order, and only the final page is stated.
- WindowExits.Drain: a run is bounded by the number of exits `n`. `WindowExits.DrainCompletes` shows that any `n` above the top of IRR, and so 256 always, is enough.

## Findings
| source | as written | input that shows it | evidently intended | confidence | as-written member | corrected member |
|---|---|---|---|---|---|---|
| bfvmm/src/hve/arch/intel_x64/apic/virt_lapic.cpp:317-319 | the window-exit handler injects `top_irr()` without checking IRR; on an empty IRR `top_irr()` is 0, so vector 0 is injected and ISR bit 0 is set | IRR empty, window closed: `queue_injection(42)` arms exiting; the window opens; `queue_injection(42)` injects 42 directly and empties IRR but leaves exiting armed; the next window exit injects 0 (window receives 42, 0) | an exit with IRR empty injects nothing and only disables exiting | not executed | WindowExits.ZeroInjectedAfterReopen | WindowExits.HandleWindowExitChecked |
| bfvmm/src/hve/arch/intel_x64/apic/virt_lapic.cpp:214-218 | `inject_spurious` logs "Inject spurious denied: interrupt window closed" after the `if`, so also when it has just injected | window open, any vector: the vector is injected and "denied" is logged | log only when the window is closed (a `return` after the inject) | not executed | VirtLapic.SpuriousDeniedWhenInjected | VirtLapic.InjectSpurious |
