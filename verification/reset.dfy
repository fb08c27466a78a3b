/**
  The reset policy of the virtual Local APIC: what a register holds after a
  reset, decided by its offset.  VERSION is built from the architectural
  field values (SDM Vol. 3A, section 10.4.8 and Figure 10-7), the seven LVT
  registers take the LVT reset value (masked, section 10.4.7.1), SVR takes
  its reset value, DFR is all ones, and every other register is cleared.
 */
module Reset {
  import opened Registers

  /**
    The architectural constants the reset rules use:
    `versionReset` (the VERSION field's reset value), `lvtSize` (the number of
    LVT entries), `lvtReset` (the LVT reset value) and `svrReset` (the SVR
    reset value).
   */
  datatype Defaults = Defaults(versionReset: bv64, lvtSize: bv64, lvtReset: bv64, svrReset: bv64)

  /** There is at least one LVT entry (a compile-time assertion in the source). */
  predicate Valid(d: Defaults) {
    d.lvtSize > 0
  }

  /** The seven local vector table registers. */
  const LvtOffsets: set<Offset> :=
    {LvtCmci, LvtTimer, LvtThermal, LvtPmi, LvtLint0, LvtLint1, LvtError}

  /** Registers with a reset rule other than "clear to zero". */
  const NonZeroReset: set<Offset> := LvtOffsets + {Version, Svr, Dfr}

  /**
    reset_version: start from 0, set the version field (bits 0-7), set the
    max-LVT-entry field (bits 16-23) to the LVT count minus one, and clear
    "suppress EOI broadcast supported" (bit 24).
   */
  function VersionValue(d: Defaults): (r: bv64)
    requires Valid(d)
    ensures r & 0xFF == d.versionReset & 0xFF
    ensures (r >> 16) & 0xFF == (d.lvtSize - 1) & 0xFF
    ensures (r >> 24) & 1 == 0
    ensures r & !0xFF_00FF == 0
  {
    var val: bv64 := 0;
    var withVersion := (val & !0xFF) | (d.versionReset & 0xFF);
    var withMaxLvt := (withVersion & !0xFF_0000) | (((d.lvtSize - 1) << 16) & 0xFF_0000);
    withMaxLvt & !(1 << 24)
  }

  /** The VERSION value fits in the 32-bit register. */
  lemma VersionFits(d: Defaults)
    requires Valid(d)
    ensures VersionValue(d) & Low32 == VersionValue(d)
  {
    var r := VersionValue(d);
    assert r & !0xFF_00FF == 0;
  }

  /** The value reset_register writes at `o`, before truncation to 32 bits. */
  function ResetValue(d: Defaults, o: Offset): (r: bv64)
    requires Valid(d)
    ensures o in LvtOffsets ==> r == d.lvtReset
    ensures o !in NonZeroReset ==> r == 0
  {
    if o == Version then VersionValue(d)
    else if o in LvtOffsets then d.lvtReset
    else if o == Svr then d.svrReset
    else if o == Dfr then 0xFFFF_FFFF
    else 0
  }

  /**
    reset_register: VERSION holds the version formula, each LVT register the
    LVT reset value, SVR the SVR reset value, DFR all ones, any other
    register zero; no other register moves.
   */
  function ResetRegister(f: RegisterFile, d: Defaults, o: Offset): (r: RegisterFile)
    requires Valid(d)
    ensures o == Version ==> Read(r, o) == VersionValue(d)
    ensures o in LvtOffsets ==> Read(r, o) == d.lvtReset & Low32
    ensures o == Svr ==> Read(r, o) == d.svrReset & Low32
    ensures o == Dfr ==> Read(r, o) == 0xFFFF_FFFF
    ensures o !in NonZeroReset ==> Read(r, o) == 0
    ensures SameExcept(f, r, {o})
  {
    // One branch per rule keeps each write's proof small.
    if o == Version then
      VersionFits(d);
      Write(f, o, ResetValue(d, o))
    else if o in LvtOffsets then
      Write(f, o, ResetValue(d, o))
    else if o == Svr then
      Write(f, o, ResetValue(d, o))
    else
      Write(f, o, ResetValue(d, o))
  }

  /** A reset register reads back as its reset value, cut to 32 bits. */
  lemma ResetRegisterReads(f: RegisterFile, d: Defaults, o: Offset)
    requires Valid(d)
    ensures Read(ResetRegister(f, d, o), o) == ResetValue(d, o) & Low32
  {
    assert ResetRegister(f, d, o) == Write(f, o, ResetValue(d, o));
  }

  /** What a reset leaves in a register does not depend on what was there. */
  lemma ResetForgetsContents(f: RegisterFile, g: RegisterFile, d: Defaults, o: Offset)
    requires Valid(d)
    ensures Read(ResetRegister(f, d, o), o) == Read(ResetRegister(g, d, o), o)
  {
  }

  /** Resetting a register twice is resetting it once. */
  lemma ResetIdempotent(f: RegisterFile, d: Defaults, o: Offset)
    requires Valid(d)
    ensures ResetRegister(ResetRegister(f, d, o), d, o) == ResetRegister(f, d, o)
  {
    WriteWrite(f, o, ResetValue(d, o), ResetValue(d, o));
  }
}
