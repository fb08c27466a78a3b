/**
  Interrupt-window exits over time.  A vCPU's window exits arrive while
  window exiting is armed; each one runs the exit handler.  The module states
  when exiting may be armed (only while IRR holds a vector), shows how the
  handler as written breaks that rule (it injects vector 0 after
  queue_injection has emptied IRR behind an armed window), gives the handler
  the check it lacks, and proves what a run of exits delivers: the pending
  vectors, highest first.
 */
module WindowExits {
  import opened Bitmap256
  import opened Registers
  import opened InterruptWindow
  import opened VirtLapic
  import opened Traces
  import opened Runs

  /** Window exiting is armed only while some vector is pending in IRR. */
  predicate Inv(l: Lapic) {
    l.window.exiting ==> !IsEmpty(Irr(l))
  }

  ///--------------------------------------------------------------------------
  /// The handler with an emptiness check
  ///--------------------------------------------------------------------------

  /** What one checked exit hands to the window: the top of IRR, or nothing when IRR is empty. */
  function Delivered(l: Lapic): seq<Vector> {
    if IsEmpty(Irr(l)) then [] else [Top(Irr(l))]
  }

  /**
    handle_interrupt_window_exit with the missing check: on an empty IRR it
    only disarms window exiting.  On a non-empty IRR it is the handler as
    written; either way exiting stays armed iff IRR still holds a vector.
   */
  function HandleWindowExitChecked(l: Lapic): (r: (Lapic, bool))
    ensures r.1
    ensures r.0.window.injected == l.window.injected + Delivered(l)
    ensures IsEmpty(Irr(l)) ==> r.0.regs == l.regs
    ensures !IsEmpty(Irr(l)) ==> r == HandleWindowExit(l)
    ensures r.0.window.open == l.window.open
    ensures r.0.window.exiting <==> !IsEmpty(Irr(r.0))
  {
    if IrrIsEmpty(l) then
      (l.(window := DisableExiting(l.window)), true)
    else
      HandleWindowExit(l)
  }

  /**
    One checked exit, in terms of the vectors involved: what it delivers was
    pending and lies above everything still pending afterwards; it leaves IRR
    and enters ISR.
   */
  lemma ExitStep(l: Lapic)
    ensures Delivers(Members(Irr(l)), Members(Irr(HandleWindowExitChecked(l).0)),
                     Members(Isr(l)), Members(Isr(HandleWindowExitChecked(l).0)), Delivered(l))
  {
    if IsEmpty(Irr(l)) {
      var l1 := HandleWindowExitChecked(l).0;
      assert Irr(l1) == Irr(l) && Isr(l1) == Isr(l);
      TraceNil(Members(Irr(l)), Members(Isr(l)));
    } else {
      ExitStepNonEmpty(l);
    }
  }

  /** The same for the handler as written, on a non-empty IRR: it delivers the top vector. */
  lemma ExitStepNonEmpty(l: Lapic)
    requires !IsEmpty(Irr(l))
    ensures Delivers(Members(Irr(l)), Members(Irr(HandleWindowExit(l).0)),
                     Members(Isr(l)), Members(Isr(HandleWindowExit(l).0)), Delivered(l))
  {
    var v := Top(Irr(l));
    assert Delivered(l) == [v];
    MembersTopPop(Irr(l));
    var l1 := HandleWindowExit(l).0;
    TraceSingle(Members(Irr(l)), Members(Irr(l1)), Members(Isr(l)), Members(Isr(l1)), v);
  }

  /** Where the invariant holds and an exit arrives, the handler as written is the checked one. */
  lemma HandlerAgreesUnderInv(l: Lapic)
    requires Inv(l) && l.window.exiting
    ensures HandleWindowExit(l) == HandleWindowExitChecked(l)
    ensures Has(Irr(l), Top(Irr(l)))
  {
  }

  /**
    Which operations keep the invariant: queue_injection on a closed window,
    both handlers, write_eoi and inject_spurious.  (queue_injection on an open
    window does not; see ZeroInjectedAfterReopen.)
   */
  lemma InvPreserved(l: Lapic, v: Vector)
    requires Inv(l)
    ensures !l.window.open ==> Inv(QueueInjection(l, v))
    ensures Inv(HandleWindowExit(l).0)
    ensures Inv(HandleWindowExitChecked(l).0)
    ensures Inv(WriteEoi(l))
    ensures Inv(InjectSpurious(l, v).0)
  {
    if !l.window.open {
      var r := QueueInjection(l, v);
      assert Has(Irr(r), v);
      EmptyIffNoVector(Irr(r));
    }
    var s := InjectSpurious(l, v).0;
    assert Irr(s) == Irr(l);
  }

  /** queue_injection on a closed window over an empty IRR: IRR holds just `v` and exiting is armed. */
  lemma QueueClosedOnEmpty(l: Lapic, v: Vector)
    requires !l.window.open && IsEmpty(Irr(l))
    ensures Members(Irr(QueueInjection(l, v))) == iset{v}
    ensures QueueInjection(l, v).window == EnableExiting(l.window)
  {
    MembersTopPop(Irr(l));
    var r := QueueInjection(l, v);
    assert forall u :: u in Members(Irr(r)) <==> u == v || u in Members(Irr(l));
  }

  /**
    queue_injection on an open window whose IRR holds just `v`: IRR empties and
    `v` goes to the window, with exiting left as it was.
   */
  lemma QueueOpenOnSingle(l: Lapic, v: Vector)
    requires l.window.open && Members(Irr(l)) == iset{v}
    ensures IsEmpty(Irr(QueueInjection(l, v)))
    ensures QueueInjection(l, v).window == Inject(l.window, v)
  {
    var r := QueueInjection(l, v);
    assert Irr(r) == Clear(Irr(l), v);
    SetClearMembers(Irr(l), v);
    MembersTopPop(Irr(r));
  }

  /** The handler as written on an empty IRR injects 0 and puts 0 in service. */
  lemma HandlerOnEmpty(l: Lapic)
    requires IsEmpty(Irr(l))
    ensures HandleWindowExit(l).0.window.injected == l.window.injected + [0]
    ensures Has(Isr(HandleWindowExit(l).0), 0)
  {
    assert Top(Irr(l)) == 0;
  }

  /**
    The handler as written injects vector 0 without it ever being queued.
    From an empty IRR behind a closed window: queue_injection(v) queues v and
    arms exiting; the window opens; queue_injection(v) again injects v
    directly, which empties IRR but leaves exiting armed; the next window exit
    then injects the empty-bitmap "top", 0, and puts 0 in service.
   */
  lemma ZeroInjectedAfterReopen(l0: Lapic, v: Vector)
    requires !l0.window.open && IsEmpty(Irr(l0))
    ensures
      var l1 := QueueInjection(l0, v);
      var l3 := QueueInjection(l1.(window := l1.window.(open := true)), v);
      var r := HandleWindowExit(l3).0;
      && Inv(l1) && !Inv(l3)
      && l3.window.injected == l0.window.injected + [v]
      && r.window.injected == l0.window.injected + [v, 0]
      && Has(Isr(r), 0)
  {
    var l1 := QueueInjection(l0, v);
    QueueClosedOnEmpty(l0, v);
    MembersTopPop(Irr(l1));
    var l2 := l1.(window := l1.window.(open := true));
    assert Irr(l2) == Irr(l1);
    QueueOpenOnSingle(l2, v);
    var l3 := QueueInjection(l2, v);
    HandlerOnEmpty(l3);
    AppendTwo(l0.window.injected, v, 0);
  }

  /** The discrepancy on a concrete input: the zeroed page, window closed, vector 42. */
  lemma ZeroInjectedExample()
    ensures
      var l0 := Lapic(seq(256, _ => 0), Window(false, false, []));
      var l1 := QueueInjection(l0, 42);
      var l3 := QueueInjection(l1.(window := l1.window.(open := true)), 42);
      HandleWindowExit(l3).0.window.injected == [42, 0]
  {
    var l0 := Lapic(seq(256, _ => 0), Window(false, false, []));
    assert Irr(l0) == Empty;
    ZeroInjectedAfterReopen(l0, 42);
  }

  /**
    The checked handler on the same run: the exit after the direct injection
    delivers nothing and only disarms exiting.
   */
  lemma CheckedAfterReopen(l0: Lapic, v: Vector)
    requires !l0.window.open && IsEmpty(Irr(l0))
    ensures
      var l1 := QueueInjection(l0, v);
      var l3 := QueueInjection(l1.(window := l1.window.(open := true)), v);
      var r := HandleWindowExitChecked(l3).0;
      && r.window.injected == l0.window.injected + [v]
      && !r.window.exiting && r.regs == l3.regs
  {
    var l1 := QueueInjection(l0, v);
    QueueClosedOnEmpty(l0, v);
    var l2 := l1.(window := l1.window.(open := true));
    assert Irr(l2) == Irr(l1);
    QueueOpenOnSingle(l2, v);
  }

  ///--------------------------------------------------------------------------
  /// Successive exits
  ///--------------------------------------------------------------------------

  /**
    Two exits in a row, with nothing queued in between, inject a strictly
    decreasing pair: the second vector was pending below the first.
   */
  lemma ExitOrder(l: Lapic)
    requires !IsEmpty(Irr(l))
    requires HandleWindowExit(l).0.window.exiting
    ensures
      var l1 := HandleWindowExit(l).0;
      Top(Irr(l1)) < Top(Irr(l)) && Has(Irr(l), Top(Irr(l1)))
  {
    var l1 := HandleWindowExit(l).0;
    assert Has(Irr(l1), Top(Irr(l1)));
  }

  /** One checked exit as a step of a run: the state afterwards and what it delivered. */
  function ExitOnce(l: Lapic): (Lapic, seq<Vector>) {
    (HandleWindowExitChecked(l).0, Delivered(l))
  }

  /** Window exits keep arriving while exiting is armed. */
  predicate Armed(l: Lapic) {
    l.window.exiting
  }

  function Injected(l: Lapic): seq<Vector> {
    l.window.injected
  }

  function IsOpen(l: Lapic): bool {
    l.window.open
  }

  ghost function Pending(l: Lapic): iset<Vector> {
    Members(Irr(l))
  }

  ghost function InService(l: Lapic): iset<Vector> {
    Members(Isr(l))
  }

  /**
    `n` window exits, each arriving while exiting is armed and handled by the
    checked handler: the state afterwards and the vectors they delivered, in
    order.  The run stops early once exiting is disarmed.  Every delivered
    vector went to the window, and the window stays open or closed as it was.
   */
  function Drain(l: Lapic, n: nat): (r: (Lapic, seq<Vector>))
    ensures r.0.window.injected == l.window.injected + r.1
    ensures r.0.window.open == l.window.open
  {
    RunLog(ExitOnce, Armed, Injected, l, n);
    RunKeeps(ExitOnce, Armed, IsOpen, l, n);
    Run(ExitOnce, Armed, l, n)
  }

  /** A run with no exits left, or with exiting disarmed, changes nothing. */
  lemma DrainStop(l: Lapic, n: nat)
    requires n == 0 || !l.window.exiting
    ensures Drain(l, n) == (l, [])
  {
    RunStop(ExitOnce, Armed, l, n);
  }

  /** A run of `n > 0` exits on an armed window is one checked exit followed by `n - 1` more. */
  lemma DrainStep(l: Lapic, n: nat)
    requires n > 0 && l.window.exiting
    ensures Drain(l, n) == (Drain(HandleWindowExitChecked(l).0, n - 1).0,
                            Delivered(l) + Drain(HandleWindowExitChecked(l).0, n - 1).1)
  {
    RunStep(ExitOnce, Armed, l, n);
  }

  /** On a non-empty IRR the first vector a run delivers is the top of IRR, as the handler as written does. */
  lemma DrainFirst(l: Lapic, n: nat)
    requires n > 0 && l.window.exiting && !IsEmpty(Irr(l))
    ensures Drain(l, n) == (Drain(HandleWindowExit(l).0, n - 1).0,
                            [Top(Irr(l))] + Drain(HandleWindowExit(l).0, n - 1).1)
  {
    DrainStep(l, n);
  }

  /** An exit on an empty IRR ends the run with nothing delivered. */
  lemma DrainOnEmpty(l: Lapic, n: nat)
    requires n > 0 && l.window.exiting && IsEmpty(Irr(l))
    ensures Drain(l, n) == (l.(window := DisableExiting(l.window)), [])
  {
    DrainStep(l, n);
    DrainStop(HandleWindowExitChecked(l).0, n - 1);
  }

  /** One exit is enough to establish the invariant, and no exit breaks it. */
  lemma DrainInv(l: Lapic, n: nat)
    ensures n > 0 ==> Inv(Drain(l, n).0)
    ensures Inv(l) ==> Inv(Drain(l, n).0)
  {
    RunEnds(ExitOnce, Armed, Inv, l, n);
    if !l.window.exiting {
      DrainStop(l, n);
    }
  }

  /**
    What a run of exits delivers: vectors that were pending in IRR, in
    strictly decreasing order, each above every vector still pending
    afterwards; IRR loses exactly the delivered vectors and ISR gains exactly
    them.
   */
  lemma DrainDelivers(l: Lapic, n: nat)
    ensures Delivers(Members(Irr(l)), Members(Irr(Drain(l, n).0)),
                     Members(Isr(l)), Members(Isr(Drain(l, n).0)), Drain(l, n).1)
  {
    forall x | Armed(x)
      ensures Delivers(Pending(x), Pending(ExitOnce(x).0), InService(x), InService(ExitOnce(x).0), ExitOnce(x).1)
    {
      ExitStep(x);
    }
    RunDelivers(ExitOnce, Armed, Pending, InService, l, n);
  }

  /** After a checked exit, exiting is armed exactly when IRR still holds a vector. */
  predicate ArmedIffPending(l: Lapic) {
    l.window.exiting <==> !IsEmpty(Irr(l))
  }

  /** What a run of exits counts down: the top of IRR. */
  function TopRank(l: Lapic): nat {
    Top(Irr(l)) as nat
  }

  /** An exit that leaves exiting armed lowers the top of IRR. */
  lemma ExitLowersTop(l: Lapic)
    requires l.window.exiting && HandleWindowExitChecked(l).0.window.exiting
    ensures TopRank(HandleWindowExitChecked(l).0) < TopRank(l)
  {
    if !IsEmpty(Irr(l)) {
      ExitOrder(l);
    }
  }

  /**
    A run allowed more exits than the top of IRR runs to completion: it ends
    with exiting disarmed, and a run that starts armed empties IRR, having
    delivered every vector that was pending, highest first.
   */
  lemma DrainCompletes(l: Lapic, n: nat)
    requires n > Top(Irr(l)) as nat
    ensures !Drain(l, n).0.window.exiting
    ensures l.window.exiting ==> IsEmpty(Irr(Drain(l, n).0))
    ensures l.window.exiting ==> Elems(Drain(l, n).1) == Members(Irr(l)) && Decreasing(Drain(l, n).1)
  {
    forall x | Armed(x) && Armed(ExitOnce(x).0)
      ensures TopRank(ExitOnce(x).0) < TopRank(x)
    {
      ExitLowersTop(x);
    }
    RunHalts(ExitOnce, Armed, TopRank, l, n);
    RunEnds(ExitOnce, Armed, ArmedIffPending, l, n);
    var r := Drain(l, n);
    DrainDelivers(l, n);
    MembersTopPop(Irr(r.0));
    if l.window.exiting {
      DeliveredAll(Members(Irr(l)), r.1);
    }
  }

  ///--------------------------------------------------------------------------
  /// Runs of the handler as written
  ///--------------------------------------------------------------------------

  /**
    One exit handled by handle_interrupt_window_exit as written: the state
    afterwards and what it hands to the window, the top of IRR (0 when IRR
    is empty).
   */
  function ExitAsWritten(l: Lapic): (Lapic, seq<Vector>) {
    (HandleWindowExit(l).0, [Top(Irr(l))])
  }

  /**
    `n` window exits, each arriving while exiting is armed and handled by the
    handler as written.  Every delivered vector went to the window, and the
    window stays open or closed as it was.
   */
  function DrainAsWritten(l: Lapic, n: nat): (r: (Lapic, seq<Vector>))
    ensures r.0.window.injected == l.window.injected + r.1
    ensures r.0.window.open == l.window.open
  {
    AsWrittenSteps();
    RunLog(ExitAsWritten, Armed, Injected, l, n);
    RunKeeps(ExitAsWritten, Armed, IsOpen, l, n);
    Run(ExitAsWritten, Armed, l, n)
  }

  /** Each exit handled as written injects what it delivers and leaves the window open or closed. */
  lemma AsWrittenSteps()
    ensures forall x :: Armed(x) ==> Injected(ExitAsWritten(x).0) == Injected(x) + ExitAsWritten(x).1
    ensures forall x :: Armed(x) ==> IsOpen(ExitAsWritten(x).0) == IsOpen(x)
  {
    forall x | Armed(x)
      ensures Injected(ExitAsWritten(x).0) == Injected(x) + ExitAsWritten(x).1
      ensures IsOpen(ExitAsWritten(x).0) == IsOpen(x)
    {
    }
  }

  /**
    From a state where the invariant holds, window exits handled as written
    run exactly as the checked ones: same final state, same vectors injected.
   */
  lemma AsWrittenAgrees(l: Lapic, n: nat)
    requires Inv(l)
    ensures DrainAsWritten(l, n) == Drain(l, n)
  {
    forall x | Armed(x) && Inv(x)
      ensures ExitAsWritten(x) == ExitOnce(x)
    {
      HandlerAgreesUnderInv(x);
    }
    forall x | Armed(x) && Inv(x)
      ensures Inv(ExitAsWritten(x).0)
    {
      InvPreserved(x, 0);
    }
    RunAgree(ExitAsWritten, ExitOnce, Armed, Inv, l, n);
  }

  /**
    Where the invariant is broken (exiting armed over an empty IRR), the
    handler as written injects vector 0 and then disarms, ending the run.
   */
  lemma AsWrittenOnEmpty(l: Lapic, n: nat)
    requires n > 0 && l.window.exiting && IsEmpty(Irr(l))
    ensures DrainAsWritten(l, n).1 == [0]
    ensures !DrainAsWritten(l, n).0.window.exiting
  {
    var l1 := HandleWindowExit(l).0;
    MembersTopPop(Irr(l));
    assert Top(Irr(l)) == 0;
    assert Members(Irr(l1)) == iset{};
    MembersTopPop(Irr(l1));
    RunStep(ExitAsWritten, Armed, l, n);
    RunStop(ExitAsWritten, Armed, l1, n - 1);
  }

  /**
    The handler as written, from a state where the invariant holds and with
    more exits allowed than the top of IRR, delivers every pending vector,
    highest first, and ends with IRR empty and exiting disarmed.
   */
  lemma AsWrittenCompletes(l: Lapic, n: nat)
    requires Inv(l) && l.window.exiting && n > Top(Irr(l)) as nat
    ensures Elems(DrainAsWritten(l, n).1) == Members(Irr(l)) && Decreasing(DrainAsWritten(l, n).1)
    ensures IsEmpty(Irr(DrainAsWritten(l, n).0)) && !DrainAsWritten(l, n).0.window.exiting
  {
    AsWrittenAgrees(l, n);
    DrainCompletes(l, n);
  }
}
