/**
  A worked example of the virtual Local APIC: vectors queued while the guest
  cannot take interrupts, then delivered by window exits in priority order.
 */
module Scenarios {
  import opened Bitmap256
  import opened InterruptWindow
  import opened VirtLapic
  import opened WindowExits
  import opened Traces

  /** queue_injection behind a closed window, seen on the pending vectors. */
  lemma QueueClosed(l: Lapic, v: Vector)
    requires !l.window.open
    ensures Members(Irr(QueueInjection(l, v))) == Members(Irr(l)) + iset{v}
    ensures QueueInjection(l, v).window == EnableExiting(l.window)
  {
    MembersWith(Irr(l), Irr(QueueInjection(l, v)), v);
  }

  /** The order in which the example's vectors must come out. */
  lemma ExampleOrder()
    ensures Decreasing([201, 200, 64, 17])
    ensures Elems([201, 200, 64, 17]) == iset{17, 200, 201, 64}
  {
    var t: seq<bv8> := [201, 200, 64, 17];
    assert forall u :: u in t <==> u == 17 || u == 200 || u == 201 || u == 64;
  }

  /** Two vectors queued behind a closed window: both become pending and exiting is armed. */
  lemma QueueTwo(l: Lapic, a: Vector, b: Vector)
    requires !l.window.open
    ensures Members(Irr(QueueInjection(QueueInjection(l, a), b))) == Members(Irr(l)) + iset{a, b}
    ensures QueueInjection(QueueInjection(l, a), b).window == EnableExiting(l.window)
  {
    QueueClosed(l, a);
    QueueClosed(QueueInjection(l, a), b);
  }

  /** The example's queueing: the four vectors end up pending, exiting armed, nothing injected. */
  lemma QueueFour(l0: Lapic)
    requires !l0.window.open && IsEmpty(Irr(l0))
    ensures
      var l := QueueInjection(QueueInjection(QueueInjection(QueueInjection(l0, 17), 200), 201), 64);
      && Members(Irr(l)) == iset{17, 200, 201, 64}
      && l.window == EnableExiting(l0.window)
  {
    MembersTopPop(Irr(l0));
    QueueTwo(l0, 17, 200);
    QueueTwo(QueueInjection(QueueInjection(l0, 17), 200), 201, 64);
  }

  /**
    With exiting armed, 256 window exits deliver exactly the decreasing
    trace of the pending vectors, and end with IRR empty and exiting disarmed.
   */
  lemma DrainAll(l: Lapic, t: seq<Vector>)
    requires l.window.exiting
    requires Decreasing(t) && Elems(t) == Members(Irr(l))
    ensures Drain(l, 256).1 == t
    ensures Drain(l, 256).0.window.injected == l.window.injected + t
    ensures IsEmpty(Irr(Drain(l, 256).0)) && !Drain(l, 256).0.window.exiting
  {
    DrainCompletes(l, 256);
    DecreasingUnique(Drain(l, 256).1, t);
  }

  /**
    Vectors 17, 200, 201 and 64 queued, in that order, behind a closed window
    over an empty IRR: 256 window exits (more than any run needs) deliver
    them highest first, 201, 200, 64, 17, hand exactly those to the window,
    and end with IRR empty and exiting disarmed.
   */
  lemma PriorityDrain(l0: Lapic)
    requires !l0.window.open && IsEmpty(Irr(l0))
    ensures
      var l := QueueInjection(QueueInjection(QueueInjection(QueueInjection(l0, 17), 200), 201), 64);
      var r := Drain(l, 256);
      && r.1 == [201, 200, 64, 17]
      && r.0.window.injected == l0.window.injected + [201, 200, 64, 17]
      && IsEmpty(Irr(r.0)) && !r.0.window.exiting
  {
    var l := QueueInjection(QueueInjection(QueueInjection(QueueInjection(l0, 17), 200), 201), 64);
    QueueFour(l0);
    ExampleOrder();
    DrainAll(l, [201, 200, 64, 17]);
  }

  /**
    The same example with every exit handled by handle_interrupt_window_exit
    as written: queueing behind a closed window leaves exiting armed over a
    non-empty IRR, so the handler never meets an empty IRR and delivers the
    same trace, 201, 200, 64, 17.
   */
  lemma PriorityDrainAsWritten(l0: Lapic)
    requires !l0.window.open && IsEmpty(Irr(l0))
    ensures
      var l := QueueInjection(QueueInjection(QueueInjection(QueueInjection(l0, 17), 200), 201), 64);
      var r := DrainAsWritten(l, 256);
      && r.1 == [201, 200, 64, 17]
      && r.0.window.injected == l0.window.injected + [201, 200, 64, 17]
      && IsEmpty(Irr(r.0)) && !r.0.window.exiting
  {
    var l := QueueInjection(QueueInjection(QueueInjection(QueueInjection(l0, 17), 200), 201), 64);
    QueueFour(l0);
    MembersTopPop(Irr(l));
    assert 17 in Members(Irr(l));
    AsWrittenAgrees(l, 256);
    PriorityDrain(l0);
  }
}
