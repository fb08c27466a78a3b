/**
  The hypervisor's interrupt window, as the virtual Local APIC sees it: an
  external object that says whether the guest can take an interrupt now,
  can be told to arm or disarm interrupt-window exiting, and performs the
  actual injection.  Its internals are not part of this model; it is kept as
  a record of its two flags and of the vectors handed to `inject`.
 */
module InterruptWindow {
  import opened Bitmap256

  /**
    `open`: the guest can accept an interrupt now (is_open).
    `exiting`: interrupt-window exiting is armed.
    `injected`: the vectors passed to inject so far, oldest first.
   */
  datatype Window = Window(open: bool, exiting: bool, injected: seq<Vector>)

  /** enable_exiting: ask for an exit when the window opens. */
  function EnableExiting(w: Window): Window {
    w.(exiting := true)
  }

  /** disable_exiting: stop asking for that exit. */
  function DisableExiting(w: Window): Window {
    w.(exiting := false)
  }

  /** inject: hand one vector to the window for delivery. */
  function Inject(w: Window, v: Vector): Window {
    w.(injected := w.injected + [v])
  }
}
