/** The hand-off lock: a releasing holder passes the lock straight to the first waiter. */
module HandOffLock {
  import opened Wrappers

  /** A suspended acquirer, named by its task. */
  type Task = nat

  datatype Lock = Lock(locked: bool, waiters: seq<Task>)

  const FREE := Lock(false, [])

  /** The state after `t` asks for the lock, and whether `t` has it at once. */
  function AcquireStep(l: Lock, t: Task): (Lock, bool) {
    if l.locked then (l.(waiters := l.waiters + [t]), false) else (l.(locked := true), true)
  }

  /** The state after the holder lets go, and who holds the lock next. */
  function ReleaseStep(l: Lock): (Lock, Option<Task>) {
    if l.waiters == [] then (l.(locked := false), None) else (l.(waiters := l.waiters[1..]), Some(l.waiters[0]))
  }

  class AsyncLock {
    var locked: bool
    var waiters: seq<Task>

    function View(): Lock
      reads this
    {
      Lock(locked, waiters)
    }

    constructor ()
      ensures View() == FREE
    {
      locked, waiters := false, [];
    }

    /** True if the caller is resumed at once; otherwise it waits its turn. */
    method AsyncAcquire(t: Task) returns (resumed: bool)
      modifies this
      ensures (View(), resumed) == AcquireStep(old(View()), t)
    {
      if !locked {
        locked := true;
        return true;
      }
      waiters := waiters + [t];
      return false;
    }

    /** The waiter to resume, if any. */
    method Release() returns (next: Option<Task>)
      modifies this
      ensures (View(), next) == ReleaseStep(old(View()))
    {
      if waiters == [] {
        locked := false;
        return None;
      }
      next := Some(waiters[0]);
      waiters := waiters[1..];
    }
  }
}
