/**
 * The running flag of `OscListener`.  Each `Start` creates a fresh
 * cancellation source and a background receive loop; `Stop` cancels the
 * current source; a loop that ends runs its `finally` block, modelled as the
 * event `LoopExited`.  Sources and loops are named by a generation number:
 * generation `g` is the source made by the `g`-th effective `Start` and the
 * loop started with it.  The socket, the receive loop's body and the timing of
 * the background task are not modelled: a loop may exit at any moment.  The
 * source reads the `cts` and `udpClient` fields afresh on every pass, so an
 * older loop still running after a later `Start` waits on the later source;
 * here loop `g` is tied to source `g`, which is exact for every loop that has
 * not outlived its own generation.
 */
module Listener {

  class OscListener {
    /** `IsRunning`. */
    var isRunning: bool
    /** The generation of the current `cts`; 0 while it is still null. */
    var cts: nat
    /** Generations whose source has been cancelled. */
    var cancelled: set<nat>
    /** Generations whose background loop has not yet run its `finally`. */
    var loops: set<nat>

    /** Every generation mentioned has been issued, and a running listener's source is not cancelled. */
    predicate Valid()
      reads this
    {
      && (forall g :: g in loops ==> 1 <= g <= cts)
      && (forall g :: g in cancelled ==> 1 <= g <= cts)
      && (isRunning ==> 1 <= cts && cts !in cancelled)
    }

    /**
     * The flag tells the truth about the loops: a running listener has its
     * current loop alive, and a live loop whose source has not been cancelled
     * is the current one, with the flag set.  `Stop` can then reach every loop
     * that is still listening.
     */
    predicate Tracked()
      reads this
    {
      && (isRunning ==> cts in loops)
      && (forall g :: g in loops && g !in cancelled ==> g == cts && isRunning)
    }

    constructor ()
      ensures Valid() && Tracked()
      ensures !isRunning && cts == 0 && cancelled == {} && loops == {}
    {
      isRunning, cts, cancelled, loops := false, 0, {}, {};
    }

    /**
     * `Start(port)`: nothing while running; otherwise a new source, the flag
     * set, and a new loop listening on `port`.
     */
    method Start(port: int)
      requires Valid()
      modifies this
      ensures Valid()
      ensures old(isRunning) ==> unchanged(this)
      ensures !old(isRunning) ==>
        && isRunning && cts == old(cts) + 1
        && cancelled == old(cancelled) && loops == old(loops) + {cts}
      ensures old(Tracked()) ==> Tracked()
    {
      if isRunning {
        return;
      }
      cts := cts + 1;
      isRunning := true;
      loops := loops + {cts};
    }

    /** `Stop()`: nothing while stopped; otherwise the current source cancelled and the flag cleared. */
    method Stop()
      requires Valid()
      modifies this
      ensures Valid()
      ensures !old(isRunning) ==> unchanged(this)
      ensures old(isRunning) ==>
        && !isRunning && cts == old(cts)
        && cancelled == old(cancelled) + {cts} && loops == old(loops)
      ensures old(Tracked()) ==> Tracked() && forall g :: g in loops ==> g in cancelled
    {
      if !isRunning {
        return;
      }
      cancelled := cancelled + {cts};
      isRunning := false;
    }

    /**
     * The `finally` block of loop `g`: the flag is cleared, whichever
     * generation is current.
     */
    method LoopExited(g: nat)
      requires Valid() && g in loops
      modifies this
      ensures Valid()
      ensures !isRunning && loops == old(loops) - {g}
      ensures cts == old(cts) && cancelled == old(cancelled)
    {
      isRunning := false;
      loops := loops - {g};
    }

    /**
     * The `finally` block as evidently intended: only the current
     * generation's loop clears the flag.
     */
    method OwnLoopExited(g: nat)
      requires Valid() && g in loops
      modifies this
      ensures Valid()
      ensures isRunning == (old(isRunning) && g != cts) && loops == old(loops) - {g}
      ensures cts == old(cts) && cancelled == old(cancelled)
      ensures old(Tracked()) ==> Tracked()
    {
      if g == cts {
        isRunning := false;
      }
      loops := loops - {g};
    }
  }

  /**
   * Start, Stop, Start, and then the first loop's `finally` runs late: the
   * flag says stopped while the second loop is alive and its source is not
   * cancelled, and a `Stop` now does nothing, so no later call can reach
   * that loop.
   */
  method StaleExit() returns (l: OscListener)
    ensures l.Valid() && !l.Tracked()
    ensures !l.isRunning && l.cts == 2 && 2 in l.loops && 2 !in l.cancelled
  {
    l := new OscListener();
    l.Start(9001);
    l.Stop();
    l.Start(9001);
    l.LoopExited(1);
    l.Stop();
  }

  /** The same events with the intended `finally`: the second loop is still tracked, and `Stop` reaches it. */
  method OwnExit() returns (l: OscListener)
    ensures l.Valid() && l.Tracked()
    ensures !l.isRunning && l.cts == 2 && l.loops == {2} && l.cancelled == {1, 2}
  {
    l := new OscListener();
    l.Start(9001);
    l.Stop();
    l.Start(9001);
    l.OwnLoopExited(1);
    l.Stop();
  }
}
