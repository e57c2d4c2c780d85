/**
 * `debounce(func, wait)`: the returned function keeps one pending-timer
 * slot; every call cancels it and arms a new timer for `wait` ticks later
 * with that call's arguments, and a timer that fires clears the slot and
 * runs `func`. Time is a discrete clock; before an event at time `t` the
 * event loop runs every timer due at or before `t`.
 */
module Debounce {
  import opened Wrappers

  /** A pending `setTimeout(later, wait)`: when it is due and the arguments `later` closes over. */
  datatype Timer<A> = Timer(due: int, args: A)

  /** One run of the wrapped function: when, and with which arguments. */
  datatype Invocation<A> = Invocation(at: int, args: A)

  /** One call of the debounced function. */
  datatype Call<A> = Call(at: int, args: A)

  /** The closure of one debounced function; `timeout` is its single timer slot. */
  class Debounced<A> {
    const wait: nat
    var timeout: Option<Timer<A>>

    constructor (wait: nat)
      ensures this.wait == wait && timeout == None
    {
      this.wait := wait;
      timeout := None;
    }

    /**
     * `executedFunction(...args)` at time `now`: `clearTimeout`, then a fresh
     * `setTimeout`. A timer due by `now` has already run, so the slot holds
     * none.
     */
    method Invoke(now: int, args: A)
      requires timeout.None? || now < timeout.value.due
      modifies this
      ensures timeout == Some(Timer(now + wait, args))
    {
      timeout := None;
      timeout := Some(Timer(now + wait, args));
    }

    /** The event loop reaching time `now`: the pending timer, when due, runs `later`. */
    method Advance(now: int) returns (ran: seq<Invocation<A>>)
      modifies this
      ensures ran == Due(old(timeout), now)
      ensures timeout == if ran == [] then old(timeout) else None
    {
      ran := [];
      if timeout.Some? && timeout.value.due <= now {
        var t := timeout.value;
        timeout := None;
        ran := [Invocation(t.due, t.args)];
      }
    }
  }

  /** What the timer slot runs when the clock reaches `now`. */
  function Due<A>(slot: Option<Timer<A>>, now: int): (ran: seq<Invocation<A>>)
    ensures |ran| <= 1
    ensures ran != [] <==> slot.Some? && slot.value.due <= now
    ensures ran != [] ==> ran[0] == Invocation(slot.value.due, slot.value.args)
  {
    if slot.Some? && slot.value.due <= now then [Invocation(slot.value.due, slot.value.args)] else []
  }

  /**
   * The wrapped function's runs when the calls arrive in order from a slot
   * holding `slot`, the clock then running on until nothing is pending.
   */
  function Run<A>(slot: Option<Timer<A>>, wait: nat, calls: seq<Call<A>>): (runs: seq<Invocation<A>>)
    ensures |runs| <= |calls| + (if slot.Some? then 1 else 0)
    decreases |calls|
  {
    if |calls| == 0 then
      match slot
      case None => []
      case Some(t) => [Invocation(t.due, t.args)]
    else
      Due(slot, calls[0].at) + Run(Some(Timer(calls[0].at + wait, calls[0].args)), wait, calls[1..])
  }

  /** Call `i` is followed by a quiet period of at least `wait` (or by no call at all). */
  predicate Trailing<A>(calls: seq<Call<A>>, wait: nat, i: nat)
    requires i < |calls|
  {
    i == |calls| - 1 || calls[i + 1].at >= calls[i].at + wait
  }

  /**
   * The reference outcome of debouncing: exactly the calls followed by a
   * quiet period run, in order, each `wait` after it was made and with its
   * own arguments.
   */
  function Coalesced<A>(calls: seq<Call<A>>, wait: nat): seq<Invocation<A>>
    decreases |calls|
  {
    if |calls| == 0 then []
    else
      (if Trailing(calls, wait, 0) then [Invocation(calls[0].at + wait, calls[0].args)] else []) +
      Coalesced(calls[1..], wait)
  }

  /** The slot machine, started empty, produces exactly the coalesced runs. */
  lemma {:induction false} RunIsCoalesced<A>(wait: nat, calls: seq<Call<A>>)
    ensures Run(None, wait, calls) == Coalesced(calls, wait)
  {
    if |calls| > 0 {
      assert Run(None, wait, calls) == Run(Some(Timer(calls[0].at + wait, calls[0].args)), wait, calls[1..]);
      RunArmed(wait, calls);
    }
  }

  /** From a slot armed by the first call, the machine produces the coalesced runs of all calls. */
  lemma {:induction false} RunArmed<A>(wait: nat, calls: seq<Call<A>>)
    requires |calls| > 0
    ensures Run(Some(Timer(calls[0].at + wait, calls[0].args)), wait, calls[1..]) == Coalesced(calls, wait)
    decreases |calls|
  {
    var first := Invocation(calls[0].at + wait, calls[0].args);
    var rest := calls[1..];
    if |rest| == 0 {
      assert Coalesced(calls, wait) == [first] + Coalesced(rest, wait);
    } else {
      RunArmed(wait, rest);
      assert rest[1..] == calls[2..];
      assert Due(Some(Timer(calls[0].at + wait, calls[0].args)), rest[0].at) ==
        (if Trailing(calls, wait, 0) then [first] else []);
    }
  }

  /** Gaps between consecutive calls are all shorter than `wait`. */
  predicate Burst<A>(calls: seq<Call<A>>, wait: nat) {
    forall i :: 0 <= i < |calls| - 1 ==> calls[i + 1].at < calls[i].at + wait
  }

  /** A burst runs the wrapped function exactly once, `wait` after the last call, with its arguments. */
  lemma {:induction false} BurstRunsOnce<A>(wait: nat, calls: seq<Call<A>>)
    requires |calls| > 0 && Burst(calls, wait)
    ensures Run(None, wait, calls) ==
      [Invocation(calls[|calls| - 1].at + wait, calls[|calls| - 1].args)]
  {
    RunIsCoalesced(wait, calls);
    CoalescedBurst(wait, calls);
  }

  lemma {:induction false} CoalescedBurst<A>(wait: nat, calls: seq<Call<A>>)
    requires |calls| > 0 && Burst(calls, wait)
    ensures Coalesced(calls, wait) ==
      [Invocation(calls[|calls| - 1].at + wait, calls[|calls| - 1].args)]
    decreases |calls|
  {
    if |calls| > 1 {
      var rest := calls[1..];
      assert Burst(rest, wait) by {
        forall i | 0 <= i < |rest| - 1 ensures rest[i + 1].at < rest[i].at + wait {
          assert rest[i] == calls[i + 1] && rest[i + 1] == calls[i + 2];
        }
      }
      CoalescedBurst(wait, rest);
      assert !Trailing(calls, wait, 0);
      assert rest[|rest| - 1] == calls[|calls| - 1];
    }
  }

  /** Runs never outnumber calls, so coalescing never adds a run. */
  lemma {:induction false} CoalescedAtMostCalls<A>(wait: nat, calls: seq<Call<A>>)
    ensures |Coalesced(calls, wait)| <= |calls|
    decreases |calls|
  {
    if |calls| > 0 {
      CoalescedAtMostCalls(wait, calls[1..]);
    }
  }

  /**
   * Drives a debounced function through the calls and then lets the clock
   * run out: the runs it reports are those of `Run`, and nothing is left
   * pending.
   */
  method Replay<A>(d: Debounced<A>, calls: seq<Call<A>>) returns (log: seq<Invocation<A>>)
    modifies d
    ensures log == Run(old(d.timeout), d.wait, calls)
    ensures d.timeout == None
  {
    log := [];
    ghost var start := d.timeout;
    for i := 0 to |calls|
      invariant log + Run(d.timeout, d.wait, calls[i..]) == Run(start, d.wait, calls)
    {
      assert calls[i..][1..] == calls[i + 1..];
      var ran := d.Advance(calls[i].at);
      log := log + ran;
      d.Invoke(calls[i].at, calls[i].args);
    }
    if d.timeout.Some? {
      var ran := d.Advance(d.timeout.value.due);
      log := log + ran;
    }
  }
}
