/**
 * The shutdown registry of pkg/ext/shutdown.go: an append-only list of hooks
 * and a drain that runs once, when the process signal arrives. The drain
 * runs the hooks one at a time, last registered first, and closes the quit
 * channel after the last one has returned; `WaitShutdown` returns once the
 * channel is closed.
 *
 * A hook is an identifier `H`; running it is recorded in an event trace as
 * `Started(h)` followed by `Finished(h)`, and closing the quit channel as
 * `QuitClosed`, so that the trace shows both the order and the sequencing.
 */
module Shutdown {

  datatype Phase = Registering | Draining | Done

  datatype Event<H> = Started(hook: H) | Finished(hook: H) | QuitClosed

  function Reverse<T>(s: seq<T>): (r: seq<T>)
    ensures |r| == |s|
    ensures forall k :: 0 <= k < |s| ==> r[k] == s[|s| - 1 - k]
  {
    if s == [] then [] else Reverse(s[1..]) + [s[0]]
  }

  /** Reversing loses and duplicates nothing. */
  lemma {:induction false} ReversePermutes<T>(s: seq<T>)
    ensures multiset(Reverse(s)) == multiset(s)
  {
    if s != [] {
      ReversePermutes(s[1..]);
      assert s == [s[0]] + s[1..];
    }
  }

  lemma ReverseAppend<T>(a: seq<T>, b: seq<T>)
    ensures Reverse(a + b) == Reverse(b) + Reverse(a)
  {
    var l, r := Reverse(a + b), Reverse(b) + Reverse(a);
    assert |l| == |r|;
    forall k | 0 <= k < |l| ensures l[k] == r[k] {
      if k < |b| {
        assert l[k] == (a + b)[|a| + |b| - 1 - k] == b[|b| - 1 - k];
      } else {
        assert l[k] == (a + b)[|a| + |b| - 1 - k] == a[|a| - 1 - (k - |b|)];
      }
    }
  }

  /** The trace of running `hs` one after the other: each hook starts, then finishes, before the next starts. */
  function RunTrace<H>(hs: seq<H>): (t: seq<Event<H>>)
    ensures |t| == 2 * |hs|
    ensures forall i :: 0 <= i < |hs| ==> t[2 * i] == Started(hs[i]) && t[2 * i + 1] == Finished(hs[i])
  {
    if hs == [] then []
    else RunTrace(hs[..|hs| - 1]) + [Started(hs[|hs| - 1]), Finished(hs[|hs| - 1])]
  }

  /** The hooks a trace shows starting, in the order they start. */
  function RunOrder<H>(t: seq<Event<H>>): seq<H> {
    if t == [] then []
    else RunOrder(t[..|t| - 1]) + (if t[|t| - 1].Started? then [t[|t| - 1].hook] else [])
  }

  lemma {:induction false} RunOrderAppend<H>(a: seq<Event<H>>, b: seq<Event<H>>)
    ensures RunOrder(a + b) == RunOrder(a) + RunOrder(b)
    decreases |b|
  {
    if b == [] {
      assert a + b == a;
    } else {
      var init := b[..|b| - 1];
      assert (a + b)[..|a + b| - 1] == a + init;
      RunOrderAppend(a, init);
    }
  }

  /** Running `hs` starts exactly the hooks of `hs`, in that order. */
  lemma {:induction false} RunTraceOrder<H>(hs: seq<H>)
    ensures RunOrder(RunTrace(hs)) == hs
    decreases |hs|
  {
    if hs != [] {
      var init := hs[..|hs| - 1];
      var last := hs[|hs| - 1];
      RunTraceOrder(init);
      RunOrderAppend(RunTrace(init), [Started(last), Finished(last)]);
      var pair := [Started(last), Finished(last)];
      assert RunOrder(pair) == [last] by {
        assert pair[..1] == [Started(last)];
        assert [Started(last)][..0] == [];
        assert RunOrder([Started(last)]) == [last];
        assert RunOrder(pair) == RunOrder(pair[..1]) + [];
      }
      assert hs == init + [last];
    }
  }

  /** The trace of a complete drain ends with the one closing of the quit channel. */
  lemma DrainClosesOnce<H>(hs: seq<H>)
    ensures var t := RunTrace(Reverse(hs)) + [QuitClosed];
      && t[|t| - 1] == QuitClosed
      && forall i :: 0 <= i < |t| - 1 ==> t[i] != QuitClosed
  {
    var r := RunTrace(Reverse(hs));
    forall i | 0 <= i < |r| ensures r[i] != QuitClosed {
      assert r[2 * (i / 2)] == Started(Reverse(hs)[i / 2]);
    }
  }

  /** The already-registered hooks and the order of the drain. */
  class Registry<H(==)> {
    var hooks: seq<H>
    var phase: Phase
    var trace: seq<Event<H>>
    /** How many hooks were registered when the drain began. */
    ghost var drained: nat

    ghost predicate Valid()
      reads this
    {
      && drained <= |hooks|
      && (phase == Registering ==> trace == [] && drained == 0)
      && (phase == Draining ==> QuitClosed !in trace)
      && (phase == Done ==> trace == RunTrace(Reverse(hooks[..drained])) + [QuitClosed])
    }

    /** The state `init` leaves: no hooks, and the signal not yet received. */
    constructor ()
      ensures Valid()
      ensures hooks == [] && phase == Registering && trace == []
    {
      hooks := [];
      phase := Registering;
      trace := [];
      drained := 0;
    }

    /** `OnShutdown`: appends the hook; a drain that has begun does not see it. */
    method OnShutdown(h: H)
      requires Valid()
      modifies this
      ensures Valid()
      ensures hooks == old(hooks) + [h]
      ensures phase == old(phase) && trace == old(trace) && drained == old(drained)
    {
      hooks := hooks + [h];
      assert hooks[..drained] == old(hooks)[..drained];
    }

    /** One step of the drain: the hook starts, and returns before anything else happens. */
    method RunHook(h: H)
      requires Valid() && phase == Draining
      modifies this
      ensures Valid()
      ensures trace == old(trace) + [Started(h), Finished(h)]
      ensures hooks == old(hooks) && phase == old(phase) && drained == old(drained)
    {
      trace := trace + [Started(h)];
      trace := trace + [Finished(h)];
    }

    /**
     * The signal goroutine: on the first signal, run every registered hook from
     * the last to the first and then close the quit channel. Later signals are
     * never received, so they change nothing.
     */
    method Signal()
      requires Valid()
      modifies this
      ensures Valid()
      ensures hooks == old(hooks)
      ensures old(phase) == Registering ==>
        phase == Done && drained == |hooks| && trace == RunTrace(Reverse(hooks)) + [QuitClosed]
      ensures old(phase) != Registering ==>
        phase == old(phase) && trace == old(trace) && drained == old(drained)
    {
      if phase != Registering {
        return;
      }
      phase := Draining;
      drained := |hooks|;
      var i := |hooks| - 1;
      while i >= 0
        invariant -1 <= i < |hooks|
        invariant Valid()
        invariant hooks == old(hooks) && phase == Draining && drained == |hooks|
        invariant trace == RunTrace(Reverse(hooks)[..|hooks| - 1 - i])
      {
        ghost var done := Reverse(hooks)[..|hooks| - 1 - i];
        assert Reverse(hooks)[..|hooks| - i] == done + [hooks[i]];
        RunHook(hooks[i]);
        assert (done + [hooks[i]])[..|done|] == done;
        i := i - 1;
      }
      assert Reverse(hooks)[..|hooks|] == Reverse(hooks);
      assert hooks[..drained] == hooks;
      trace := trace + [QuitClosed];
      phase := Done;
    }

    /**
     * `WaitShutdown` returns only once the quit channel is closed; `completed`
     * says whether it would return now. Once it does, every hook registered
     * before the signal has run exactly once, last registered first, and the
     * channel was closed after the last of them.
     */
    method WaitShutdown() returns (completed: bool)
      requires Valid()
      ensures completed <==> phase == Done
      ensures completed ==>
        && |trace| > 0 && trace[|trace| - 1] == QuitClosed
        && RunOrder(trace[..|trace| - 1]) == Reverse(hooks[..drained])
        && multiset(RunOrder(trace[..|trace| - 1])) == multiset(hooks[..drained])
    {
      completed := phase == Done;
      if completed {
        var run := trace[..|trace| - 1];
        assert run == RunTrace(Reverse(hooks[..drained]));
        RunTraceOrder(Reverse(hooks[..drained]));
        ReversePermutes(hooks[..drained]);
      }
    }
  }
}
