/** When the timeout strikes, in plain numbers, and which runs it leaves alone. */
module Timeouts {
  import opened VectorClock
  import opened LogEntry
  import opened Server
  import opened ServerSafety
  import opened Protocol
  import opened Losses

  const TWO64 := 0x1_0000_0000_0000_0000

  /** The age of an entry is an unsigned 64-bit difference: a head that arrived in the past is too old
      when it has waited longer than the timeout, one that arrives in the future nearly always. */
  lemma TooOld(v: View, now: nat, timeout: nat)
    requires v.buffer != [] && now < TWO64 && v.buffer[0].arrival < TWO64
    ensures var arrival := v.buffer[0].arrival;
      Elapsed(now, arrival) > timeout <==>
        (if arrival <= now then now - arrival > timeout else now + TWO64 - arrival > timeout)
  {
  }

  /** A head that has not waited longer than the timeout stays, and so does everything else. */
  lemma YoungHeadStays(v: View, now: nat, timeout: nat)
    requires v.buffer != [] ==> v.buffer[0].arrival <= now <= v.buffer[0].arrival + timeout
    requires now < TWO64
    ensures TimeoutFlush(v, now, timeout) == v
  {
    hide Flush;
    if v.buffer != [] {
      TooOld(v, now, timeout);
    }
  }

  /** A head that has waited longer is written. */
  lemma OldHeadIsWritten(v: View, now: nat, timeout: nat)
    requires v.buffer != [] && v.buffer[0].arrival + timeout < now < TWO64
    ensures v.log + [v.buffer[0].entry] <= TimeoutFlush(v, now, timeout).log
  {
    hide Judge, Le, Held;
    TooOld(v, now, timeout);
    var f := Force(v);
    FlushProgress(f);
    FlushShrinks(f);
    TimeoutProgress(Flush(f), now, timeout);
    hide Flush;
  }

  // ---------------------------------------------------------------- what is left waiting

  /** Everything that waits in `w` waited in `v`. */
  ghost predicate LeftFrom(v: View, w: View) {
    forall x :: x in w.buffer ==> x in v.buffer
  }

  lemma {:induction false} FlushLeaves(v: View)
    ensures LeftFrom(v, Flush(v))
    decreases |v.buffer|
  {
    hide Judge;
    var i := FirstMove(v.buffer, v.committed);
    if i < |v.buffer| {
      FlushLeaves(Move(v, i));
      assert forall x :: x in Without(v.buffer, i) ==> x in v.buffer;
    }
  }

  lemma {:induction false} TimeoutLeaves(v: View, now: nat, timeout: nat)
    requires forall x :: x in v.buffer ==> x.arrival <= now
    requires now < TWO64
    ensures var w := TimeoutFlush(v, now, timeout);
      LeftFrom(v, w) && (w.buffer != [] ==> now <= w.buffer[0].arrival + timeout)
    decreases |v.buffer|
  {
    hide Flush;
    if v.buffer != [] {
      TooOld(v, now, timeout);
      if Elapsed(now, v.buffer[0].arrival) > timeout {
        var f := Force(v);
        FlushLeaves(f);
        FlushShrinks(f);
        assert forall x :: x in v.buffer[1..] ==> x in v.buffer;
        TimeoutLeaves(Flush(f), now, timeout);
      }
    }
  }

  // ---------------------------------------------------------------- prompt runs

  /** No packet of the run is older than the timeout at any later check. */
  ghost predicate Prompt(steps: seq<Step>, timeout: nat) {
    && (forall i :: 0 <= i < |steps| && !steps[i].Emit? ==> steps[i].now < TWO64)
    && (forall i, j :: 0 <= i <= j < |steps| && steps[i].Deliver? && !steps[j].Emit? ==>
          steps[i].arrival <= steps[j].now <= steps[i].arrival + timeout)
  }

  /** Everything that waits came with a packet of the run. */
  ghost predicate Arrived(steps: seq<Step>, v: View) {
    forall x :: x in v.buffer ==> exists i :: 0 <= i < |steps| && steps[i].Deliver? && steps[i].arrival == x.arrival
  }

  lemma ArrivedYoung(steps: seq<Step>, timeout: nat, v: View)
    requires steps != [] && Prompt(steps, timeout) && Arrived(steps, v) && !steps[|steps| - 1].Emit?
    ensures TimeoutFlush(v, steps[|steps| - 1].now, timeout) == v
  {
    hide TimeoutFlush;
    var now := steps[|steps| - 1].now;
    if v.buffer != [] {
      assert v.buffer[0] in v.buffer;
      var i :| 0 <= i < |steps| && steps[i].Deliver? && steps[i].arrival == v.buffer[0].arrival;
      assert steps[i].arrival <= now <= steps[i].arrival + timeout;
    }
    YoungHeadStays(v, now, timeout);
  }

  lemma ArrivedMore(before: seq<Step>, s: Step, v: View, w: View)
    requires Arrived(before, v)
    requires forall x :: x in w.buffer ==> x in v.buffer || (s.Deliver? && x.arrival == s.arrival)
    ensures Arrived(before + [s], w)
  {
    var steps := before + [s];
    forall x | x in w.buffer
      ensures exists i :: 0 <= i < |steps| && steps[i].Deliver? && steps[i].arrival == x.arrival
    {
      if x in v.buffer {
        var i :| 0 <= i < |before| && before[i].Deliver? && before[i].arrival == x.arrival;
        assert steps[i] == before[i];
      } else {
        assert steps[|before|] == s;
      }
    }
  }

  lemma InsertLeaves(v: View, e: Entry, arrival: nat)
    ensures forall x :: x in Insert(v, e, arrival).buffer ==> x in v.buffer || x.arrival == arrival
  {
  }

  /** One step of a prompt run: the timeout does not strike. */
  lemma PromptStep(u: World, timeout: nat, before: seq<Step>, s: Step)
    requires Square(u.agents) && Possible(u, s) && Arrived(before, u.server) && Prompt(before + [s], timeout)
    ensures Enabled(u, timeout, s) && Arrived(before + [s], Next(u, timeout, s).server)
  {
    hide Flush, TimeoutFlush, Insert, Prompt, Arrived;
    var steps := before + [s];
    assert steps[|steps| - 1] == s;
    if s.Deliver? {
      var w := Insert(u.server, u.emitted[s.key], s.arrival);
      InsertLeaves(u.server, u.emitted[s.key], s.arrival);
      FlushLeaves(w);
      ArrivedMore(before, s, u.server, Flush(w));
      ArrivedYoung(steps, timeout, Flush(w));
    } else {
      ArrivedMore(before, s, u.server, u.server);
      if s.Idle? {
        ArrivedYoung(steps, timeout, u.server);
      }
    }
  }

  /** A run in which no packet is older than the timeout at any later check is one in which the timeout
      does not strike, so everything said of those holds of it. */
  lemma {:induction false} PromptRunsAreTimeoutFree(n: nat, timeout: nat, steps: seq<Step>, w: World)
    requires ReachableAnyhow(n, timeout, steps, w) && Prompt(steps, timeout)
    ensures Reachable(n, timeout, steps, w) && Arrived(steps, w.server)
    decreases |steps|
  {
    hide Possible, Next, Enabled, Arrived;
    if steps == [] {
      NothingArrived(n);
    } else {
      var before, s := steps[..|steps| - 1], steps[|steps| - 1];
      var u :| ReachableAnyhow(n, timeout, before, u) && Square(u.agents) && Possible(u, s) && w == Next(u, timeout, s);
      assert before + [s] == steps;
      PromptPrefix(steps, timeout);
      PromptRunsAreTimeoutFree(n, timeout, before, u);
      PromptStep(u, timeout, before, s);
    }
  }

  lemma NothingArrived(n: nat)
    ensures Arrived([], Initial(n).server)
  {
  }

  lemma PromptPrefix(steps: seq<Step>, timeout: nat)
    requires steps != [] && Prompt(steps, timeout)
    ensures Prompt(steps[..|steps| - 1], timeout)
  {
  }
}
