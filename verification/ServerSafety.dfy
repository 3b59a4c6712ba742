/** What the server keeps in every run, whatever arrives and whenever the timeout strikes. */
module ServerSafety {
  import opened VectorClock
  import opened LogEntry
  import opened Server

  function EntriesOf(buffer: seq<Waiting>): seq<Entry> {
    if buffer == [] then [] else [buffer[0].entry] + EntriesOf(buffer[1..])
  }

  lemma {:induction false} EntriesAt(b: seq<Waiting>)
    ensures |EntriesOf(b)| == |b| && forall i :: 0 <= i < |b| ==> EntriesOf(b)[i] == b[i].entry
    decreases |b|
  {
    if b != [] {
      EntriesAt(b[1..]);
    }
  }

  lemma {:induction false} EntriesOfConcat(a: seq<Waiting>, b: seq<Waiting>)
    ensures EntriesOf(a + b) == EntriesOf(a) + EntriesOf(b)
    decreases |a|
  {
    if a == [] {
      assert a + b == b;
    } else {
      assert (a + b)[0] == a[0] && (a + b)[1..] == a[1..] + b;
      EntriesOfConcat(a[1..], b);
    }
  }

  lemma {:induction false} EntriesOfSplit(b: seq<Waiting>, i: nat)
    requires i < |b|
    ensures multiset(EntriesOf(b)) == multiset(EntriesOf(Without(b, i))) + multiset{b[i].entry}
  {
    assert b == b[..i] + ([b[i]] + b[i + 1..]);
    EntriesOfConcat(b[..i], [b[i]] + b[i + 1..]);
    EntriesOfConcat([b[i]], b[i + 1..]);
    EntriesOfConcat(b[..i], b[i + 1..]);
    assert EntriesOf([b[i]]) == [b[i].entry];
  }

  lemma EntriesOfMember(b: seq<Waiting>, i: nat)
    requires i < |b|
    ensures b[i].entry in multiset(EntriesOf(b))
  {
    EntriesOfSplit(b, i);
  }

  lemma {:induction false} EntriesOfFrom(b: seq<Waiting>, e: Entry)
    requires e in multiset(EntriesOf(b))
    ensures exists i :: 0 <= i < |b| && b[i].entry == e
    decreases |b|
  {
    if b != [] && b[0].entry != e {
      assert EntriesOf(b) == [b[0].entry] + EntriesOf(b[1..]);
      EntriesOfFrom(b[1..], e);
      var i :| 0 <= i < |b[1..]| && b[1..][i].entry == e;
      assert b[i + 1].entry == e;
    } else if b != [] {
      assert b[0].entry == e;
    }
  }

  /** Everything the server has of what it parsed. */
  ghost function Held(v: View): multiset<Entry> {
    multiset(v.log) + multiset(v.dropped) + multiset(EntriesOf(v.buffer))
  }

  /** No later entry of the file happens before, or equals, an earlier one. */
  ghost predicate CausallyOrdered(log: seq<Entry>) {
    forall i, j :: 0 <= i < j < |log| ==> !Le(log[j].vc, log[i].vc)
  }

  /** The committed clock dominates everything written or dropped. */
  ghost predicate Covered(v: View) {
    && (forall i :: 0 <= i < |v.log| ==> Le(v.log[i].vc, v.committed))
    && (forall i :: 0 <= i < |v.dropped| ==> Le(v.dropped[i].vc, v.committed))
  }

  /** Clocks count only nodes the server knows. */
  ghost predicate Sized(v: View) {
    forall i :: 0 <= i < |v.buffer| ==> Fits(v.buffer[i].entry.vc, |v.committed|)
  }

  ghost predicate Safe(v: View) {
    Sized(v) && Covered(v) && CausallyOrdered(v.log)
  }

  /** Nothing in the buffer is stale or exactly one step ahead. */
  ghost predicate Settled(v: View) {
    forall i :: 0 <= i < |v.buffer| ==> Judge(v.buffer[i].entry, v.committed).Hold?
  }

  /** From `v` to `w`: nothing is lost or made up, the file is only appended to, and the
      committed clock only grows. */
  ghost predicate Progress(v: View, w: View) {
    && Held(w) == Held(v) && |w.committed| == |v.committed|
    && v.log <= w.log && v.dropped <= w.dropped && Le(v.committed, w.committed)
  }

  lemma ProgressTransitive(u: View, v: View, w: View)
    requires Progress(u, v) && Progress(v, w)
    ensures Progress(u, w)
  {
    LeTransitive(u.committed, v.committed, w.committed);
  }

  ghost function Write(v: View, i: nat): View
    requires i < |v.buffer|
  {
    var e := v.buffer[i].entry;
    v.(buffer := Without(v.buffer, i), log := v.log + [e], committed := Merged(v.committed, e.vc))
  }

  ghost function Drop(v: View, i: nat): View
    requires i < |v.buffer|
  {
    v.(buffer := Without(v.buffer, i), dropped := v.dropped + [v.buffer[i].entry])
  }

  /** Taking an entry out of the waiting list loses nothing. */
  lemma MoveProgress(v: View, i: nat)
    requires i < |v.buffer|
    ensures Progress(v, Write(v, i)) && Progress(v, Drop(v, i))
  {
    hide Le, EntriesOf;
    MergedIsJoin(v.committed, v.buffer[i].entry.vc);
    LeReflexive(v.committed);
    EntriesOfSplit(v.buffer, i);
  }

  /** Writing an entry that the committed clock does not cover. */
  lemma WriteIsSafe(v: View, i: nat)
    requires Safe(v) && i < |v.buffer| && !Le(v.buffer[i].entry.vc, v.committed)
    ensures Safe(Write(v, i)) && Progress(v, Write(v, i))
  {
    MoveProgress(v, i);
    hide Le, Fits, EntriesOf, Progress;
    var e := v.buffer[i].entry;
    var c := Merged(v.committed, e.vc);
    MergedIsJoin(v.committed, e.vc);
    forall d: Clock | Le(d, v.committed)
      ensures Le(d, c)
    {
      LeTransitive(d, v.committed, c);
    }
    WriteKeepsOrder(v.log, e, v.committed);
  }

  lemma WriteKeepsOrder(log: seq<Entry>, e: Entry, c: Clock)
    requires CausallyOrdered(log) && !Le(e.vc, c)
    requires forall i :: 0 <= i < |log| ==> Le(log[i].vc, c)
    ensures CausallyOrdered(log + [e])
  {
    hide Le;
    forall k | 0 <= k < |log|
      ensures !Le(e.vc, log[k].vc)
    {
      if Le(e.vc, log[k].vc) {
        LeTransitive(e.vc, log[k].vc, c);
      }
    }
  }

  lemma DropIsSafe(v: View, i: nat)
    requires Safe(v) && i < |v.buffer| && Le(v.buffer[i].entry.vc, v.committed)
    ensures Safe(Drop(v, i)) && Progress(v, Drop(v, i))
  {
    MoveProgress(v, i);
    hide Le, Fits, CausallyOrdered, EntriesOf, Progress;
  }

  lemma LeReflexive(c: Clock)
    ensures Le(c, c)
  {
  }

  /** Whatever the entries, flushing loses nothing and ends with nothing that could move. */
  lemma {:induction false} FlushProgress(v: View)
    ensures Progress(v, Flush(v)) && Settled(Flush(v))
    decreases |v.buffer|
  {
    hide Judge, Progress;
    var i := FirstMove(v.buffer, v.committed);
    if i < |v.buffer| {
      MoveProgress(v, i);
      FlushProgress(Move(v, i));
      ProgressTransitive(v, Move(v, i), Flush(v));
    } else {
      ProgressReflexive(v);
    }
  }

  lemma {:induction false} FlushIsSafe(v: View)
    requires Safe(v)
    ensures Safe(Flush(v)) && Progress(v, Flush(v)) && Settled(Flush(v))
    decreases |v.buffer|
  {
    FlushProgress(v);
    hide Judge, Le, Safe, Settled, Progress;
    var i := FirstMove(v.buffer, v.committed);
    if i < |v.buffer| {
      JudgeStale(v.buffer[i].entry, v.committed);
      if Judge(v.buffer[i].entry, v.committed).Stale? {
        DropIsSafe(v, i);
      } else {
        WriteIsSafe(v, i);
      }
      FlushIsSafe(Move(v, i));
    }
  }

  lemma JudgeStale(e: Entry, c: Clock)
    ensures Judge(e, c).Stale? <==> Le(e.vc, c)
  {
  }

  lemma ProgressReflexive(v: View)
    ensures Progress(v, v)
  {
  }

  lemma {:induction false} TimeoutProgress(v: View, now: nat, timeout: nat)
    requires Settled(v)
    ensures Progress(v, TimeoutFlush(v, now, timeout)) && Settled(TimeoutFlush(v, now, timeout))
    decreases |v.buffer|
  {
    hide Judge, Progress, Settled, Flush;
    if v.buffer == [] || Elapsed(now, v.buffer[0].arrival) <= timeout {
      ProgressReflexive(v);
    } else {
      var f := Force(v);
      ForceIsWrite(v);
      MoveProgress(v, 0);
      FlushProgress(f);
      FlushShrinks(f);
      TimeoutProgress(Flush(f), now, timeout);
      ProgressTransitive(v, f, Flush(f));
      ProgressTransitive(v, Flush(f), TimeoutFlush(v, now, timeout));
    }
  }

  lemma ForceIsWrite(v: View)
    requires v.buffer != []
    ensures Force(v) == Write(v, 0)
  {
    assert Without(v.buffer, 0) == v.buffer[1..];
  }

  /** The timeout only ever forces out entries the committed clock does not cover. */
  lemma {:induction false} TimeoutIsSafe(v: View, now: nat, timeout: nat)
    requires Safe(v) && Settled(v)
    ensures var w := TimeoutFlush(v, now, timeout);
            Safe(w) && Settled(w) && Progress(v, w)
    decreases |v.buffer|
  {
    TimeoutProgress(v, now, timeout);
    if v.buffer != [] && Elapsed(now, v.buffer[0].arrival) > timeout {
      JudgeStale(v.buffer[0].entry, v.committed);
      hide Judge, Le, Safe, Settled, Progress, Flush;
      ForceIsWrite(v);
      WriteIsSafe(v, 0);
      var f := Force(v);
      FlushIsSafe(f);
      FlushShrinks(f);
      TimeoutIsSafe(Flush(f), now, timeout);
    }
  }

  /** Receiving adds the entry to what is held and changes nothing else. */
  lemma InsertHolds(v: View, e: Entry, arrival: nat)
    ensures var w := Insert(v, e, arrival);
            && Held(w) == Held(v) + multiset{e}
            && multiset(EntriesOf(w.buffer)) == multiset(EntriesOf(v.buffer)) + multiset{e}
            && w.log == v.log && w.dropped == v.dropped && w.committed == v.committed
  {
    hide EntriesOf, InsertAt;
    var k := InsertAt(v.buffer, e);
    assert k <= |v.buffer|;
    var b := v.buffer[..k] + [Waiting(e, arrival)] + v.buffer[k..];
    EntriesOfSplit(b, k);
    assert Without(b, k) == v.buffer;
  }

  lemma InsertIsSafe(v: View, e: Entry, arrival: nat)
    requires Safe(v) && Fits(e.vc, |v.committed|)
    ensures Safe(Insert(v, e, arrival))
  {
    InsertHolds(v, e, arrival);
    hide Le, Fits, Covered, CausallyOrdered, Held, EntriesOf, InsertAt;
    var w, k := Insert(v, e, arrival), InsertAt(v.buffer, e);
    forall i | 0 <= i < |w.buffer|
      ensures Fits(w.buffer[i].entry.vc, |v.committed|)
    {
      assert w.buffer[i] == if i < k then v.buffer[i] else if i == k then Waiting(e, arrival) else v.buffer[i - 1];
    }
    CoveredSame(v, w);
  }

  lemma CoveredSame(v: View, w: View)
    requires Covered(v) && w.log == v.log && w.dropped == v.dropped && w.committed == v.committed
    ensures Covered(w)
  {
  }

  // ---------------------------------------------------------------- runs

  datatype Tick = Tick(input: Input, now: nat)

  ghost function RunFrom(v: View, timeout: nat, ticks: seq<Tick>): View {
    if ticks == [] then v
    else
      var last := ticks[|ticks| - 1];
      Round(RunFrom(v, timeout, ticks[..|ticks| - 1]), last.input, last.now, timeout)
  }

  lemma RunStep(v: View, timeout: nat, ticks: seq<Tick>, t: Tick)
    ensures RunFrom(v, timeout, []) == v
    ensures RunFrom(v, timeout, ticks + [t]) == Round(RunFrom(v, timeout, ticks), t.input, t.now, timeout)
  {
    hide Round;
    assert (ticks + [t])[..|ticks|] == ticks;
  }

  /** All entries that were parsed in a run. */
  ghost function Parsed(ticks: seq<Tick>): multiset<Entry> {
    if ticks == [] then multiset{}
    else
      var last := ticks[|ticks| - 1];
      Parsed(ticks[..|ticks| - 1]) + (if last.input.Packet? then multiset{last.input.entry} else multiset{})
  }

  ghost predicate SizedInput(n: nat, ticks: seq<Tick>) {
    forall i :: 0 <= i < |ticks| && ticks[i].input.Packet? ==> Fits(ticks[i].input.entry.vc, n)
  }

  ghost function Start(n: nat): View {
    View(seq(n, _ => 0), [], [], [])
  }

  /** One round of the server loop, whatever arrives in it. */
  lemma RoundProgress(v: View, t: Tick, timeout: nat)
    requires Settled(v)
    ensures var w := Round(v, t.input, t.now, timeout);
      && Settled(w) && |w.committed| == |v.committed|
      && Held(w) == Held(v) + (if t.input.Packet? then multiset{t.input.entry} else multiset{})
      && v.log <= w.log && Le(v.committed, w.committed)
  {
    hide Judge, Le, Held, Flush, Insert, TimeoutFlush, Settled;
    if t.input.Packet? {
      InsertHolds(v, t.input.entry, t.input.arrival);
      var w := Insert(v, t.input.entry, t.input.arrival);
      FlushProgress(w);
      TimeoutProgress(Flush(w), t.now, timeout);
      ProgressTransitive(w, Flush(w), Round(v, t.input, t.now, timeout));
    } else {
      TimeoutProgress(v, t.now, timeout);
    }
  }

  lemma RoundIsSafe(v: View, t: Tick, timeout: nat)
    requires Safe(v) && Settled(v) && (t.input.Packet? ==> Fits(t.input.entry.vc, |v.committed|))
    ensures Safe(Round(v, t.input, t.now, timeout))
  {
    hide Judge, Safe, Fits, Flush, Insert, TimeoutFlush, Settled, Progress;
    if t.input.Packet? {
      InsertIsSafe(v, t.input.entry, t.input.arrival);
      var w := Insert(v, t.input.entry, t.input.arrival);
      FlushIsSafe(w);
      TimeoutIsSafe(Flush(w), t.now, timeout);
    } else {
      TimeoutIsSafe(v, t.now, timeout);
    }
  }

  /** In every run, including forced flushes, what was parsed is written, dropped or still waiting,
      and nothing that waits could move. If no clock counts a node the server does not know, the
      file is causally ordered and dominated by the committed clock. */
  lemma {:induction false} EveryRunIsSafe(n: nat, timeout: nat, ticks: seq<Tick>)
    ensures var v := RunFrom(Start(n), timeout, ticks);
      && Settled(v) && |v.committed| == n
      && Held(v) == Parsed(ticks)
      && |v.log| + |v.dropped| + |v.buffer| == |Parsed(ticks)|
      && (SizedInput(n, ticks) ==> CausallyOrdered(v.log) && Covered(v) && Sized(v))
    decreases |ticks|
  {
    var v := RunFrom(Start(n), timeout, ticks);
    if ticks != [] {
      var before, t := ticks[..|ticks| - 1], ticks[|ticks| - 1];
      EveryRunIsSafe(n, timeout, before);
      RoundProgress(RunFrom(Start(n), timeout, before), t, timeout);
      if SizedInput(n, ticks) {
        RoundIsSafe(RunFrom(Start(n), timeout, before), t, timeout);
      }
    }
    EntriesAt(v.buffer);
  }

  /** Later rounds only append to the file and only raise the committed clock. */
  lemma {:induction false} RunsGrow(n: nat, timeout: nat, ticks: seq<Tick>, k: nat)
    requires k <= |ticks|
    ensures var u, v := RunFrom(Start(n), timeout, ticks[..k]), RunFrom(Start(n), timeout, ticks);
      u.log <= v.log && Le(u.committed, v.committed)
    decreases |ticks|
  {
    hide Le, Held;
    var v := RunFrom(Start(n), timeout, ticks);
    if k == |ticks| {
      assert ticks[..k] == ticks;
      LeReflexive(v.committed);
    } else {
      var before := ticks[..|ticks| - 1];
      assert before[..k] == ticks[..k];
      RunsGrow(n, timeout, before, k);
      EveryRunIsSafe(n, timeout, before);
      var u, m := RunFrom(Start(n), timeout, ticks[..k]), RunFrom(Start(n), timeout, before);
      RoundProgress(m, ticks[|ticks| - 1], timeout);
      LeTransitive(u.committed, m.committed, v.committed);
    }
  }

  // ---------------------------------------------------------------- the 32-bit step count

  lemma {:induction false} AdvanceZero(e: Clock, c: Clock, n: nat)
    requires n <= |c|
    ensures AdvanceUpTo(e, c, n) == 0 <==> forall i :: 0 <= i < n ==> At(e, i) <= c[i]
    decreases n
  {
    if n > 0 {
      AdvanceZero(e, c, n - 1);
    }
  }

  /** The server writes an entry as "one step ahead" exactly when its distance is 1 modulo 2^32,
      so the test is exact for distances up to 2^32. */
  lemma StepTestIsModular(e: Entry, c: Clock)
    requires Fits(e.vc, |c|)
    ensures Judge(e, c).Ready? <==> Advance(e.vc, c) % 0x1_0000_0000 == 1
    ensures Advance(e.vc, c) <= 0x1_0000_0000 ==> (Judge(e, c).Ready? <==> Advance(e.vc, c) == 1)
  {
    AdvanceZero(e.vc, c, |c|);
    assert Le(e.vc, c) <==> forall i :: 0 <= i < |c| ==> At(e.vc, i) <= c[i];
  }

  /** A distance of 1 is one component ahead by one. */
  lemma {:induction false} OneStep(e: Clock, c: Clock, n: nat, p: nat)
    requires n <= |c| && p < n && At(e, p) > c[p]
    ensures AdvanceUpTo(e, c, n) >= 1
    ensures AdvanceUpTo(e, c, n) == 1 <==>
      At(e, p) == c[p] + 1 && forall i :: 0 <= i < n && i != p ==> At(e, i) <= c[i]
    decreases n
  {
    if p == n - 1 {
      AdvanceZero(e, c, n - 1);
    } else {
      OneStep(e, c, n - 1, p);
    }
  }

  ghost predicate AheadAt(e: Clock, c: Clock, i: int) {
    0 <= i < |c| && At(e, i) == c[i] + 1 && forall j :: 0 <= j < |c| && j != i ==> At(e, j) <= c[j]
  }

  /** An entry is ready exactly when its distance is one modulo 2^32 and it is not stale; it is so
      when one component is one ahead and no other is ahead. */
  lemma ReadyIs(e: Entry, c: Clock)
    ensures Judge(e, c).Ready? <==> !Le(e.vc, c) && Advance(e.vc, c) % 0x1_0000_0000 == 1
    ensures Advance(e.vc, c) == 1 <==> exists i :: AheadAt(e.vc, c, i)
    ensures (exists i :: AheadAt(e.vc, c, i)) ==> Judge(e, c).Ready?
  {
    if i :| 0 <= i < |c| && At(e.vc, i) > c[i] {
      OneStep(e.vc, c, |c|, i);
      assert Advance(e.vc, c) == 1 <==> AheadAt(e.vc, c, i);
      assert !Le(e.vc, c);
    } else {
      AdvanceZero(e.vc, c, |c|);
    }
  }

  /** Past that the test fails: an entry 2^32 + 1 steps ahead is taken for the next one. */
  lemma StepTestWraps()
    ensures var e := Entry("node-01", [0x1_0000_0001], 0, 1, "");
      Judge(e, [0]).Ready? && Advance(e.vc, [0]) == 0x1_0000_0001
  {
    var e := Entry("node-01", [0x1_0000_0001], 0, 1, "");
    assert AdvanceUpTo(e.vc, [0], 0) == 0;
    assert !Le(e.vc, [0]) by { assert e.vc[0] > At([0], 0); }
  }
}
