/** What forced flushes cost: which runs lose entries, and what clocks of unknown nodes do. */
module ForcedFlush {
  import opened VectorClock
  import opened LogEntry
  import opened Server
  import opened ServerSafety

  // ---------------------------------------------------------------- time

  /** The clock of the server never runs backwards: within a round the entry arrives before the
      timeout is checked, and rounds follow one another. Only differences of times matter, so they
      are not bounded. */
  ghost predicate Forward(ticks: seq<Tick>) {
    && (forall i :: 0 <= i < |ticks| && ticks[i].input.Packet? ==> ticks[i].input.arrival <= ticks[i].now)
    && (forall i, j :: 0 <= i < j < |ticks| ==>
          && ticks[i].now <= ticks[j].now
          && (ticks[j].input.Packet? ==> ticks[i].now <= ticks[j].input.arrival))
  }

  function End(ticks: seq<Tick>): nat {
    if ticks == [] then 0 else ticks[|ticks| - 1].now
  }

  /** The entry arrives right after the rounds before it and then waits just too long. */
  function Arrival(ticks: seq<Tick>, e: Entry, timeout: nat): Tick {
    Tick(Packet(e, End(ticks)), End(ticks) + timeout + 1)
  }

  /** Everything parsed is one of `es`. */
  ghost predicate DrawnFrom(ticks: seq<Tick>, es: seq<Entry>) {
    forall i :: 0 <= i < |ticks| && ticks[i].input.Packet? ==> ticks[i].input.entry in es
  }

  lemma ArrivalIsForward(ticks: seq<Tick>, e: Entry, timeout: nat)
    requires Forward(ticks)
    ensures Forward(ticks + [Arrival(ticks, e, timeout)])
  {
    var t := ticks + [Arrival(ticks, e, timeout)];
    assert forall i :: 0 <= i < |ticks| ==> t[i] == ticks[i] && ticks[i].now <= End(ticks);
  }

  // ---------------------------------------------------------------- one entry

  lemma NothingToFlush(v: View, now: nat, timeout: nat)
    requires v.buffer == []
    ensures Flush(v) == v && TimeoutFlush(v, now, timeout) == v
  {
  }

  /** One entry arrives while nothing waits, and the timeout strikes: it is dropped if it is covered
      and written otherwise. */
  lemma OneArrival(v: View, e: Entry, at: nat, timeout: nat)
    requires v.buffer == [] && timeout + 1 < WORD
    ensures Round(v, Packet(e, at), at + timeout + 1, timeout) ==
      if Le(e.vc, v.committed) then v.(dropped := v.dropped + [e])
      else v.(log := v.log + [e], committed := Merged(v.committed, e.vc))
  {
    hide Le, Advance, ToInt;
    var u, now := Insert(v, e, at), at + timeout + 1;
    assert u == v.(buffer := [Waiting(e, at)]);
    JudgeStale(e, v.committed);
    if Judge(e, v.committed).Hold? {
      assert FirstMove(u.buffer[1..], v.committed) == 0;
      assert Flush(u) == u;
      assert Elapsed(now, at) == timeout + 1;
      NothingToFlush(Force(u), now, timeout);
    } else {
      NothingToFlush(Move(u, 0), now, timeout);
    }
  }

  lemma OneMoreArrival(n: nat, timeout: nat, ticks: seq<Tick>, e: Entry)
    requires timeout + 1 < WORD && RunFrom(Start(n), timeout, ticks).buffer == []
    ensures var v := RunFrom(Start(n), timeout, ticks);
      RunFrom(Start(n), timeout, ticks + [Arrival(ticks, e, timeout)]) ==
        if Le(e.vc, v.committed) then v.(dropped := v.dropped + [e])
        else v.(log := v.log + [e], committed := Merged(v.committed, e.vc))
  {
    hide Le, Round;
    RunStep(Start(n), timeout, ticks, Arrival(ticks, e, timeout));
    OneArrival(RunFrom(Start(n), timeout, ticks), e, End(ticks), timeout);
  }

  /** Two entries, one after the other. */
  function Two(a: Entry, b: Entry, timeout: nat): seq<Tick> {
    var first := [Arrival([], a, timeout)];
    first + [Arrival(first, b, timeout)]
  }

  lemma TwoArrivals(n: nat, timeout: nat, a: Entry, b: Entry)
    requires timeout + 1 < WORD && !Le(a.vc, Start(n).committed)
    ensures Forward(Two(a, b, timeout))
    ensures var c := Merged(Start(n).committed, a.vc);
      RunFrom(Start(n), timeout, Two(a, b, timeout)) ==
        if Le(b.vc, c) then View(c, [], [a], [b]) else View(Merged(c, b.vc), [], [a, b], [])
  {
    hide RunFrom, Round, Le, Merged, Arrival, Forward;
    var none: seq<Tick>, t := [], Arrival([], a, timeout);
    assert none + [t] == [t];
    NothingForward();
    ArrivalIsForward(none, a, timeout);
    ArrivalIsForward([t], b, timeout);
    RunStep(Start(n), timeout, none, t);
    OneMoreArrival(n, timeout, none, a);
    OneMoreArrival(n, timeout, [t], b);
  }

  lemma NothingForward()
    ensures Forward([])
  {
  }

  /** The second event of a node arrives first and waits too long; it is forced out, and the first
      event, when it arrives, is dropped though it never was in the file. */
  lemma ForcedFlushLosesEvent(timeout: nat)
    requires timeout + 1 < WORD
    ensures var e1, e2 := Entry("node-01", [1], 0, 1, ""), Entry("node-01", [2], 0, 1, "");
      var ticks := Two(e2, e1, timeout);
      Forward(ticks) && RunFrom(Start(1), timeout, ticks) == View([2], [], [e2], [e1])
  {
    var e1, e2 := Entry("node-01", [1], 0, 1, ""), Entry("node-01", [2], 0, 1, "");
    assert Start(1).committed == [0];
    assert !Le(e2.vc, [0]) by { assert e2.vc[0] > At([0], 0); }
    assert Merged([0], e2.vc) == [2] && Le(e1.vc, [2]);
    TwoArrivals(1, timeout, e2, e1);
  }

  // ---------------------------------------------------------------- clocks of unknown nodes

  /** The file is causally ordered in every run over given entries exactly when no clock among them
      counts a node the server does not know. */
  lemma OrderIffClocksFit(n: nat, timeout: nat, es: seq<Entry>)
    requires timeout + 1 < WORD
    ensures (forall ticks :: Forward(ticks) && DrawnFrom(ticks, es) ==>
              CausallyOrdered(RunFrom(Start(n), timeout, ticks).log)) <==>
      forall e :: e in es ==> Fits(e.vc, n)
  {
    hide Fits, CausallyOrdered, RunFrom, Forward;
    if e :| e in es && !Fits(e.vc, n) {
      StrangerTwice(n, timeout, e);
      assert DrawnFrom(Two(e, e, timeout), es);
    } else {
      forall ticks | DrawnFrom(ticks, es)
        ensures CausallyOrdered(RunFrom(Start(n), timeout, ticks).log)
      {
        EveryRunIsSafe(n, timeout, ticks);
      }
    }
  }

  lemma StrangerIsAbove(e: Clock, c: Clock)
    requires !Fits(e, |c|)
    ensures !Le(e, c)
  {
    var i :| |c| <= i < |e| && e[i] != 0;
    assert e[i] > At(c, i);
  }

  /** Such an entry is never covered, so every copy of it reaches the file. */
  lemma StrangerTwice(n: nat, timeout: nat, e: Entry)
    requires !Fits(e.vc, n) && timeout + 1 < WORD
    ensures var ticks := Two(e, e, timeout);
      Forward(ticks) && !CausallyOrdered(RunFrom(Start(n), timeout, ticks).log)
  {
    hide Fits, RunFrom, Le, Two;
    StrangerIsAbove(e.vc, Start(n).committed);
    StrangerIsAbove(e.vc, Merged(Start(n).committed, e.vc));
    TwoArrivals(n, timeout, e, e);
    assert [e, e][0] == e && [e, e][1] == e;
    LeReflexive(e.vc);
  }

  // ---------------------------------------------------------------- what can be lost

  /** The entry was dropped and is not in the file. */
  ghost predicate Lost(v: View, e: Entry) {
    e in v.dropped && e !in v.log
  }

  ghost predicate NothingLost(v: View) {
    forall e :: !Lost(v, e)
  }

  /** What the entries know together. */
  function Join(es: seq<Entry>, n: nat): (c: Clock)
    ensures |c| == n
  {
    if es == [] then seq(n, _ => 0) else Merged(Join(es[..|es| - 1], n), es[|es| - 1].vc)
  }

  /** All entries but `e`. */
  function Others(es: seq<Entry>, e: Entry): (r: seq<Entry>)
    ensures forall x :: x in r <==> x in es && x != e
  {
    if es == [] then []
    else
      var k := |es| - 1;
      Others(es[..k], e) + (if es[k] == e then [] else [es[k]])
  }

  ghost predicate Bounds(es: seq<Entry>, c: Clock) {
    forall e :: e in es ==> Le(e.vc, c)
  }

  ghost predicate AllFit(es: seq<Entry>, n: nat) {
    forall e :: e in es ==> Fits(e.vc, n)
  }

  lemma {:induction false} JoinIsLeast(es: seq<Entry>, n: nat, c: Clock)
    requires Bounds(es, c)
    ensures Le(Join(es, n), c)
    decreases |es|
  {
    if es != [] {
      var k := |es| - 1;
      assert es == es[..k] + [es[k]];
      JoinIsLeast(es[..k], n, c);
      MergedIsJoin(Join(es[..k], n), es[k].vc);
    }
  }

  lemma {:induction false} JoinBounds(es: seq<Entry>, n: nat)
    requires AllFit(es, n)
    ensures Bounds(es, Join(es, n))
    decreases |es|
  {
    hide Le, Fits;
    if es != [] {
      var k := |es| - 1;
      assert es == es[..k] + [es[k]];
      JoinBounds(es[..k], n);
      MergedIsJoin(Join(es[..k], n), es[k].vc);
      BoundsGrow(es[..k], Join(es[..k], n), Join(es, n));
    }
  }

  lemma BoundsGrow(es: seq<Entry>, c: Clock, d: Clock)
    requires Bounds(es, c) && Le(c, d)
    ensures Bounds(es, d)
  {
    hide Le;
    forall e | e in es
      ensures Le(e.vc, d)
    {
      LeTransitive(e.vc, c, d);
    }
  }

  /** No run over given entries, whenever the timeout strikes in it, loses an entry exactly when none
      of them is covered by what the others know together. */
  lemma LossIffCovered(n: nat, timeout: nat, es: seq<Entry>)
    requires timeout + 1 < WORD && AllFit(es, n)
    ensures (forall ticks :: Forward(ticks) && DrawnFrom(ticks, es) ==>
              NothingLost(RunFrom(Start(n), timeout, ticks))) <==>
      forall e :: e in es ==> !Le(e.vc, Join(Others(es, e), n))
  {
    hide Fits, RunFrom, Le, Lost, Forward, Join;
    if e :| e in es && Le(e.vc, Join(Others(es, e), n)) {
      var ticks := LosingRun(n, timeout, es, e);
    } else {
      forall ticks | DrawnFrom(ticks, es)
        ensures NothingLost(RunFrom(Start(n), timeout, ticks))
      {
        forall e
          ensures !Lost(RunFrom(Start(n), timeout, ticks), e)
        {
          if Lost(RunFrom(Start(n), timeout, ticks), e) {
            LostIsCovered(n, timeout, es, ticks, e);
          }
        }
      }
    }
  }

  /** All others arrive and are forced out or dropped; then comes `e`. */
  lemma LosingRun(n: nat, timeout: nat, es: seq<Entry>, e: Entry) returns (ticks: seq<Tick>)
    requires timeout + 1 < WORD && AllFit(es, n) && e in es && Le(e.vc, Join(Others(es, e), n))
    ensures Forward(ticks) && DrawnFrom(ticks, es) && !NothingLost(RunFrom(Start(n), timeout, ticks))
  {
    hide Fits, RunFrom, Le, Forward, Join;
    var others := Others(es, e);
    var before := Deliver(n, timeout, others);
    var c := RunFrom(Start(n), timeout, before).committed;
    JoinIsLeast(others, n, c);
    LeTransitive(e.vc, Join(others, n), c);
    ticks := before + [Arrival(before, e, timeout)];
    ArrivalIsForward(before, e, timeout);
    OneMoreArrival(n, timeout, before, e);
    var v := RunFrom(Start(n), timeout, ticks);
    assert v.dropped[|v.dropped| - 1] == e;
    assert Lost(v, e);
  }

  lemma {:induction false} Deliver(n: nat, timeout: nat, es: seq<Entry>) returns (ticks: seq<Tick>)
    requires timeout + 1 < WORD && AllFit(es, n)
    ensures Forward(ticks) && DrawnFrom(ticks, es)
    ensures var v := RunFrom(Start(n), timeout, ticks);
      && v.buffer == [] && |v.committed| == n && Bounds(es, v.committed)
      && forall x :: x in v.log ==> x in es
    decreases |es|
  {
    hide Fits, Le;
    if es == [] {
      ticks := [];
    } else {
      hide RunFrom, Merged, Bounds, Forward, DrawnFrom, Arrival;
      var k := |es| - 1;
      assert es == es[..k] + [es[k]];
      var before := Deliver(n, timeout, es[..k]);
      ticks := before + [Arrival(before, es[k], timeout)];
      ArrivalIsForward(before, es[k], timeout);
      OneMoreArrival(n, timeout, before, es[k]);
      OneMoreDrawn(es, before, timeout);
      OneMoreBounded(es, RunFrom(Start(n), timeout, before).committed);
    }
  }

  lemma OneMoreDrawn(es: seq<Entry>, ticks: seq<Tick>, timeout: nat)
    requires es != [] && DrawnFrom(ticks, es[..|es| - 1])
    ensures DrawnFrom(ticks + [Arrival(ticks, es[|es| - 1], timeout)], es)
  {
  }

  lemma OneMoreBounded(es: seq<Entry>, c: Clock)
    requires es != [] && Bounds(es[..|es| - 1], c) && Fits(es[|es| - 1].vc, |c|)
    ensures var x := es[|es| - 1];
      if Le(x.vc, c) then Bounds(es, c) else Bounds(es, Merged(c, x.vc))
  {
    hide Le, Fits;
    var x := es[|es| - 1];
    assert es == es[..|es| - 1] + [x];
    MergedIsJoin(c, x.vc);
    BoundsGrow(es[..|es| - 1], c, Merged(c, x.vc));
  }

  /** The committed clock is the least that covers the file. */
  ghost predicate Least(v: View) {
    forall c: Clock :: (forall x :: x in v.log ==> Le(x.vc, c)) ==> Le(v.committed, c)
  }

  lemma WriteKeepsLeast(v: View, w: View, e: Entry)
    requires Least(v) && w.log == v.log + [e] && w.committed == Merged(v.committed, e.vc)
    ensures Least(w)
  {
    hide Le;
    MergedIsJoin(v.committed, e.vc);
    forall c: Clock | forall x :: x in w.log ==> Le(x.vc, c)
      ensures Le(w.committed, c)
    {
      assert e in w.log && forall x :: x in v.log ==> x in w.log;
    }
  }

  lemma {:induction false} FlushKeepsLeast(v: View)
    requires Least(v)
    ensures Least(Flush(v))
    decreases |v.buffer|
  {
    hide Judge, Least;
    var i := FirstMove(v.buffer, v.committed);
    if i < |v.buffer| {
      if Judge(v.buffer[i].entry, v.committed).Stale? {
        SameLeast(v, Move(v, i));
      } else {
        WriteKeepsLeast(v, Move(v, i), v.buffer[i].entry);
      }
      FlushKeepsLeast(Move(v, i));
    }
  }

  lemma SameLeast(v: View, w: View)
    requires Least(v) && w.log == v.log && w.committed == v.committed
    ensures Least(w)
  {
  }

  lemma {:induction false} TimeoutKeepsLeast(v: View, now: nat, timeout: nat)
    requires Least(v)
    ensures Least(TimeoutFlush(v, now, timeout))
    decreases |v.buffer|
  {
    hide Least, Flush;
    if v.buffer != [] && Elapsed(now, v.buffer[0].arrival) > timeout {
      var f := Force(v);
      WriteKeepsLeast(v, f, v.buffer[0].entry);
      FlushKeepsLeast(f);
      FlushShrinks(f);
      TimeoutKeepsLeast(Flush(f), now, timeout);
    }
  }

  lemma {:induction false} RunIsLeast(n: nat, timeout: nat, ticks: seq<Tick>)
    ensures Least(RunFrom(Start(n), timeout, ticks))
    decreases |ticks|
  {
    if ticks == [] {
    } else {
      hide Least, Flush, TimeoutFlush, Insert;
      var before, t := ticks[..|ticks| - 1], ticks[|ticks| - 1];
      var v := RunFrom(Start(n), timeout, before);
      RunIsLeast(n, timeout, before);
      if t.input.Packet? {
        var w := Insert(v, t.input.entry, t.input.arrival);
        InsertOnlyWaits(v, t.input.entry, t.input.arrival);
        SameLeast(v, w);
        FlushKeepsLeast(w);
        TimeoutKeepsLeast(Flush(w), t.now, timeout);
      } else {
        TimeoutKeepsLeast(v, t.now, timeout);
      }
    }
  }

  lemma InsertOnlyWaits(v: View, e: Entry, now: nat)
    ensures Insert(v, e, now).log == v.log && Insert(v, e, now).committed == v.committed
  {
  }

  lemma {:induction false} ParsedIsDrawn(ticks: seq<Tick>, es: seq<Entry>)
    requires DrawnFrom(ticks, es)
    ensures forall e :: e in Parsed(ticks) ==> e in es
    decreases |ticks|
  {
    if ticks != [] {
      ParsedIsDrawn(ticks[..|ticks| - 1], es);
    }
  }

  /** A dropped entry that is not in the file is covered by the others. */
  lemma LostIsCovered(n: nat, timeout: nat, es: seq<Entry>, ticks: seq<Tick>, e: Entry)
    requires DrawnFrom(ticks, es) && AllFit(es, n) && Lost(RunFrom(Start(n), timeout, ticks), e)
    ensures e in es && Le(e.vc, Join(Others(es, e), n))
  {
    hide Fits, RunFrom, Le, CausallyOrdered, Settled, Sized, EntriesOf, Join;
    EveryRunIsSafe(n, timeout, ticks);
    RunIsLeast(n, timeout, ticks);
    ParsedIsDrawn(ticks, es);
    var v := RunFrom(Start(n), timeout, ticks);
    var c := Join(Others(es, e), n);
    HeldHas(v, e);
    JoinBounds(Others(es, e), n);
    forall x | x in v.log
      ensures Le(x.vc, c)
    {
      HeldHas(v, x);
    }
    LeTransitive(e.vc, v.committed, c);
  }

  lemma HeldHas(v: View, e: Entry)
    requires e in v.log || e in v.dropped
    ensures e in Held(v)
  {
    hide EntriesOf;
  }
}
