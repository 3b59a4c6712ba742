/** Which events a run loses, with the timeout free to strike at any time. */
module Losses {
  import opened VectorClock
  import opened LogEntry
  import opened Server
  import opened ServerSafety
  import opened ForcedFlush
  import opened Agent
  import opened Protocol

  // ---------------------------------------------------------------- what the server keeps

  /** What remains of the server's invariant when entries may be forced out: the file need no longer
      hold everything the committed clock counts, but the clock counts only what the file knows. */
  ghost predicate Knows(w: World, v: View) {
    && |v.committed| == |w.agents| && Safe(v) && Cut(w.emitted, v.committed)
    && OnlyReceived(w, v) && Accounted(w, v) && Least(v)
  }

  ghost predicate Sound(w: World) {
    AgentsOk(w) && Knows(w, w.server) && Settled(w.server)
  }

  /** Two cuts together are a cut. */
  lemma MergedCut(m: map<Key, Entry>, a: Clock, b: Clock)
    requires Cut(m, a) && Cut(m, b) && |a| == |b|
    ensures Cut(m, Merged(a, b))
  {
    hide Le, Vc;
    var c := Merged(a, b);
    MergedIsJoin(a, b);
    assert Le(b, c) by { assert Fits(b, |a|); }
    forall j | 0 <= j < |c| && c[j] > 0
      ensures Has(m, Key(j, c[j])) && Le(Vc(m, Key(j, c[j])), c)
    {
      if c[j] == a[j] {
        LeTransitive(Vc(m, Key(j, a[j])), a, c);
      } else {
        LeTransitive(Vc(m, Key(j, b[j])), b, c);
      }
    }
  }

  /** Any write of an entry that is not covered, forced or not. */
  lemma WriteKnows(w: World, v: View, i: nat)
    requires AgentsOk(w) && Knows(w, v) && i < |v.buffer| && !Le(v.buffer[i].entry.vc, v.committed)
    ensures Knows(w, Write(v, i))
  {
    hide OwnOrder, Acyclic, Numbered, Cut, EntriesOf, Safe, Le, Least, Merged;
    var e, v' := v.buffer[i].entry, Write(v, i);
    EntriesOfMember(v.buffer, i);
    assert InBuffer(v, e);
    var key :| key in w.received && Has(w.emitted, key) && w.emitted[key] == e;
    MergedCut(w.emitted, v.committed, e.vc);
    WriteIsSafe(v, i);
    WriteKeepsLeast(v, v', e);
    EntriesOfSplit(v.buffer, i);
    MergedIsJoin(v.committed, e.vc);
    assert Le(e.vc, v'.committed) by { assert Fits(e.vc, |v.committed|); }
    CommitAccounts(w, v, v', e);
    assert OnlyReceived(w, v') by { assert forall x :: x in v'.log ==> x in v.log || x == e; }
  }

  lemma DropKnows(w: World, v: View, i: nat)
    requires AgentsOk(w) && Knows(w, v) && i < |v.buffer| && Le(v.buffer[i].entry.vc, v.committed)
    ensures Knows(w, Drop(v, i))
  {
    hide AgentsOk, Cut, EntriesOf, Safe, Le, Least;
    var e, v' := v.buffer[i].entry, Drop(v, i);
    EntriesOfMember(v.buffer, i);
    assert InBuffer(v, e);
    DropIsSafe(v, i);
    SameLeast(v, v');
    EntriesOfSplit(v.buffer, i);
    LeReflexive(v.committed);
    CommitAccounts(w, v, v', e);
  }

  lemma {:induction false} FlushKnows(w: World, v: View)
    requires AgentsOk(w) && Knows(w, v)
    ensures Knows(w, Flush(v)) && Settled(Flush(v))
    decreases |v.buffer|
  {
    FlushProgress(v);
    hide AgentsOk, Judge, Knows, Settled, Progress;
    var i := FirstMove(v.buffer, v.committed);
    if i < |v.buffer| {
      JudgeStale(v.buffer[i].entry, v.committed);
      if Judge(v.buffer[i].entry, v.committed).Stale? {
        DropKnows(w, v, i);
      } else {
        WriteKnows(w, v, i);
      }
      FlushKnows(w, Move(v, i));
    }
  }

  lemma {:induction false} TimeoutKnows(w: World, v: View, now: nat, timeout: nat)
    requires AgentsOk(w) && Knows(w, v) && Settled(v)
    ensures Knows(w, TimeoutFlush(v, now, timeout)) && Settled(TimeoutFlush(v, now, timeout))
    decreases |v.buffer|
  {
    if v.buffer != [] && Elapsed(now, v.buffer[0].arrival) > timeout {
      JudgeStale(v.buffer[0].entry, v.committed);
      hide AgentsOk, Judge, Knows, Settled, Flush, Le;
      ForceIsWrite(v);
      WriteKnows(w, v, 0);
      FlushKnows(w, Force(v));
      FlushShrinks(Force(v));
      TimeoutKnows(w, Flush(Force(v)), now, timeout);
    }
  }

  lemma ArrivalKnows(w: World, v: View, key: Key, arrival: nat)
    requires AgentsOk(w) && Knows(w, v) && Has(w.emitted, key)
    ensures Knows(w.(received := w.received + {key}), Insert(v, w.emitted[key], arrival))
  {
    hide OwnOrder, Acyclic, Numbered, Cut, Le, EntriesOf, Safe, Least, OnlyReceived, Accounted, Insert;
    var e := w.emitted[key];
    InsertHolds(v, e, arrival);
    InsertIsSafe(v, e, arrival);
    SameLeast(v, Insert(v, e, arrival));
    ArrivalIsAccounted(w, v, Insert(v, e, arrival), key);
  }

  lemma EmitKnows(w: World, timeout: nat, s: Step)
    requires AgentsOk(w) && Knows(w, w.server) && s.Emit? && Possible(w, s)
    ensures Knows(Next(w, timeout, s), w.server)
  {
    EmitShape(w, timeout, s);
    hide AgentsOk, OnlyReceived, Accounted, Safe, Least, Heard, Stamp, Sum, Le, Cut, Possible;
    var w', v := Next(w, timeout, s), w.server;
    var added := Key(s.node, s.entry.vc[s.node]);
    CutGrows(w.emitted, w'.emitted, v.committed);
    NewIsNotReceived(w, w', added, v);
    NewIsNotOwed(w, w', added, v);
  }

  /** Every step keeps the invariant, whether or not the timeout strikes in it. */
  lemma AnyStepKeeps(w: World, timeout: nat, s: Step)
    requires Sound(w) && Possible(w, s)
    ensures Sound(Next(w, timeout, s))
  {
    assert Square(w.agents);
    hide AgentsOk, Knows, Settled, Flush, TimeoutFlush, Insert, Heard, Stamp;
    StepKeepsAgents(w, timeout, s);
    match s
    case Emit(_, _, _) =>
      EmitKnows(w, timeout, s);
    case Deliver(key, arrival, now) =>
      ArrivalKnows(w, w.server, key, arrival);
      var u, v := w.(received := w.received + {key}), Insert(w.server, w.emitted[key], arrival);
      AgentsOnly(w, u);
      FlushKnows(u, v);
      TimeoutKnows(u, Flush(v), now, timeout);
      KnowsOnly(u, Next(w, timeout, s), Next(w, timeout, s).server);
    case Idle(_, now) =>
      TimeoutKnows(w, w.server, now, timeout);
      KnowsOnly(w, Next(w, timeout, s), Next(w, timeout, s).server);
  }

  lemma KnowsOnly(w: World, u: World, v: View)
    requires Knows(w, v) && u.agents == w.agents && u.emitted == w.emitted && u.received == w.received
    ensures Knows(u, v)
  {
  }

  /** `w` is reached from the start by any possible steps. */
  ghost predicate ReachableAnyhow(n: nat, timeout: nat, steps: seq<Step>, w: World)
    decreases |steps|
  {
    if steps == [] then w == Initial(n)
    else exists u :: ReachableAnyhow(n, timeout, steps[..|steps| - 1], u) && Square(u.agents)
                     && Possible(u, steps[|steps| - 1]) && w == Next(u, timeout, steps[|steps| - 1])
  }

  lemma {:induction false} EveryRunIsSound(n: nat, timeout: nat, steps: seq<Step>, w: World)
    requires ReachableAnyhow(n, timeout, steps, w)
    ensures Sound(w)
    decreases |steps|
  {
    hide Possible, Next, Sound;
    if steps == [] {
      InitialSound(n);
    } else {
      var before, s := steps[..|steps| - 1], steps[|steps| - 1];
      var u :| ReachableAnyhow(n, timeout, before, u) && Square(u.agents) && Possible(u, s) && w == Next(u, timeout, s);
      EveryRunIsSound(n, timeout, before, u);
      AnyStepKeeps(u, timeout, s);
    }
  }

  lemma InitialSound(n: nat)
    ensures Sound(Initial(n))
  {
    InitialOk(n);
  }

  // ---------------------------------------------------------------- what is lost

  /** The event arrived, but is neither in the file nor waiting. */
  ghost predicate LostEvent(w: World, key: Key) {
    && key in w.received && Has(w.emitted, key)
    && w.emitted[key] !in w.server.log && !InBuffer(w.server, w.emitted[key])
  }

  /** Some event in the file knows this one. */
  ghost predicate KnownToFile(w: World, key: Key)
    requires Has(w.emitted, key)
  {
    exists f :: f in WrittenKeys(w) && Le(Vc(w.emitted, key), Vc(w.emitted, f))
  }

  /** What the committed clock covers, some event in the file knows. */
  lemma CoveredIsKnown(w: World, key: Key)
    requires Sound(w) && Has(w.emitted, key) && Le(Vc(w.emitted, key), w.server.committed)
    ensures KnownToFile(w, key)
  {
    hide OwnOrder, Acyclic, Accounted, CausallyOrdered, Sized, EntriesOf, Settled;
    assert key.count >= 1;
    var j, c := key.node, w.server.committed;
    CountedIsBelow(w, key, c);
    if forall e :: e in w.server.log ==> At(e.vc, j) < key.count {
      LowerClock(w.server, j, key.count);
    } else {
      var e :| e in w.server.log && At(e.vc, j) >= key.count;
      assert IsReceived(w, e);
      var f :| f in w.received && Has(w.emitted, f) && w.emitted[f] == e;
      CountedIsBelow(w, key, Vc(w.emitted, f));
      assert f in WrittenKeys(w);
    }
  }

  /** A component no written entry reaches is below that in the committed clock. */
  lemma LowerClock(v: View, j: nat, k: nat)
    requires Covered(v) && Least(v) && j < |v.committed| && k > 0
    requires forall e :: e in v.log ==> At(e.vc, j) < k
    ensures v.committed[j] < k
  {
    var c := v.committed[j := if v.committed[j] < k then v.committed[j] else k - 1];
    forall e | e in v.log
      ensures Le(e.vc, c)
    {
      assert Le(e.vc, v.committed);
      forall i | 0 <= i < |e.vc|
        ensures e.vc[i] <= At(c, i)
      {
        assert e.vc[i] <= At(v.committed, i);
      }
    }
    assert Le(v.committed, c);
    assert v.committed[j] <= At(c, j);
  }

  /** In every run, whenever the timeout strikes: an event that arrived is lost exactly when it is
      not in the file and an event that knows it is. */
  lemma LostIffKnown(n: nat, timeout: nat, steps: seq<Step>, w: World, key: Key)
    requires ReachableAnyhow(n, timeout, steps, w) && key in w.received
    ensures Has(w.emitted, key)
    ensures LostEvent(w, key) <==> key !in WrittenKeys(w) && KnownToFile(w, key)
  {
    EveryRunIsSound(n, timeout, steps, w);
    hide ReachableAnyhow, AgentsOk, CausallyOrdered, Sized, Cut, Le, EntriesOf, Judge, Least;
    assert Has(w.emitted, key);
    var e, v := w.emitted[key], w.server;
    if LostEvent(w, key) {
      CoveredIsKnown(w, key);
    }
    if KnownToFile(w, key) {
      var f :| f in WrittenKeys(w) && Le(Vc(w.emitted, key), Vc(w.emitted, f));
      LeTransitive(e.vc, Vc(w.emitted, f), v.committed);
      JudgeStale(e, v.committed);
      if InBuffer(v, e) {
        SettledHolds(v, e);
      }
    }
  }

  /** Only a forced write can cover an event that is not in the file yet: writing an entry that was
      found ready covers nothing new but that entry. */
  lemma ReadyCoversItself(w: World, v: View, key: Key, other: Key)
    requires AgentsOk(w) && |v.committed| == |w.agents| && Cut(w.emitted, v.committed)
    requires Has(w.emitted, key) && Has(w.emitted, other) && Judge(w.emitted[key], v.committed).Ready?
    requires Le(Vc(w.emitted, other), Merged(v.committed, Vc(w.emitted, key)))
    ensures Le(Vc(w.emitted, other), v.committed) || other == key
  {
    hide OwnOrder, Acyclic, Numbered, Judge, Le;
    var c := v.committed;
    ReadyIsNext(w, v, key);
    CommitKeepsCut(w, c, key);
    CountedIsBelow(w, other, c);
    CountedIsBelow(w, other, c[key.node := key.count]);
  }

  /** A lost event stays lost. */
  lemma LostStaysLost(w: World, timeout: nat, s: Step, key: Key)
    requires Sound(w) && Possible(w, s) && LostEvent(w, key)
    ensures LostEvent(Next(w, timeout, s), key)
  {
    AnyStepKeeps(w, timeout, s);
    StepAppends(w, timeout, s);
    LostEventIsCovered(w, key);
    CoveredIsKnown(w, key);
    hide AgentsOk, Possible, Next, Le, Least, Cut, Judge, OnlyReceived, Accounted, InBuffer, Safe;
    var f :| f in WrittenKeys(w) && Le(Vc(w.emitted, key), Vc(w.emitted, f));
    StaysOut(w.server, Next(w, timeout, s).server, w.emitted[key], w.emitted[f]);
  }

  lemma StaysOut(v: View, w: View, e: Entry, f: Entry)
    requires Safe(w) && Settled(w) && v.log <= w.log
    requires e !in v.log && f in v.log && Le(e.vc, f.vc)
    ensures e !in w.log && !InBuffer(w, e)
  {
    hide Le, Judge, EntriesOf, Sized;
    var i :| 0 <= i < |v.log| && v.log[i] == f;
    assert w.log[i] == f;
    forall j | 0 <= j < |w.log|
      ensures w.log[j] != e
    {
      if j < |v.log| {
        assert w.log[j] == v.log[j];
      }
    }
    LeTransitive(e.vc, f.vc, w.committed);
    JudgeStale(e, w.committed);
    if InBuffer(w, e) {
      SettledHolds(w, e);
    }
  }

  lemma LostEventIsCovered(w: World, key: Key)
    requires Sound(w) && LostEvent(w, key)
    ensures Le(Vc(w.emitted, key), w.server.committed)
  {
    hide AgentsOk, Safe, Le, Least, Cut, EntriesOf, Settled, OnlyReceived;
  }

  lemma StepAppends(w: World, timeout: nat, s: Step)
    requires Sound(w) && Possible(w, s)
    ensures var w' := Next(w, timeout, s);
      && w.server.log <= w'.server.log && w.received <= w'.received
      && forall k :: Has(w.emitted, k) ==> Has(w'.emitted, k) && w'.emitted[k] == w.emitted[k]
  {
    if s.Emit? {
      EmitShape(w, timeout, s);
    } else {
      hide AgentsOk, Knows, Settled, Le, Held, Flush, Insert, TimeoutFlush;
      var t := if s.Deliver? then Tick(Packet(w.emitted[s.key], s.arrival), s.now) else Tick(s.input, s.now);
      RoundProgress(w.server, t, timeout);
    }
  }
}
