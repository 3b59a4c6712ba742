/** Agents, a network that loses, reorders and duplicates, and the server, as one transition
    system; and what the file holds in runs in which no timeout strikes. */
module Protocol {
  import opened VectorClock
  import opened LogEntry
  import opened Server
  import opened ServerSafety
  import opened Agent

  /** The `seqNo`-th event of a node, counting from 1. */
  datatype Key = Key(node: nat, count: nat)

  datatype World = World(agents: seq<Clock>, emitted: map<Key, Entry>, received: set<Key>, server: View)

  ghost predicate Has(m: map<Key, Entry>, k: Key) {
    k in m
  }

  /** The clock of an emitted event. */
  ghost function Vc(m: map<Key, Entry>, k: Key): Clock
    requires Has(m, k)
  {
    m[k].vc
  }

  /** A clock all of whose components are events it fully knows. */
  ghost predicate Cut(m: map<Key, Entry>, c: Clock) {
    forall j :: 0 <= j < |c| && c[j] > 0 ==> Has(m, Key(j, c[j])) && Le(Vc(m, Key(j, c[j])), c)
  }

  function Sum(c: Clock): nat {
    if c == [] then 0 else c[|c| - 1] + Sum(c[..|c| - 1])
  }

  /** Every agent's clock has a component for each agent. */
  ghost predicate Square(agents: seq<Clock>) {
    forall k :: 0 <= k < |agents| ==> |agents[k]| == |agents|
  }

  /** Events emitted by each node. */
  ghost function Counts(agents: seq<Clock>): Clock
    requires Square(agents)
  {
    seq(|agents|, k requires 0 <= k < |agents| => agents[k][k])
  }

  // ---------------------------------------------------------------- transitions

  datatype Step =
    | Emit(node: nat, line: seq<int>, entry: Entry)
    | Deliver(key: Key, arrival: nat, now: nat)
    | Idle(input: Input, now: nat)

  /** Clocks are causally well formed: a line carries what its node has really heard of. */
  ghost predicate Possible(w: World, s: Step)
    requires Square(w.agents)
  {
    match s
    case Emit(k, line, e) =>
      && k < |w.agents| && |line| == LINE_NODES
      && Cut(w.emitted, Heard(w.agents[k], k, line))
      && e.vc == Stamp(w.agents[k], k, line)
      && Sum(Counts(w.agents)) + 1 < INT_RANGE
    case Deliver(key, _, _) => Has(w.emitted, key)
    case Idle(input, _) => !input.Packet?
  }

  /** Possible, and the timeout does not strike. */
  ghost predicate Enabled(w: World, timeout: nat, s: Step)
    requires Square(w.agents)
  {
    && Possible(w, s)
    && match s
       case Emit(_, _, _) => true
       case Deliver(key, arrival, now) =>
         var f := Flush(Insert(w.server, w.emitted[key], arrival));
         TimeoutFlush(f, now, timeout) == f
       case Idle(input, now) => TimeoutFlush(w.server, now, timeout) == w.server
  }

  ghost function Next(w: World, timeout: nat, s: Step): World
    requires Square(w.agents)
    requires Possible(w, s)
  {
    match s
    case Emit(k, line, e) =>
      w.(agents := w.agents[k := e.vc], emitted := w.emitted[Key(k, e.vc[k]) := e])
    case Deliver(key, arrival, now) =>
      w.(received := w.received + {key},
         server := Round(w.server, Packet(w.emitted[key], arrival), now, timeout))
    case Idle(input, now) =>
      w.(server := Round(w.server, input, now, timeout))
  }

  // ---------------------------------------------------------------- what agents keep

  ghost predicate Shaped(w: World) {
    && Square(w.agents)
    && Sum(Counts(w.agents)) < INT_RANGE
  }

  /** The events of each node are numbered without gaps. */
  ghost predicate Numbered(w: World)
    requires Square(w.agents)
  {
    forall key :: Has(w.emitted, key) <==>
      key.node < |w.agents| && 1 <= key.count <= w.agents[key.node][key.node]
  }

  ghost predicate Clocked(w: World) {
    forall key :: Has(w.emitted, key) ==>
      && |Vc(w.emitted, key)| == |w.agents| && key.node < |w.agents|
      && Vc(w.emitted, key)[key.node] == key.count
      && Cut(w.emitted, Vc(w.emitted, key))
  }

  /** A node's own events are in order, and its clock is past all of them. */
  ghost predicate OwnOrder(w: World)
    requires Square(w.agents)
  {
    && (forall a, b :: Has(w.emitted, a) && Has(w.emitted, b) && a.node == b.node && a.count <= b.count
          ==> Le(Vc(w.emitted, a), Vc(w.emitted, b)))
    && (forall a :: Has(w.emitted, a) && a.node < |w.agents| ==> Le(Vc(w.emitted, a), w.agents[a.node]))
  }

  /** An event knows only events that did not know it. */
  ghost predicate Acyclic(m: map<Key, Entry>) {
    forall a, b :: Has(m, a) && Has(m, b) && a != b ==> !(Le(Vc(m, a), Vc(m, b)) && Le(Vc(m, b), Vc(m, a)))
  }

  ghost predicate AgentsOk(w: World) {
    && Shaped(w) && Numbered(w) && Clocked(w) && OwnOrder(w) && Acyclic(w.emitted)
    && forall k :: 0 <= k < |w.agents| ==> Cut(w.emitted, w.agents[k])
  }

  /** The defining property of vector clocks: an event is below a clock of the system exactly
      when the clock has counted it. */
  lemma CountedIsBelow(w: World, key: Key, c: Clock)
    requires AgentsOk(w) && Has(w.emitted, key) && Cut(w.emitted, c) && |c| == |w.agents|
    ensures Le(Vc(w.emitted, key), c) <==> key.count <= c[key.node]
  {
    var vc := Vc(w.emitted, key);
    if Le(vc, c) {
      assert vc[key.node] <= At(c, key.node);
    }
    if key.count <= c[key.node] {
      assert key.count >= 1;
      var top := Key(key.node, c[key.node]);
      assert Has(w.emitted, top) && Le(Vc(w.emitted, top), c);
      LeTransitive(vc, Vc(w.emitted, top), c);
    }
  }

  lemma {:induction false} SumUpdate(c: Clock, k: nat, x: nat)
    requires k < |c|
    ensures Sum(c[k := x]) == Sum(c) - c[k] + x && c[k] <= Sum(c)
    decreases |c|
  {
    var n := |c| - 1;
    if k == n {
      assert c[k := x][..n] == c[..n];
    } else {
      assert c[k := x][..n] == c[..n][k := x];
      SumUpdate(c[..n], k, x);
    }
  }

  /** A clock that is a cut stays one when events are added. */
  lemma CutGrows(m: map<Key, Entry>, m': map<Key, Entry>, c: Clock)
    requires Cut(m, c) && forall k :: Has(m, k) ==> Has(m', k) && Vc(m', k) == Vc(m, k)
    ensures Cut(m', c)
  {
    hide Le, Vc;
  }

  /** No clock counts an event that was not emitted. */
  lemma CutCounts(w: World, c: Clock, k: nat)
    requires AgentsOk(w) && Cut(w.emitted, c) && |c| == |w.agents| && k < |c|
    ensures c[k] <= w.agents[k][k]
  {
    if c[k] > 0 {
      assert Has(w.emitted, Key(k, c[k]));
    }
  }

  lemma HeardAbove(c: Clock, me: nat, line: seq<int>)
    requires |line| == LINE_NODES && me < |c|
    ensures Le(c, Heard(c, me, line)) && Heard(c, me, line)[me] == c[me]
  {
    hide ToU64;
  }

  lemma StampAbove(c: Clock, me: nat, line: seq<int>)
    requires |line| == LINE_NODES && me < |c| && c[me] + 1 < WORD
    ensures var h := Heard(c, me, line);
      Stamp(c, me, line) == h[me := c[me] + 1] && Le(h, Stamp(c, me, line))
  {
    HeardAbove(c, me, line);
    hide Heard;
  }

  /** The new event of an Emit step. */
  lemma EmitShape(w: World, timeout: nat, s: Step)
    requires AgentsOk(w) && s.Emit? && Possible(w, s)
    ensures var k, c := s.node, w.agents[s.node];
      var h := Heard(c, k, s.line);
      && h[k] == c[k] && s.entry.vc == h[k := c[k] + 1] && Le(c, h) && Le(h, s.entry.vc)
      && !Has(w.emitted, Key(k, c[k] + 1))
  {
    hide Cut, OwnOrder, Acyclic, Clocked, Heard, Stamp, Le, Sum;
    var k, c := s.node, w.agents[s.node];
    SumUpdate(Counts(w.agents), k, 0);
    assert c[k] == Counts(w.agents)[k];
    HeardAbove(c, k, s.line);
    StampAbove(c, k, s.line);
  }

  /** Cause and effect: an event emitted for a line that carries the clock of another event knows
      that event, as far as lines reach (three nodes) and the agent already knows the rest. */
  lemma {:induction false} LineIsHeard(w: World, s: Step, f: Key)
    requires AgentsOk(w) && s.Emit? && Possible(w, s) && Has(w.emitted, f) && s.line[0] >= 0
    requires forall i :: 0 <= i < 3 && i < |w.agents| && i != s.node ==> s.line[i] == Vc(w.emitted, f)[i]
    requires forall i :: 0 <= i < |w.agents| && (i >= 3 || i == s.node) ==> Vc(w.emitted, f)[i] <= w.agents[s.node][i]
    ensures Le(Vc(w.emitted, f), s.entry.vc)
  {
    EventFits(w, f, s.node);
    EmitStamps(w, s);
    hide AgentsOk, Possible, Stamp, Le, Cut;
    StampKnows(Vc(w.emitted, f), w.agents[s.node], s.node, s.line);
  }

  lemma EmitStamps(w: World, s: Step)
    requires AgentsOk(w) && s.Emit? && Possible(w, s)
    ensures |s.line| == 3 && s.node < |w.agents| && s.entry.vc == Stamp(w.agents[s.node], s.node, s.line)
  {
  }

  lemma EventFits(w: World, f: Key, k: nat)
    requires AgentsOk(w) && Has(w.emitted, f) && k < |w.agents|
    ensures |Vc(w.emitted, f)| == |w.agents| == |w.agents[k]| && w.agents[k][k] < INT_RANGE
    ensures forall i :: 0 <= i < |w.agents| ==> Vc(w.emitted, f)[i] < INT_RANGE
  {
    hide OwnOrder, Acyclic, Numbered, Le, Sum, Cut;
    forall i | 0 <= i < |w.agents|
      ensures Vc(w.emitted, f)[i] < INT_RANGE && w.agents[i][i] < INT_RANGE
    {
      CutCounts(w, Vc(w.emitted, f), i);
      CountsBelow(w, i);
    }
  }

  lemma CountsBelow(w: World, i: nat)
    requires Shaped(w) && i < |w.agents|
    ensures w.agents[i][i] < INT_RANGE
  {
    SumUpdate(Counts(w.agents), i, 0);
  }

  lemma EmitKeepsShape(w: World, timeout: nat, s: Step)
    requires AgentsOk(w) && s.Emit? && Possible(w, s)
    ensures Shaped(Next(w, timeout, s)) && Numbered(Next(w, timeout, s))
  {
    hide Cut, OwnOrder, Clocked, Acyclic, Le;
    EmitShape(w, timeout, s);
    var w' := Next(w, timeout, s);
    SumUpdate(Counts(w.agents), s.node, s.entry.vc[s.node]);
    assert Counts(w'.agents) == Counts(w.agents)[s.node := s.entry.vc[s.node]];
  }

  lemma EmitKeepsCuts(w: World, timeout: nat, s: Step)
    requires AgentsOk(w) && s.Emit? && Possible(w, s)
    ensures Clocked(Next(w, timeout, s))
    ensures var w' := Next(w, timeout, s);
      forall k :: 0 <= k < |w'.agents| ==> Cut(w'.emitted, w'.agents[k])
  {
    hide OwnOrder, Acyclic, Numbered, Sum, Le;
    EmitShape(w, timeout, s);
    var w' := Next(w, timeout, s);
    var k, vc := s.node, s.entry.vc;
    var h := Heard(w.agents[k], k, s.line);
    var added := Key(k, vc[k]);
    assert forall a :: Has(w.emitted, a) ==> Has(w'.emitted, a) && Vc(w'.emitted, a) == Vc(w.emitted, a);
    assert Cut(w'.emitted, vc) by {
      forall j | 0 <= j < |vc| && vc[j] > 0
        ensures Has(w'.emitted, Key(j, vc[j])) && Le(Vc(w'.emitted, Key(j, vc[j])), vc)
      {
        if j == k {
          LeReflexive(vc);
        } else {
          assert vc[j] == h[j];
          LeTransitive(Vc(w.emitted, Key(j, h[j])), h, vc);
        }
      }
    }
    forall a | Has(w.emitted, a)
      ensures Cut(w'.emitted, Vc(w.emitted, a))
    {
      CutGrows(w.emitted, w'.emitted, Vc(w.emitted, a));
    }
    forall i | 0 <= i < |w'.agents|
      ensures Cut(w'.emitted, w'.agents[i])
    {
      if i != k {
        CutGrows(w.emitted, w'.emitted, w.agents[i]);
      }
    }
  }

  lemma LeAt(a: Clock, b: Clock, i: nat)
    requires i < |a|
    ensures Le(a, b) ==> a[i] <= At(b, i)
  {
  }

  lemma EmitKeepsOrder(w: World, timeout: nat, s: Step)
    requires AgentsOk(w) && s.Emit? && Possible(w, s)
    requires Shaped(Next(w, timeout, s))
    ensures OwnOrder(Next(w, timeout, s)) && Acyclic(Next(w, timeout, s).emitted)
  {
    hide Cut, Sum;
    EmitShape(w, timeout, s);
    var w' := Next(w, timeout, s);
    var k, vc := s.node, s.entry.vc;
    var added := Key(k, vc[k]);
    LeReflexive(vc);
    forall a | Has(w.emitted, a)
      ensures !Le(vc, Vc(w.emitted, a))
      ensures a.node == k ==> Le(Vc(w.emitted, a), vc) && a.count < added.count
    {
      CutCounts(w, Vc(w.emitted, a), k);
      LeAt(vc, Vc(w.emitted, a), k);
      if a.node == k {
        LeTransitive(Vc(w.emitted, a), w.agents[k], Heard(w.agents[k], k, s.line));
        LeTransitive(Vc(w.emitted, a), Heard(w.agents[k], k, s.line), vc);
      }
    }
    OwnOrderAfter(w, w', k, vc);
  }

  lemma OwnOrderAfter(w: World, w': World, k: nat, vc: Clock)
    requires AgentsOk(w) && Shaped(w') && k < |w.agents| && |vc| == |w.agents|
    requires w'.agents == w.agents[k := vc] && Has(w'.emitted, Key(k, vc[k])) && !Has(w.emitted, Key(k, vc[k]))
    requires w'.emitted == w.emitted[Key(k, vc[k]) := w'.emitted[Key(k, vc[k])]]
    requires Vc(w'.emitted, Key(k, vc[k])) == vc && Le(vc, vc)
    requires forall a :: Has(w.emitted, a) ==> !Le(vc, Vc(w.emitted, a))
    requires forall a :: Has(w.emitted, a) && a.node == k ==> Le(Vc(w.emitted, a), vc) && a.count < vc[k]
    ensures OwnOrder(w') && Acyclic(w'.emitted)
  {
    hide Cut, Sum, Le, Numbered, Clocked;
    var added := Key(k, vc[k]);
    assert forall a :: Has(w'.emitted, a) <==> Has(w.emitted, a) || a == added;
    assert forall a :: Has(w.emitted, a) ==> Vc(w'.emitted, a) == Vc(w.emitted, a);
  }

  lemma StepKeepsAgents(w: World, timeout: nat, s: Step)
    requires AgentsOk(w) && Possible(w, s)
    ensures AgentsOk(Next(w, timeout, s))
  {
    if s.Emit? {
      hide Cut, Numbered, Clocked, OwnOrder, Acyclic, Sum, Le, Heard, Stamp;
      EmitKeepsShape(w, timeout, s);
      EmitKeepsCuts(w, timeout, s);
      EmitKeepsOrder(w, timeout, s);
    } else {
      hide AgentsOk;
      AgentsOnly(w, Next(w, timeout, s));
    }
  }

  // ---------------------------------------------------------------- what the server keeps

  ghost predicate InBuffer(v: View, e: Entry) {
    e in multiset(EntriesOf(v.buffer))
  }

  /** The entry is one of the received events. */
  ghost predicate IsReceived(w: World, e: Entry) {
    exists key :: key in w.received && Has(w.emitted, key) && w.emitted[key] == e
  }

  ghost predicate OnlyReceived(w: World, v: View) {
    && (forall key :: key in w.received ==> Has(w.emitted, key))
    && (forall e :: InBuffer(v, e) ==> IsReceived(w, e))
    && (forall e :: e in v.log ==> IsReceived(w, e))
    && (forall e :: e in v.dropped ==> IsReceived(w, e))
  }

  /** The file holds exactly the events the committed clock counts. */
  ghost predicate Exact(w: World, v: View)
    requires |v.committed| == |w.agents|
  {
    forall key :: Has(w.emitted, key) && key.node < |w.agents| ==>
      (w.emitted[key] in v.log <==> key.count <= v.committed[key.node])
  }

  /** What was received is covered by the committed clock or still waits. */
  ghost predicate Accounted(w: World, v: View) {
    forall key :: key in w.received && Has(w.emitted, key) ==>
      Le(Vc(w.emitted, key), v.committed) || InBuffer(v, w.emitted[key])
  }

  ghost predicate ServerOk(w: World, v: View) {
    && |v.committed| == |w.agents| && Safe(v) && Cut(w.emitted, v.committed)
    && OnlyReceived(w, v) && Exact(w, v) && Accounted(w, v)
  }

  lemma {:induction false} AdvanceBounded(e: Clock, c: Clock, n: nat)
    requires n <= |c| && n <= |e|
    ensures AdvanceUpTo(e, c, n) <= Sum(e[..n])
    decreases n
  {
    if n > 0 {
      AdvanceBounded(e, c, n - 1);
      assert e[..n][..n - 1] == e[..n - 1];
    }
  }

  lemma {:induction false} SumMonotone(a: Clock, b: Clock)
    requires |a| == |b| && forall i :: 0 <= i < |a| ==> a[i] <= b[i]
    ensures Sum(a) <= Sum(b)
    decreases |a|
  {
    if a != [] {
      SumMonotone(a[..|a| - 1], b[..|b| - 1]);
    }
  }

  /** Clocks of the system never get far enough apart to overflow the step count. */
  lemma NoOverflow(w: World, key: Key, c: Clock)
    requires AgentsOk(w) && Has(w.emitted, key) && |c| == |w.agents|
    ensures Advance(Vc(w.emitted, key), c) < INT_RANGE
  {
    hide OwnOrder, Acyclic, Numbered, Le, Cut;
    var vc := Vc(w.emitted, key);
    forall i | 0 <= i < |vc|
      ensures vc[i] <= Counts(w.agents)[i]
    {
      CutCounts(w, vc, i);
    }
    SumMonotone(vc, Counts(w.agents));
    AdvanceBounded(vc, c, |c|);
    assert vc[..|c|] == vc;
  }

  /** An entry the server finds ready is the next event of its node, and everything it knows is
      already written. */
  lemma ReadyIsNext(w: World, v: View, key: Key)
    requires AgentsOk(w) && |v.committed| == |w.agents| && Cut(w.emitted, v.committed) && Has(w.emitted, key)
    requires Judge(w.emitted[key], v.committed).Ready?
    ensures key.node < |w.agents| && key.count == v.committed[key.node] + 1
    ensures Merged(v.committed, Vc(w.emitted, key)) == v.committed[key.node := key.count]
    ensures !Le(Vc(w.emitted, key), v.committed)
  {
    hide OwnOrder, Acyclic, Numbered, AdvanceUpTo;
    var c, vc := v.committed, Vc(w.emitted, key);
    NoOverflow(w, key, c);
    StepTestIsModular(w.emitted[key], c);
    CountedIsBelow(w, key, c);
    OneStep(vc, c, |c|, key.node);
  }

  /** Different events have different entries. */
  lemma EntriesDiffer(w: World, a: Key, b: Key)
    requires AgentsOk(w) && Has(w.emitted, a) && Has(w.emitted, b) && w.emitted[a] == w.emitted[b]
    ensures a == b
  {
    LeReflexive(Vc(w.emitted, a));
  }

  lemma WriteKeepsServer(w: World, v: View, i: nat)
    requires AgentsOk(w) && ServerOk(w, v) && i < |v.buffer|
    requires Judge(v.buffer[i].entry, v.committed).Ready?
    ensures ServerOk(w, Move(v, i))
  {
    hide OwnOrder, Acyclic, Numbered, Clocked, Judge, AdvanceUpTo, EntriesOf, Safe;
    var e := v.buffer[i].entry;
    EntriesOfMember(v.buffer, i);
    assert InBuffer(v, e);
    var key :| key in w.received && Has(w.emitted, key) && w.emitted[key] == e;
    ReadyIsNext(w, v, key);
    WriteIsSafe(v, i);
    EntriesOfSplit(v.buffer, i);
    var v' := Move(v, i);
    assert v'.log == v.log + [e];
    CommitKeepsCut(w, v.committed, key);
    CommitIsExact(w, v, v', key);
    CommitAccounts(w, v, v', e);
    forall x | x in v'.log
      ensures IsReceived(w, x)
    {
      if x != e { assert x in v.log; }
    }
  }

  lemma CommitKeepsCut(w: World, c: Clock, key: Key)
    requires AgentsOk(w) && |c| == |w.agents| && Cut(w.emitted, c) && Has(w.emitted, key)
    requires key.node < |c| && Merged(c, Vc(w.emitted, key)) == c[key.node := key.count]
    ensures Cut(w.emitted, c[key.node := key.count])
  {
    hide OwnOrder, Acyclic, Numbered, Le;
    var c' := c[key.node := key.count];
    MergedIsJoin(c, Vc(w.emitted, key));
    forall j | 0 <= j < |c'| && c'[j] > 0
      ensures Has(w.emitted, Key(j, c'[j])) && Le(Vc(w.emitted, Key(j, c'[j])), c')
    {
      if j == key.node {
        assert Key(j, c'[j]) == key;
      } else {
        assert c'[j] == c[j];
        LeTransitive(Vc(w.emitted, Key(j, c[j])), c, c');
      }
    }
  }

  lemma CommitIsExact(w: World, v: View, v': View, key: Key)
    requires AgentsOk(w) && |v.committed| == |w.agents| && Exact(w, v) && Has(w.emitted, key)
    requires key.node < |w.agents| && key.count == v.committed[key.node] + 1
    requires v'.committed == v.committed[key.node := key.count] && v'.log == v.log + [w.emitted[key]]
    ensures Exact(w, v')
  {
    hide OwnOrder, Acyclic, Numbered, Clocked, Le, Cut;
    forall a | Has(w.emitted, a) && a.node < |w.agents|
      ensures w.emitted[a] in v'.log <==> a.count <= v'.committed[a.node]
    {
      if w.emitted[a] == w.emitted[key] {
        EntriesDiffer(w, a, key);
      }
    }
  }

  /** Taking one entry out of the buffer leaves the others accounted for. */
  lemma CommitAccounts(w: World, v: View, v': View, e: Entry)
    requires Accounted(w, v) && Le(v.committed, v'.committed) && Le(e.vc, v'.committed)
    requires multiset(EntriesOf(v.buffer)) == multiset(EntriesOf(v'.buffer)) + multiset{e}
    ensures Accounted(w, v')
  {
    hide Le, EntriesOf;
    forall key | key in w.received && Has(w.emitted, key)
      ensures Le(Vc(w.emitted, key), v'.committed) || InBuffer(v', w.emitted[key])
    {
      if Le(Vc(w.emitted, key), v.committed) {
        LeTransitive(Vc(w.emitted, key), v.committed, v'.committed);
      } else {
        assert InBuffer(v, w.emitted[key]);
      }
    }
  }

  lemma DropKeepsServer(w: World, v: View, i: nat)
    requires AgentsOk(w) && ServerOk(w, v) && i < |v.buffer|
    requires Judge(v.buffer[i].entry, v.committed).Stale?
    ensures ServerOk(w, Move(v, i))
  {
    hide OwnOrder, Acyclic, Numbered, Clocked, AdvanceUpTo, EntriesOf, Cut, Le, Safe;
    var e := v.buffer[i].entry;
    JudgeStale(e, v.committed);
    DropIsSafe(v, i);
    EntriesOfSplit(v.buffer, i);
    EntriesOfMember(v.buffer, i);
    assert InBuffer(v, e);
    LeReflexive(v.committed);
    CommitAccounts(w, v, Move(v, i), e);
  }

  lemma {:induction false} FlushKeepsServer(w: World, v: View)
    requires AgentsOk(w) && ServerOk(w, v)
    ensures ServerOk(w, Flush(v))
    decreases |v.buffer|
  {
    hide AgentsOk, Judge, ServerOk;
    var i := FirstMove(v.buffer, v.committed);
    if i < |v.buffer| {
      if Judge(v.buffer[i].entry, v.committed).Stale? {
        DropKeepsServer(w, v, i);
      } else {
        WriteKeepsServer(w, v, i);
      }
      FlushKeepsServer(w, Move(v, i));
    }
  }

  /** An arrival joins what waits. */
  lemma ArrivalIsAccounted(w: World, v: View, v': View, key: Key)
    requires OnlyReceived(w, v) && Accounted(w, v) && Has(w.emitted, key)
    requires multiset(EntriesOf(v'.buffer)) == multiset(EntriesOf(v.buffer)) + multiset{w.emitted[key]}
    requires v'.log == v.log && v'.dropped == v.dropped && v'.committed == v.committed
    ensures var w' := w.(received := w.received + {key}); OnlyReceived(w', v') && Accounted(w', v')
  {
    hide Le, EntriesOf;
    var e, w' := w.emitted[key], w.(received := w.received + {key});
    forall x | IsReceived(w, x)
      ensures IsReceived(w', x)
    {
      var k :| k in w.received && Has(w.emitted, k) && w.emitted[k] == x;
      assert k in w'.received;
    }
    assert IsReceived(w', e) by { assert key in w'.received; }
    forall k | k in w'.received && Has(w'.emitted, k)
      ensures Le(Vc(w'.emitted, k), v'.committed) || InBuffer(v', w'.emitted[k])
    {
      if k != key {
        assert k in w.received;
        assert Le(Vc(w.emitted, k), v.committed) || InBuffer(v, w.emitted[k]);
      }
    }
  }

  lemma DeliverKeepsServer(w: World, v: View, key: Key, arrival: nat)
    requires AgentsOk(w) && ServerOk(w, v) && Has(w.emitted, key)
    ensures ServerOk(w.(received := w.received + {key}), Insert(v, w.emitted[key], arrival))
  {
    hide OwnOrder, Acyclic, Numbered, Cut, Le, EntriesOf, Safe, OnlyReceived, Accounted, Insert;
    InsertHolds(v, w.emitted[key], arrival);
    InsertIsSafe(v, w.emitted[key], arrival);
    ArrivalIsAccounted(w, v, Insert(v, w.emitted[key], arrival), key);
  }

  /** One event more, and nothing else the server could see. */
  ghost predicate Extends(w: World, w': World, added: Key) {
    && |w'.agents| == |w.agents| && w'.received == w.received
    && !Has(w.emitted, added) && Has(w'.emitted, added)
    && w'.emitted == w.emitted[added := w'.emitted[added]]
  }

  lemma NewIsNotReceived(w: World, w': World, added: Key, v: View)
    requires Extends(w, w', added) && OnlyReceived(w, v)
    ensures OnlyReceived(w', v)
  {
    hide EntriesOf;
    forall x | IsReceived(w, x)
      ensures IsReceived(w', x)
    {
      var k :| k in w.received && Has(w.emitted, k) && w.emitted[k] == x;
      assert Has(w'.emitted, k) && w'.emitted[k] == x;
    }
  }

  lemma NewIsNotWritten(w: World, w': World, added: Key, v: View)
    requires Extends(w, w', added) && OnlyReceived(w, v) && AgentsOk(w')
    requires |v.committed| == |w.agents| && Exact(w, v)
    requires added.node < |w.agents| && added.count > v.committed[added.node]
    ensures Exact(w', v)
  {
    hide OwnOrder, Acyclic, Clocked, Numbered, Shaped, Cut, EntriesOf;
    forall a | Has(w'.emitted, a) && a.node < |w'.agents|
      ensures w'.emitted[a] in v.log <==> a.count <= v.committed[a.node]
    {
      if a == added {
        if w'.emitted[a] in v.log {
          var k :| k in w.received && Has(w.emitted, k) && w.emitted[k] == w'.emitted[a];
          assert Has(w'.emitted, k) && w'.emitted[k] == w.emitted[k];
          EntriesDiffer(w', k, added);
        }
      } else {
        assert Has(w.emitted, a) && w'.emitted[a] == w.emitted[a];
      }
    }
  }

  lemma NewIsNotOwed(w: World, w': World, added: Key, v: View)
    requires Extends(w, w', added) && OnlyReceived(w, v) && Accounted(w, v)
    ensures Accounted(w', v)
  {
    hide Le, EntriesOf;
    forall k | k in w'.received && Has(w'.emitted, k)
      ensures Le(Vc(w'.emitted, k), v.committed) || InBuffer(v, w'.emitted[k])
    {
      assert Has(w.emitted, k) && Vc(w'.emitted, k) == Vc(w.emitted, k);
    }
  }

  /** New events do not concern what the server has. */
  lemma EmitKeepsServer(w: World, timeout: nat, s: Step)
    requires AgentsOk(w) && ServerOk(w, w.server) && s.Emit? && Possible(w, s)
    requires AgentsOk(Next(w, timeout, s))
    ensures ServerOk(Next(w, timeout, s), w.server)
  {
    EmitShape(w, timeout, s);
    hide AgentsOk, OnlyReceived, Exact, Accounted, Safe, Heard, Stamp, Sum, Le, Cut, Possible;
    var w', v := Next(w, timeout, s), w.server;
    var added := Key(s.node, s.entry.vc[s.node]);
    CutCounts(w, v.committed, s.node);
    CutGrows(w.emitted, w'.emitted, v.committed);
    NewIsNotReceived(w, w', added, v);
    NewIsNotWritten(w, w', added, v);
    NewIsNotOwed(w, w', added, v);
  }

  ghost predicate Ok(w: World) {
    AgentsOk(w) && ServerOk(w, w.server) && Settled(w.server)
  }

  lemma {:induction false} StepKeeps(w: World, timeout: nat, s: Step)
    requires Ok(w) && Enabled(w, timeout, s)
    ensures Ok(Next(w, timeout, s))
  {
    assert Square(w.agents);
    hide AgentsOk, ServerOk, Settled, Flush, TimeoutFlush, Insert, Heard, Stamp;
    StepKeepsAgents(w, timeout, s);
    match s
    case Emit(_, _, _) =>
      EmitKeepsServer(w, timeout, s);
    case Deliver(key, arrival, now) =>
      DeliverKeepsServer(w, w.server, key, arrival);
      var u, v := w.(received := w.received + {key}), Insert(w.server, w.emitted[key], arrival);
      AgentsOnly(w, u);
      ServerSafe(u, v);
      FlushIsSafe(v);
      FlushKeepsServer(u, v);
      ServerOnly(u, Next(w, timeout, s), Flush(v));
    case Idle(_, _) =>
  }

  lemma AgentsOnly(w: World, u: World)
    requires AgentsOk(w) && u.agents == w.agents && u.emitted == w.emitted
    ensures AgentsOk(u)
  {
  }

  lemma ServerOnly(w: World, u: World, v: View)
    requires ServerOk(w, v) && u.agents == w.agents && u.emitted == w.emitted && u.received == w.received
    ensures ServerOk(u, v)
  {
  }

  lemma ServerSafe(w: World, v: View)
    requires ServerOk(w, v)
    ensures Safe(v)
  {
  }

  // ---------------------------------------------------------------- runs

  ghost function Initial(n: nat): World {
    World(seq(n, _ => seq(n, _ => 0)), map[], {}, Start(n))
  }

  /** `w` is reached from the start by enabled steps; no timeout strikes in any of them. */
  ghost predicate Reachable(n: nat, timeout: nat, steps: seq<Step>, w: World)
    decreases |steps|
  {
    if steps == [] then w == Initial(n)
    else exists u :: Reachable(n, timeout, steps[..|steps| - 1], u) && Square(u.agents)
                     && Enabled(u, timeout, steps[|steps| - 1]) && w == Next(u, timeout, steps[|steps| - 1])
  }

  lemma {:induction false} SumZero(c: Clock)
    requires forall i :: 0 <= i < |c| ==> c[i] == 0
    ensures Sum(c) == 0
    decreases |c|
  {
    if c != [] {
      SumZero(c[..|c| - 1]);
    }
  }

  lemma InitialOk(n: nat)
    ensures Ok(Initial(n))
  {
    SumZero(Counts(Initial(n).agents));
    assert EntriesOf([]) == [];
  }

  lemma {:induction false} EveryRunOk(n: nat, timeout: nat, steps: seq<Step>, w: World)
    requires Reachable(n, timeout, steps, w)
    ensures Ok(w)
    decreases |steps|
  {
    hide Possible, Next, Ok;
    if steps == [] {
      InitialOk(n);
    } else {
      var u :| Reachable(n, timeout, steps[..|steps| - 1], u) && Square(u.agents)
        && Enabled(u, timeout, steps[|steps| - 1]) && w == Next(u, timeout, steps[|steps| - 1]);
      EveryRunOk(n, timeout, steps[..|steps| - 1], u);
      StepKeeps(u, timeout, steps[|steps| - 1]);
    }
  }

  lemma {:induction false} WorldSize(n: nat, timeout: nat, steps: seq<Step>, w: World)
    requires Reachable(n, timeout, steps, w)
    ensures |w.agents| == n
    decreases |steps|
  {
    if steps != [] {
      var before, s := steps[..|steps| - 1], steps[|steps| - 1];
      var u :| Reachable(n, timeout, before, u) && Square(u.agents)
        && Enabled(u, timeout, s) && w == Next(u, timeout, s);
      WorldSize(n, timeout, before, u);
    }
  }

  // ---------------------------------------------------------------- what is written

  /** Closed under what its events know. */
  ghost predicate CausallyClosed(w: World, s: set<Key>) {
    && (forall a :: a in s ==> Has(w.emitted, a))
    && forall a, b :: a in s && Has(w.emitted, b) && Le(Vc(w.emitted, b), Vc(w.emitted, a)) ==> b in s
  }

  /** The events that are in the file. */
  ghost function WrittenKeys(w: World): set<Key> {
    set key | key in w.emitted && w.emitted[key] in w.server.log
  }

  lemma WrittenIsCounted(w: World, key: Key)
    requires Ok(w)
    ensures key in WrittenKeys(w) <==>
      Has(w.emitted, key) && key.node < |w.agents| && key.count <= w.server.committed[key.node]
  {
    hide OwnOrder, Acyclic, Cut, Numbered, Accounted, Safe, Settled, OnlyReceived;
    if Has(w.emitted, key) {
      assert key.node < |w.agents|;
    }
  }

  lemma WrittenIsClosed(w: World)
    requires Ok(w)
    ensures CausallyClosed(w, WrittenKeys(w)) && WrittenKeys(w) <= w.received
  {
    hide WrittenKeys, Exact, Accounted, Safe, Settled, Le, EntriesOf;
    var c := w.server.committed;
    forall a | a in WrittenKeys(w)
      ensures Has(w.emitted, a) && a in w.received
    {
      WrittenIsCounted(w, a);
      WrittenIsReceived(w, a);
    }
    forall a, b | a in WrittenKeys(w) && Has(w.emitted, b) && Le(Vc(w.emitted, b), Vc(w.emitted, a))
      ensures b in WrittenKeys(w)
    {
      WrittenIsCounted(w, a);
      WrittenIsCounted(w, b);
      CountedIsBelow(w, a, c);
      CountedIsBelow(w, b, c);
      LeTransitive(Vc(w.emitted, b), Vc(w.emitted, a), c);
    }
  }

  lemma WrittenIsReceived(w: World, a: Key)
    requires Ok(w) && a in WrittenKeys(w)
    ensures a in w.received
  {
    hide OwnOrder, Cut, Numbered, Accounted, Safe, Settled, Exact, Le;
    var e := w.emitted[a];
    assert IsReceived(w, e);
    var key :| key in w.received && Has(w.emitted, key) && w.emitted[key] == e;
    EntriesDiffer(w, a, key);
  }

  /** What an event knows of other nodes, and of its own past, is smaller. */
  lemma KnownIsSmaller(w: World, key: Key, k: Key)
    requires AgentsOk(w) && Has(w.emitted, key) && Has(w.emitted, k) && k != key
    requires Le(Vc(w.emitted, k), Vc(w.emitted, key))
    ensures Sum(Vc(w.emitted, k)) < Sum(Vc(w.emitted, key))
  {
    hide OwnOrder, Cut, Numbered;
    var a, b := Vc(w.emitted, k), Vc(w.emitted, key);
    assert !Le(b, a);
    var i :| 0 <= i < |b| && b[i] > At(a, i);
    forall j | 0 <= j < |a|
      ensures a[j] <= b[i := a[i]][j]
    {
      assert a[j] <= At(b, j);
    }
    SumMonotone(a, b[i := a[i]]);
    SumUpdate(b, i, a[i]);
  }

  /** Every event of a received causally closed set has been written. */
  lemma {:induction false} ClosedIsWritten(w: World, s: set<Key>, key: Key)
    requires Ok(w) && CausallyClosed(w, s) && s <= w.received && key in s
    ensures Has(w.emitted, key) && key in WrittenKeys(w)
    decreases if key in w.emitted then Sum(w.emitted[key].vc) else 0
  {
    hide WrittenKeys, Exact, Safe, OwnOrder, Acyclic, Sum, EntriesOf;
    assert Has(w.emitted, key);
    var vc, c := Vc(w.emitted, key), w.server.committed;
    forall j | 0 <= j < |vc| && j != key.node
      ensures vc[j] <= c[j]
    {
      if vc[j] > 0 {
        KnownIsWritten(w, s, key, Key(j, vc[j]));
        ClosedIsWritten(w, s, Key(j, vc[j]));
        WrittenIsCounted(w, Key(j, vc[j]));
      }
    }
    if key.count > 1 {
      var prev := Key(key.node, key.count - 1);
      PreviousIsKnown(w, key);
      KnownIsWritten(w, s, key, prev);
      ClosedIsWritten(w, s, prev);
      WrittenIsCounted(w, prev);
    }
    assert vc[key.node] == key.count <= c[key.node] + 1;
    NextCannotWait(w, key);
    WrittenIsCounted(w, key);
  }

  lemma KnownIsWritten(w: World, s: set<Key>, key: Key, k: Key)
    requires AgentsOk(w) && CausallyClosed(w, s) && key in s
    requires Has(w.emitted, k) && k != key && Le(Vc(w.emitted, k), Vc(w.emitted, key))
    ensures k in s && Sum(Vc(w.emitted, k)) < Sum(Vc(w.emitted, key))
  {
    hide AgentsOk, Le;
    KnownIsSmaller(w, key, k);
  }

  lemma PreviousIsKnown(w: World, key: Key)
    requires AgentsOk(w) && Has(w.emitted, key) && key.count > 1
    ensures var prev := Key(key.node, key.count - 1);
      Has(w.emitted, prev) && Le(Vc(w.emitted, prev), Vc(w.emitted, key))
  {
    hide Acyclic, Cut, Le, Clocked;
  }

  /** A received event all of whose causes are written is written too. */
  lemma NextCannotWait(w: World, key: Key)
    requires Ok(w) && key in w.received && Has(w.emitted, key)
    requires key.node < |w.agents| && |Vc(w.emitted, key)| == |w.agents| == |w.server.committed|
    requires forall j :: 0 <= j < |w.agents| && j != key.node ==> Vc(w.emitted, key)[j] <= w.server.committed[j]
    requires Vc(w.emitted, key)[key.node] == key.count <= w.server.committed[key.node] + 1
    ensures key.count <= w.server.committed[key.node]
  {
    hide OwnOrder, Acyclic, Numbered, Exact, OnlyReceived, Safe, AdvanceUpTo, EntriesOf;
    var c, vc := w.server.committed, Vc(w.emitted, key);
    if key.count > c[key.node] {
      OneStep(vc, c, |c|, key.node);
      StepTestIsModular(w.emitted[key], c);
      LeAt(vc, c, key.node);
      SettledHolds(w.server, w.emitted[key]);
    }
  }

  lemma SettledHolds(v: View, e: Entry)
    requires Settled(v) && InBuffer(v, e)
    ensures Judge(e, v.committed).Hold?
  {
    hide Judge;
    EntriesOfFrom(v.buffer, e);
  }

  /** In every run without forced flushes the file holds exactly the largest causally closed
      subset of what was received, each event once, in an order that extends happens-before. */
  lemma {:induction false} WrittenIsLargestClosedSet(n: nat, timeout: nat, steps: seq<Step>, w: World)
    requires Reachable(n, timeout, steps, w)
    ensures CausallyClosed(w, WrittenKeys(w)) && WrittenKeys(w) <= w.received
    ensures forall s :: CausallyClosed(w, s) && s <= w.received ==> s <= WrittenKeys(w)
    ensures forall e :: e in w.server.log ==> exists key :: key in WrittenKeys(w) && w.emitted[key] == e
    ensures forall i, j :: 0 <= i < j < |w.server.log| ==> w.server.log[i] != w.server.log[j]
    ensures forall i, j :: 0 <= i < j < |w.server.log| ==> !Lt(w.server.log[j].vc, w.server.log[i].vc)
  {
    EveryRunOk(n, timeout, steps, w);
    WrittenIsClosed(w);
    forall s | CausallyClosed(w, s) && s <= w.received
      ensures s <= WrittenKeys(w)
    {
      forall key | key in s
        ensures key in WrittenKeys(w)
      {
        ClosedIsWritten(w, s, key);
      }
    }
    LogIsWritten(w);
    LogOnce(w.server);
  }

  lemma LogIsWritten(w: World)
    requires Ok(w)
    ensures forall e :: e in w.server.log ==> exists key :: key in WrittenKeys(w) && w.emitted[key] == e
  {
    hide AgentsOk, Safe, Exact, Accounted, Settled;
    forall e | e in w.server.log
      ensures exists key :: key in WrittenKeys(w) && w.emitted[key] == e
    {
      assert IsReceived(w, e);
      var key :| key in w.received && Has(w.emitted, key) && w.emitted[key] == e;
      assert key in WrittenKeys(w);
    }
  }

  lemma LogOnce(v: View)
    requires Safe(v)
    ensures forall i, j :: 0 <= i < j < |v.log| ==> v.log[i] != v.log[j]
    ensures forall i, j :: 0 <= i < j < |v.log| ==> !Lt(v.log[j].vc, v.log[i].vc)
  {
    hide Le;
    forall i, j | 0 <= i < j < |v.log|
      ensures v.log[i] != v.log[j]
    {
      LeReflexive(v.log[i].vc);
    }
  }

  /** Nothing is lost: without forced flushes whatever the server drops is already in the file. */
  lemma {:induction false} DroppedAreDuplicates(n: nat, timeout: nat, steps: seq<Step>, w: World)
    requires Reachable(n, timeout, steps, w)
    ensures forall e :: e in w.server.dropped ==> e in w.server.log
  {
    EveryRunOk(n, timeout, steps, w);
    forall e | e in w.server.dropped
      ensures e in w.server.log
    {
      DroppedIsWritten(w, e);
    }
  }

  lemma DroppedIsWritten(w: World, e: Entry)
    requires Ok(w) && e in w.server.dropped
    ensures e in w.server.log
  {
    hide OwnOrder, Acyclic, Numbered, Accounted, CausallyOrdered, Sized, Settled, Le, EntriesOf;
    assert IsReceived(w, e);
    var key :| key in w.received && Has(w.emitted, key) && w.emitted[key] == e;
    CountedIsBelow(w, key, w.server.committed);
    WrittenIsCounted(w, key);
  }

  /** Once every emitted event has arrived, every one is in the file and none waits. */
  lemma {:induction false} EverythingArrived(n: nat, timeout: nat, steps: seq<Step>, w: World)
    requires Reachable(n, timeout, steps, w) && w.received == w.emitted.Keys
    ensures WrittenKeys(w) == w.emitted.Keys && w.server.buffer == []
  {
    hide Reachable, WrittenKeys, Ok, Le;
    WrittenIsLargestClosedSet(n, timeout, steps, w);
    EveryRunOk(n, timeout, steps, w);
    assert CausallyClosed(w, w.emitted.Keys);
    assert w.emitted.Keys <= WrittenKeys(w) <= w.received;
    NothingWaits(w);
  }

  lemma NothingWaits(w: World)
    requires Ok(w) && WrittenKeys(w) == w.emitted.Keys
    ensures w.server.buffer == []
  {
    hide WrittenKeys, EntriesOf, OwnOrder, Acyclic, Numbered, Exact, Accounted, Safe, Le;
    if w.server.buffer != [] {
      var e := w.server.buffer[0].entry;
      EntriesOfMember(w.server.buffer, 0);
      assert InBuffer(w.server, e);
      var key :| key in w.received && Has(w.emitted, key) && w.emitted[key] == e;
      WrittenIsCounted(w, key);
      CountedIsBelow(w, key, w.server.committed);
      JudgeStale(e, w.server.committed);
    }
  }

  /** What is written does not depend on the order of arrival, on duplicates or on delays: two
      runs that emitted and received the same events wrote the same events and committed the
      same clock. */
  lemma {:induction false} ArrivalOrderIsIrrelevant(n: nat, t1: nat, t2: nat, s1: seq<Step>, s2: seq<Step>, w1: World,
      w2: World)
    requires Reachable(n, t1, s1, w1) && Reachable(n, t2, s2, w2)
    requires w1.emitted == w2.emitted && w1.received == w2.received
    ensures WrittenKeys(w1) == WrittenKeys(w2)
    ensures multiset(w1.server.log) == multiset(w2.server.log)
    ensures w1.server.committed == w2.server.committed
  {
    hide Reachable, WrittenKeys;
    WorldSize(n, t1, s1, w1);
    WorldSize(n, t2, s2, w2);
    WrittenIsLargestClosedSet(n, t1, s1, w1);
    WrittenIsLargestClosedSet(n, t2, s2, w2);
    assert CausallyClosed(w1, WrittenKeys(w2)) && CausallyClosed(w2, WrittenKeys(w1));
    EveryRunOk(n, t1, s1, w1);
    EveryRunOk(n, t2, s2, w2);
    SameLog(w1, w2);
    CommittedBelow(w1, w2);
    CommittedBelow(w2, w1);
  }

  lemma CommittedBelow(w1: World, w2: World)
    requires Ok(w1) && Ok(w2) && w1.emitted == w2.emitted && |w1.agents| == |w2.agents|
    requires WrittenKeys(w1) <= WrittenKeys(w2)
    ensures |w1.server.committed| == |w2.server.committed|
    ensures forall j :: 0 <= j < |w1.server.committed| ==> w1.server.committed[j] <= w2.server.committed[j]
  {
    hide WrittenKeys, Exact, Accounted, Safe, Settled, OwnOrder, Acyclic, Le;
    var c := w1.server.committed;
    forall j | 0 <= j < |c|
      ensures c[j] <= w2.server.committed[j]
    {
      if c[j] > 0 {
        WrittenIsCounted(w1, Key(j, c[j]));
        WrittenIsCounted(w2, Key(j, c[j]));
      }
    }
  }

  lemma SameLog(w1: World, w2: World)
    requires Ok(w1) && Ok(w2) && w1.emitted == w2.emitted && WrittenKeys(w1) == WrittenKeys(w2)
    ensures multiset(w1.server.log) == multiset(w2.server.log)
  {
    LogIsWritten(w1);
    LogIsWritten(w2);
    LogOnce(w1.server);
    LogOnce(w2.server);
    hide Ok;
    forall e
      ensures multiset(w1.server.log)[e] == multiset(w2.server.log)[e]
    {
      if e in w1.server.log || e in w2.server.log {
        assert e in w1.server.log && e in w2.server.log;
      }
      OnceCounts(w1.server.log, e);
      OnceCounts(w2.server.log, e);
    }
  }

  lemma {:induction false} OnceCounts(log: seq<Entry>, e: Entry)
    requires forall i, j :: 0 <= i < j < |log| ==> log[i] != log[j]
    ensures multiset(log)[e] == if e in log then 1 else 0
    decreases |log|
  {
    if log != [] {
      var n := |log| - 1;
      OnceCounts(log[..n], e);
      assert log == log[..n] + [log[n]];
    }
  }
}
