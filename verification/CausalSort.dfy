/** When the causal comparator is an order. It mixes the partial order of clocks with time and
    node id, so it goes round in circles when time puts a third entry between an event and one of
    its causes. */
module CausalSort {
  import opened VectorClock
  import opened LogEntry
  import opened Server
  import opened ServerSafety

  // ---------------------------------------------------------------- when it is an order

  /** Read backwards, the comparator says the opposite. */
  lemma ComparatorFlips(a: Entry, b: Entry)
    ensures CompareByTime(a, b) == -CompareByTime(b, a)
    ensures CompareCausal(a, b) == -CompareCausal(b, a)
  {
    hide Le, StrCmp;
    StrCmpOrder(a.nodeId, b.nodeId);
  }

  lemma TimeTransitive(a: Entry, b: Entry, c: Entry)
    ensures CompareByTime(a, b) <= 0 && CompareByTime(b, c) <= 0 ==> CompareByTime(a, c) <= 0
  {
    hide StrCmp;
    StrCmpOrder(a.nodeId, b.nodeId);
    StrCmpOrder(b.nodeId, c.nodeId);
    if StrCmp(a.nodeId, b.nodeId) < 0 && StrCmp(b.nodeId, c.nodeId) < 0 {
      StrCmpTransitive(a.nodeId, b.nodeId, c.nodeId);
    }
  }

  /** `x` happens before `y`, and time puts `z`, concurrent with both, after `y` and before `x`. */
  ghost predicate Wedge(x: Entry, y: Entry, z: Entry) {
    && Lt(x.vc, y.vc) && Relate(x.vc, z.vc).Concurrent? && Relate(y.vc, z.vc).Concurrent?
    && CompareByTime(y, z) <= 0 && CompareByTime(z, x) <= 0
  }

  ghost predicate HasWedge(s: seq<Entry>) {
    exists x, y, z :: x in s && y in s && z in s && Wedge(x, y, z)
  }

  ghost predicate Transitive(s: seq<Entry>) {
    forall a, b, c :: a in s && b in s && c in s && CompareCausal(a, b) <= 0 && CompareCausal(b, c) <= 0 ==>
      CompareCausal(a, c) <= 0
  }

  /** The clock relations of three entries, turned every way. */
  lemma LeAround(a: Clock, b: Clock, c: Clock)
    ensures Le(a, b) && Le(b, c) ==> Le(a, c)
    ensures Le(a, c) && Le(c, b) ==> Le(a, b)
    ensures Le(b, a) && Le(a, c) ==> Le(b, c)
    ensures Le(b, c) && Le(c, a) ==> Le(b, a)
    ensures Le(c, a) && Le(a, b) ==> Le(c, b)
    ensures Le(c, b) && Le(b, a) ==> Le(c, a)
  {
    if Le(a, b) && Le(b, c) { LeTransitive(a, b, c); }
    if Le(a, c) && Le(c, b) { LeTransitive(a, c, b); }
    if Le(b, a) && Le(a, c) { LeTransitive(b, a, c); }
    if Le(b, c) && Le(c, a) { LeTransitive(b, c, a); }
    if Le(c, a) && Le(a, b) { LeTransitive(c, a, b); }
    if Le(c, b) && Le(b, a) { LeTransitive(c, b, a); }
  }

  /** Three entries the comparator orders in a circle contain a wedge. */
  lemma CircleIsWedge(a: Entry, b: Entry, c: Entry)
    requires CompareCausal(a, b) <= 0 && CompareCausal(b, c) <= 0 && CompareCausal(a, c) > 0
    ensures Wedge(c, a, b) || Wedge(a, b, c) || Wedge(b, c, a)
  {
    hide Le, CompareByTime;
    LeAround(a.vc, b.vc, c.vc);
    ComparatorFlips(a, b);
    ComparatorFlips(b, c);
    ComparatorFlips(a, c);
    TimeTransitive(a, b, c);
  }

  /** A wedge is such a circle. */
  lemma WedgeIsCircle(x: Entry, y: Entry, z: Entry)
    requires Wedge(x, y, z)
    ensures CompareCausal(y, z) <= 0 && CompareCausal(z, x) <= 0 && CompareCausal(y, x) > 0
  {
    hide Le, CompareByTime;
  }

  /** The comparator is transitive on some entries exactly when they contain no wedge. */
  lemma TransitiveIffNoWedge(s: seq<Entry>)
    ensures Transitive(s) <==> !HasWedge(s)
  {
    hide CompareCausal, Wedge;
    forall a, b, c | a in s && b in s && c in s && CompareCausal(a, b) <= 0 && CompareCausal(b, c) <= 0
      ensures CompareCausal(a, c) <= 0 || HasWedge(s)
    {
      if CompareCausal(a, c) > 0 {
        CircleIsWedge(a, b, c);
      }
    }
    forall x, y, z | x in s && y in s && z in s && Wedge(x, y, z)
      ensures !Transitive(s)
    {
      WedgeIsCircle(x, y, z);
    }
  }

  // ---------------------------------------------------------------- a discipline on timestamps

  /** Timestamps respect causality, and the events of one node are never concurrent. */
  ghost predicate Disciplined(s: seq<Entry>) {
    forall i, j :: 0 <= i < |s| && 0 <= j < |s| ==> DisciplinedPair(s[i], s[j])
  }

  ghost predicate DisciplinedPair(a: Entry, b: Entry) {
    && (Lt(a.vc, b.vc) ==> a.timestamp < b.timestamp || (a.timestamp == b.timestamp && a.nodeId == b.nodeId))
    && (Lt(b.vc, a.vc) ==> b.timestamp < a.timestamp || (a.timestamp == b.timestamp && a.nodeId == b.nodeId))
    && (a.nodeId == b.nodeId ==> Le(a.vc, b.vc) || Le(b.vc, a.vc))
  }

  /** Timestamp, then node id, then clock. */
  ghost predicate LexLe(a: Entry, b: Entry) {
    a.timestamp < b.timestamp ||
    (a.timestamp == b.timestamp &&
      (StrCmp(a.nodeId, b.nodeId) < 0 || (a.nodeId == b.nodeId && Le(a.vc, b.vc))))
  }

  /** On disciplined entries the comparator is the lexicographic order. */
  lemma ComparatorIsLexicographic(a: Entry, b: Entry)
    requires DisciplinedPair(a, b)
    ensures CompareCausal(a, b) <= 0 <==> LexLe(a, b)
    ensures CompareCausal(a, b) >= 0 <==> LexLe(b, a)
  {
    hide Le, StrCmp;
    StrCmpOrder(a.nodeId, b.nodeId);
    StrCmpOrder(b.nodeId, a.nodeId);
  }

  lemma LexTransitive(a: Entry, b: Entry, c: Entry)
    requires LexLe(a, b) && LexLe(b, c)
    ensures LexLe(a, c)
  {
    hide Le, StrCmp;
    if a.timestamp == b.timestamp == c.timestamp {
      if StrCmp(a.nodeId, b.nodeId) < 0 && StrCmp(b.nodeId, c.nodeId) < 0 {
        StrCmpTransitive(a.nodeId, b.nodeId, c.nodeId);
      } else if a.nodeId == b.nodeId == c.nodeId && Le(a.vc, b.vc) && Le(b.vc, c.vc) {
        LeTransitive(a.vc, b.vc, c.vc);
      }
    }
  }

  /** The comparator is total and transitive on disciplined entries. */
  lemma ComparatorIsTotalPreorder(s: seq<Entry>, i: nat, j: nat, k: nat)
    requires Disciplined(s) && i < |s| && j < |s| && k < |s|
    ensures CompareCausal(s[i], s[j]) <= 0 || CompareCausal(s[j], s[i]) <= 0
    ensures CompareCausal(s[i], s[j]) >= 0 <==> CompareCausal(s[j], s[i]) <= 0
    ensures CompareCausal(s[i], s[j]) <= 0 && CompareCausal(s[j], s[k]) <= 0 ==> CompareCausal(s[i], s[k]) <= 0
    ensures CompareCausal(s[i], s[j]) <= 0 && CompareCausal(s[j], s[i]) <= 0 ==>
      s[i].timestamp == s[j].timestamp && s[i].nodeId == s[j].nodeId && Same(s[i].vc, s[j].vc)
  {
    assert DisciplinedPair(s[i], s[j]) && DisciplinedPair(s[j], s[i]);
    assert DisciplinedPair(s[j], s[k]) && DisciplinedPair(s[i], s[k]);
    hide CompareCausal, DisciplinedPair, Le, StrCmp;
    ComparatorIsLexicographic(s[i], s[j]);
    ComparatorIsLexicographic(s[j], s[i]);
    ComparatorIsLexicographic(s[j], s[k]);
    ComparatorIsLexicographic(s[i], s[k]);
    StrCmpOrder(s[i].nodeId, s[j].nodeId);
    if LexLe(s[i], s[j]) && LexLe(s[j], s[k]) {
      LexTransitive(s[i], s[j], s[k]);
    }
  }

  lemma DisciplinedTriple(x: Entry, y: Entry, z: Entry)
    requires DisciplinedPair(x, y) && DisciplinedPair(x, z)
    ensures !Wedge(x, y, z)
  {
    hide Le, StrCmp;
    StrCmpOrder(y.nodeId, z.nodeId);
    StrCmpOrder(z.nodeId, x.nodeId);
  }

  lemma DisciplinedHasNoWedge(s: seq<Entry>)
    requires Disciplined(s)
    ensures !HasWedge(s)
  {
    hide Wedge, DisciplinedPair;
    forall x, y, z | x in s && y in s && z in s
      ensures !Wedge(x, y, z)
    {
      DisciplinedTriple(x, y, z);
    }
  }

  // ---------------------------------------------------------------- sorting

  /** What a sort with this comparator establishes: neighbours are in order. */
  ghost predicate NeighboursInOrder(s: seq<Entry>) {
    forall i :: 0 <= i < |s| - 1 ==> CompareCausal(s[i], s[i + 1]) <= 0
  }

  ghost predicate Sorted(s: seq<Entry>) {
    forall i, j :: 0 <= i < j < |s| ==> CompareCausal(s[i], s[j]) <= 0
  }

  /** No entry stands before one it depends on. */
  ghost predicate LinearExtension(s: seq<Entry>) {
    forall i, j :: 0 <= i < j < |s| ==> !Lt(s[j].vc, s[i].vc)
  }

  lemma {:induction false} InOrder(s: seq<Entry>, i: nat, j: nat)
    requires Transitive(s) && NeighboursInOrder(s) && i < j < |s|
    ensures CompareCausal(s[i], s[j]) <= 0
    decreases j - i
  {
    hide CompareCausal;
    if i + 1 < j {
      InOrder(s, i, j - 1);
      assert CompareCausal(s[j - 1], s[j - 1 + 1]) <= 0;
    }
  }

  /** Without a wedge, a store sorted by the causal comparator is sorted throughout and a linear
      extension of happens-before. */
  lemma SortedIsLinearExtension(s: seq<Entry>)
    requires NeighboursInOrder(s) && !HasWedge(s)
    ensures Sorted(s) && LinearExtension(s)
  {
    hide HasWedge, Transitive;
    TransitiveIffNoWedge(s);
    forall i, j | 0 <= i < j < |s|
      ensures CompareCausal(s[i], s[j]) <= 0 && !Lt(s[j].vc, s[i].vc)
    {
      InOrder(s, i, j);
    }
  }

  lemma SameMembers(s: seq<Entry>, t: seq<Entry>)
    requires multiset(s) == multiset(t)
    ensures forall e :: e in s <==> e in t
  {
    assert forall e :: e in s <==> e in multiset(s);
    assert forall e :: e in t <==> e in multiset(t);
  }

  ghost predicate IsSortOf(t: seq<Entry>, s: seq<Entry>) {
    multiset(t) == multiset(s) && NeighboursInOrder(t)
  }

  /** Whatever way a sort arranges the entries, the result is a linear extension: this holds
      exactly when the entries contain no wedge. */
  lemma SortIsCausalIffNoWedge(s: seq<Entry>)
    ensures (forall t :: IsSortOf(t, s) ==> LinearExtension(t)) <==> !HasWedge(s)
  {
    hide LinearExtension, NeighboursInOrder, Wedge;
    if HasWedge(s) {
      var x, y, z :| x in s && y in s && z in s && Wedge(x, y, z);
      var t := BadSort(s, x, y, z);
    } else {
      forall t | IsSortOf(t, s)
        ensures LinearExtension(t)
      {
        SameMembers(s, t);
        SortedIsLinearExtension(t);
      }
    }
  }

  /** `y` stands before `x`. */
  ghost predicate Before(t: seq<Entry>, y: Entry, x: Entry) {
    exists i, j :: 0 <= i < j < |t| && t[i] == y && t[j] == x
  }

  /** From a wedge: start from `y`, `z`, `x` and insert everything else the way the server does. */
  lemma BadSort(s: seq<Entry>, x: Entry, y: Entry, z: Entry) returns (t: seq<Entry>)
    requires x in s && y in s && z in s && Wedge(x, y, z)
    ensures IsSortOf(t, s) && !LinearExtension(t)
  {
    hide CompareCausal, Wedge, Lt, EntriesOf, NeighboursInOrder, LinearExtension;
    var b := WedgeStart(s, x, y, z);
    b := InsertAll(b, multiset(s) - multiset{y, z, x}, y, x);
    t := EntriesOf(b);
    BeforeBreaks(t, y, x);
  }

  lemma BeforeBreaks(t: seq<Entry>, y: Entry, x: Entry)
    requires Before(t, y, x) && Lt(x.vc, y.vc)
    ensures !LinearExtension(t)
  {
    hide Lt;
  }

  lemma WedgeStart(s: seq<Entry>, x: Entry, y: Entry, z: Entry) returns (b: seq<Waiting>)
    requires x in s && y in s && z in s && Wedge(x, y, z)
    ensures NeighboursInOrder(EntriesOf(b)) && Before(EntriesOf(b), y, x)
    ensures multiset(EntriesOf(b)) == multiset{y, z, x} <= multiset(s) && Lt(x.vc, y.vc)
  {
    WedgeIsCircle(x, y, z);
    WedgeOrder(x, y, z);
    hide CompareCausal, Wedge, Lt, EntriesOf;
    b := [Waiting(y, 0), Waiting(z, 0), Waiting(x, 0)];
    EntriesAt(b);
    var t := [y, z, x];
    assert EntriesOf(b) == t;
    assert t[0] == y && t[2] == x;
  }

  lemma WedgeOrder(x: Entry, y: Entry, z: Entry)
    requires Wedge(x, y, z)
    ensures Lt(x.vc, y.vc) && x != y && y != z && z != x
  {
  }

  lemma {:induction false} InsertAll(b: seq<Waiting>, m: multiset<Entry>, y: Entry, x: Entry)
    returns (c: seq<Waiting>)
    requires NeighboursInOrder(EntriesOf(b)) && Before(EntriesOf(b), y, x)
    ensures NeighboursInOrder(EntriesOf(c)) && Before(EntriesOf(c), y, x)
    ensures multiset(EntriesOf(c)) == multiset(EntriesOf(b)) + m
    decreases |m|
  {
    hide CompareCausal, NeighboursInOrder, Before, EntriesOf, InsertAt;
    c := b;
    if m != multiset{} {
      var e :| e in m;
      var v := View([], b, [], []);
      InsertKeepsNeighbours(v, e, 0);
      InsertKeepsBefore(v, e, 0, y, x);
      c := InsertAll(Insert(v, e, 0).buffer, m - multiset{e}, y, x);
      assert m == multiset{e} + (m - multiset{e});
    }
  }

  /** Three entries whose neighbours are in order, the last of which happens before the first. */
  lemma SortCanBreakCausality()
    ensures var s := [Entry("a", [2, 0], 1, 1, ""), Entry("b", [0, 1], 2, 1, ""), Entry("a", [1, 0], 3, 1, "")];
      NeighboursInOrder(s) && !LinearExtension(s) && Wedge(s[2], s[0], s[1])
  {
    var a, b, c := Entry("a", [2, 0], 1, 1, ""), Entry("b", [0, 1], 2, 1, ""), Entry("a", [1, 0], 3, 1, "");
    var s := [a, b, c];
    assert a.vc[0] > At(b.vc, 0) && b.vc[1] > At(a.vc, 1);
    assert c.vc[0] > At(b.vc, 0) && b.vc[1] > At(c.vc, 1);
    assert a.vc[0] > At(c.vc, 0);
    assert Lt(c.vc, a.vc) && !Le(a.vc, b.vc) && !Le(b.vc, a.vc) && !Le(c.vc, b.vc) && !Le(b.vc, c.vc);
    hide Le, StrCmp;
    WedgeIsCircle(c, a, b);
    BeforeBreaks(s, s[0], s[2]);
  }

  // ---------------------------------------------------------------- the waiting list

  lemma {:induction false} InsertAtSplits(buffer: seq<Waiting>, e: Entry)
    ensures var k := InsertAt(buffer, e);
      && (forall i :: 0 <= i < k ==> CompareCausal(e, buffer[i].entry) >= 0)
      && (k < |buffer| ==> CompareCausal(e, buffer[k].entry) < 0)
    decreases |buffer|
  {
    hide CompareCausal;
    if buffer != [] && CompareCausal(e, buffer[0].entry) >= 0 {
      InsertAtSplits(buffer[1..], e);
      var k := InsertAt(buffer[1..], e);
      forall i | 0 <= i < k + 1
        ensures CompareCausal(e, buffer[i].entry) >= 0
      {
        if i > 0 { assert buffer[i] == buffer[1..][i - 1]; }
      }
    }
  }

  lemma Spliced(s: seq<Entry>, k: nat, e: Entry)
    requires k <= |s|
    ensures multiset(s[..k] + [e] + s[k..]) == multiset(s) + multiset{e}
  {
    assert s == s[..k] + s[k..];
  }

  /** Where the entry stands after insertion, and what is on its two sides. */
  lemma Inserted(v: View, e: Entry, now: nat) returns (k: nat)
    ensures var s, t := EntriesOf(v.buffer), EntriesOf(Insert(v, e, now).buffer);
      && k <= |s| && t == s[..k] + [e] + s[k..]
      && (forall i :: 0 <= i < k ==> CompareCausal(s[i], e) <= 0)
      && (k < |s| ==> CompareCausal(e, s[k]) < 0)
      && multiset(t) == multiset(s) + multiset{e}
  {
    hide CompareCausal, EntriesOf, InsertAt;
    k := InsertAt(v.buffer, e);
    InsertAtSplits(v.buffer, e);
    EntriesAt(v.buffer);
    EntriesAt(Insert(v, e, now).buffer);
    var s := EntriesOf(v.buffer);
    assert EntriesOf(Insert(v, e, now).buffer) == s[..k] + [e] + s[k..];
    Spliced(s, k, e);
    forall i | 0 <= i < k
      ensures CompareCausal(s[i], e) <= 0
    {
      ComparatorFlips(s[i], e);
    }
  }

  /** Insertion keeps neighbours in order, whatever the entries. */
  lemma InsertKeepsNeighbours(v: View, e: Entry, now: nat)
    requires NeighboursInOrder(EntriesOf(v.buffer))
    ensures var w := Insert(v, e, now);
      NeighboursInOrder(EntriesOf(w.buffer)) && multiset(EntriesOf(w.buffer)) == multiset(EntriesOf(v.buffer)) + multiset{e}
  {
    hide CompareCausal, EntriesOf, InsertAt, Insert;
    var k := Inserted(v, e, now);
    var s, t := EntriesOf(v.buffer), EntriesOf(Insert(v, e, now).buffer);
    forall i | 0 <= i < |t| - 1
      ensures CompareCausal(t[i], t[i + 1]) <= 0
    {
      if i > k {
        assert t[i] == s[i - 1] && t[i + 1] == s[i - 1 + 1];
      }
    }
  }

  lemma InsertKeepsBefore(v: View, e: Entry, now: nat, y: Entry, x: Entry)
    requires Before(EntriesOf(v.buffer), y, x)
    ensures Before(EntriesOf(Insert(v, e, now).buffer), y, x)
  {
    hide CompareCausal, EntriesOf, InsertAt, Insert;
    var k := Inserted(v, e, now);
    var s, t := EntriesOf(v.buffer), EntriesOf(Insert(v, e, now).buffer);
    var i, j :| 0 <= i < j < |s| && s[i] == y && s[j] == x;
    assert t[if i < k then i else i + 1] == y && t[if j < k then j else j + 1] == x;
  }

  /** Without a wedge insertion keeps the waiting list sorted throughout. */
  lemma InsertKeepsSorted(v: View, e: Entry, now: nat)
    requires Sorted(EntriesOf(v.buffer)) && !HasWedge(EntriesOf(v.buffer) + [e])
    ensures Sorted(EntriesOf(Insert(v, e, now).buffer))
  {
    hide CompareCausal, HasWedge, EntriesOf, InsertAt, Insert;
    var k := Inserted(v, e, now);
    var s, t := EntriesOf(v.buffer), EntriesOf(Insert(v, e, now).buffer);
    TransitiveIffNoWedge(s + [e]);
    forall i, j | 0 <= i < j < |t|
      ensures CompareCausal(t[i], t[j]) <= 0
    {
      if i == k && j - 1 > k {
        assert s[k] in s + [e] && s[j - 1] in s + [e] && e in s + [e];
        assert CompareCausal(s[k], s[j - 1]) <= 0;
      }
    }
  }

  /** Disciplined timestamps are enough for both. */
  lemma DisciplinedStaysSorted(v: View, e: Entry, now: nat)
    requires Sorted(EntriesOf(v.buffer)) && Disciplined(EntriesOf(v.buffer) + [e])
    ensures Sorted(EntriesOf(Insert(v, e, now).buffer))
    ensures LinearExtension(EntriesOf(Insert(v, e, now).buffer))
  {
    hide CompareCausal, HasWedge, EntriesOf, Insert, Disciplined;
    DisciplinedHasNoWedge(EntriesOf(v.buffer) + [e]);
    InsertKeepsSorted(v, e, now);
    SortedHasNoInversion(EntriesOf(Insert(v, e, now).buffer));
  }

  lemma SortedHasNoInversion(s: seq<Entry>)
    requires Sorted(s)
    ensures LinearExtension(s)
  {
  }
}
