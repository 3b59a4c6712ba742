/** The in-memory store with its duplicate filter: a hash of node id and raw clock memory picks a
    bucket, and only that bucket is searched. It replaced a scan over the whole store. */
module Dedup {
  import opened ClockHash
  import opened VectorClock

  const INIT_CAPACITY := 1024

  datatype Record = Record(nodeId: string, vc: Raw, payload: string)

  /** The two entries are the same event to the filter. */
  ghost predicate SameEvent(a: Record, b: Record) {
    a.vc.Valid() && b.vc.Valid() && a.nodeId == b.nodeId && Same(a.vc.Clock(), b.vc.Clock())
  }

  lemma SameEventEquivalence(a: Record, b: Record, c: Record)
    requires SameEvent(a, b) && SameEvent(b, c)
    ensures SameEvent(b, a) && SameEvent(a, c)
  {
    LeTransitive(a.vc.Clock(), b.vc.Clock(), c.vc.Clock());
    LeTransitive(c.vc.Clock(), b.vc.Clock(), a.vc.Clock());
  }

  /** A component of a clock: a word in use, or 0. */
  function Used(r: Raw, i: nat): nat {
    if i < r.nodeCount && i < |r.words| then r.words[i] else 0
  }

  /** The same node and the same 32 components; nothing else is looked at. */
  lemma SameEventIs(a: Record, b: Record)
    requires a.vc.Valid() && b.vc.Valid()
    ensures SameEvent(a, b) <==> a.nodeId == b.nodeId && forall i :: 0 <= i < 32 ==> Used(a.vc, i) == Used(b.vc, i)
  {
    var x, y := a.vc.Clock(), b.vc.Clock();
    assert forall i: nat :: At(x, i) == Used(a.vc, i) && At(y, i) == Used(b.vc, i);
    hide Used;
    if Same(x, y) {
      forall i | 0 <= i < 32 ensures At(x, i) == At(y, i) {
        if i < |x| { assert x[i] <= At(y, i); }
        if i < |y| { assert y[i] <= At(x, i); }
      }
    }
    if forall i :: 0 <= i < 32 ==> Used(a.vc, i) == Used(b.vc, i) {
      forall i | 0 <= i < |x| ensures x[i] <= At(y, i) { assert Used(a.vc, i) == Used(b.vc, i); }
      forall i | 0 <= i < |y| ensures y[i] <= At(x, i) { assert Used(a.vc, i) == Used(b.vc, i); }
    }
  }

  lemma SameEventSymmetric(a: Record, b: Record)
    ensures SameEvent(a, b) <==> SameEvent(b, a)
  {
  }

  /** The hash is a parameter: any function of node id and clock memory, into the buckets. */
  type Hash = (string, Raw) -> nat

  ghost predicate HashInRange(h: Hash) {
    forall n, r :: h(n, r) < BUCKETS
  }

  lemma BucketInRange()
    ensures HashInRange(Bucket)
  {
  }

  // ---------------------------------------------------------------- specification

  /** The old scan: keeps an entry when no earlier entry is the same event. */
  ghost function FirstOccurrences(es: seq<Record>): seq<Record> {
    if es == [] then []
    else
      var n := |es| - 1;
      if exists i :: 0 <= i < n && SameEvent(es[i], es[n]) then FirstOccurrences(es[..n])
      else FirstOccurrences(es[..n]) + [es[n]]
  }

  /** The filter: keeps an entry when no earlier kept entry of the same bucket is the same event. */
  ghost function Kept(h: Hash, es: seq<Record>): seq<Record> {
    if es == [] then []
    else
      var n := |es| - 1;
      var kept := Kept(h, es[..n]);
      if FoundIn(h, kept, es[n]) then kept else kept + [es[n]]
  }

  ghost predicate FoundIn(h: Hash, kept: seq<Record>, e: Record) {
    exists i :: 0 <= i < |kept| && h(kept[i].nodeId, kept[i].vc) == h(e.nodeId, e.vc) && SameEvent(kept[i], e)
  }

  /** Same events hash alike among these entries. */
  ghost predicate HashRespects(h: Hash, es: seq<Record>) {
    forall i, j :: 0 <= i < j < |es| && SameEvent(es[i], es[j]) ==>
      h(es[i].nodeId, es[i].vc) == h(es[j].nodeId, es[j].vc)
  }

  ghost predicate AllValid(es: seq<Record>) {
    forall i :: 0 <= i < |es| ==> es[i].vc.Valid()
  }

  /** No earlier entry is the same event. */
  ghost predicate IsFirst(es: seq<Record>, i: nat)
    requires i < |es|
  {
    forall j :: 0 <= j < i ==> !SameEvent(es[j], es[i])
  }

  /** These entries stand at these positions, in order. */
  ghost predicate StandAt(es: seq<Record>, kept: seq<Record>, at: seq<nat>) {
    && |at| == |kept|
    && (forall k :: 0 <= k < |at| ==> at[k] < |es| && kept[k] == es[at[k]])
    && (forall k, l :: 0 <= k < l < |at| ==> at[k] < at[l])
  }

  /** These positions are those of the first entry of each event, in order, and the entries there are
      what the scan keeps. */
  ghost predicate Firsts(es: seq<Record>, at: seq<nat>) {
    && StandAt(es, FirstOccurrences(es), at)
    && (forall i :: 0 <= i < |es| ==> (i in at <==> IsFirst(es, i)))
  }

  /** What the scan keeps. */
  lemma {:induction false} FirstOccurrencesAre(es: seq<Record>) returns (at: seq<nat>)
    ensures Firsts(es, at)
    decreases |es|
  {
    if es == [] {
      at := [];
    } else {
      hide Firsts;
      var n := |es| - 1;
      at := FirstOccurrencesAre(es[..n]);
      at := FirstsMore(es, at);
    }
  }

  lemma FirstsMore(es: seq<Record>, before: seq<nat>) returns (at: seq<nat>)
    requires es != [] && Firsts(es[..|es| - 1], before)
    ensures Firsts(es, at)
  {
    var n := |es| - 1;
    at := if IsFirst(es, n) then before + [n] else before;
    ScanStep(es);
    hide SameEvent, FirstOccurrences, IsFirst;
    StandMore(es, FirstOccurrences(es[..n]), before);
    hide StandAt;
    forall i | 0 <= i < |es|
      ensures i in at <==> IsFirst(es, i)
    {
      InMore(es, before, at, i);
    }
  }

  lemma InMore(es: seq<Record>, before: seq<nat>, at: seq<nat>, i: nat)
    requires i < |es| && Firsts(es[..|es| - 1], before) && |es| - 1 !in before
    requires at == if IsFirst(es, |es| - 1) then before + [|es| - 1] else before
    ensures i in at <==> IsFirst(es, i)
  {
    hide SameEvent, FirstOccurrences, StandAt, IsFirst;
    if i < |es| - 1 {
      assert i in before <==> IsFirst(es[..|es| - 1], i);
      FirstStays(es, i);
    }
  }

  lemma StandMore(es: seq<Record>, kept: seq<Record>, at: seq<nat>)
    requires es != [] && StandAt(es[..|es| - 1], kept, at)
    ensures StandAt(es, kept, at) && StandAt(es, kept + [es[|es| - 1]], at + [|es| - 1]) && |es| - 1 !in at
  {
  }

  lemma ScanStep(es: seq<Record>)
    requires es != []
    ensures var n := |es| - 1;
      FirstOccurrences(es) == FirstOccurrences(es[..n]) + if IsFirst(es, n) then [es[n]] else []
  {
    hide SameEvent;
  }

  lemma FirstStays(es: seq<Record>, i: nat)
    requires i < |es| - 1
    ensures IsFirst(es, i) <==> IsFirst(es[..|es| - 1], i)
  {
    hide SameEvent;
  }

  /** Every entry has a kept entry that is the same event, and kept entries are entries. */
  lemma {:induction false} KeptCovers(es: seq<Record>, i: nat)
    requires AllValid(es) && i < |es|
    ensures exists k :: 0 <= k < |FirstOccurrences(es)| && SameEvent(FirstOccurrences(es)[k], es[i])
    decreases |es|
  {
    var n := |es| - 1;
    var first := FirstOccurrences(es[..n]);
    if i < n {
      KeptCovers(es[..n], i);
      var k :| 0 <= k < |first| && SameEvent(first[k], es[..n][i]);
      assert SameEvent(FirstOccurrences(es)[k], es[i]);
    } else if j :| 0 <= j < n && SameEvent(es[j], es[n]) {
      KeptCovers(es[..n], j);
      var k :| 0 <= k < |first| && SameEvent(first[k], es[..n][j]);
      SameEventEquivalence(first[k], es[j], es[n]);
      assert SameEvent(FirstOccurrences(es)[k], es[i]);
    } else {
      assert FirstOccurrences(es)[|first|] == es[i];
      assert SameEvent(es[i], es[i]);
    }
  }

  lemma {:induction false} KeptIsEntry(es: seq<Record>, k: nat)
    requires k < |FirstOccurrences(es)|
    ensures exists i :: 0 <= i < |es| && es[i] == FirstOccurrences(es)[k]
    decreases |es|
  {
    var n := |es| - 1;
    var first := FirstOccurrences(es[..n]);
    if k < |first| {
      KeptIsEntry(es[..n], k);
      var i :| 0 <= i < n && es[..n][i] == first[k];
      assert es[i] == FirstOccurrences(es)[k];
    } else {
      assert es[n] == FirstOccurrences(es)[k];
    }
  }

  lemma {:induction false} FilteredIsEntry(h: Hash, es: seq<Record>, k: nat)
    requires k < |Kept(h, es)|
    ensures exists i :: 0 <= i < |es| && es[i] == Kept(h, es)[k]
    decreases |es|
  {
    var n := |es| - 1;
    var kept := Kept(h, es[..n]);
    if k < |kept| {
      FilteredIsEntry(h, es[..n], k);
      var i :| 0 <= i < n && es[..n][i] == kept[k];
      assert es[i] == Kept(h, es)[k];
    } else {
      assert es[n] == Kept(h, es)[k];
    }
  }

  /** The filter keeps at least what the scan keeps; once it keeps more, it always has more. */
  lemma {:induction false} FilterKeepsMore(h: Hash, es: seq<Record>)
    ensures |Kept(h, es)| >= |FirstOccurrences(es)|
    ensures |Kept(h, es)| == |FirstOccurrences(es)| ==> Kept(h, es) == FirstOccurrences(es)
    ensures es != [] && |Kept(h, es[..|es| - 1])| > |FirstOccurrences(es[..|es| - 1])| ==>
      |Kept(h, es)| > |FirstOccurrences(es)|
    decreases |es|
  {
    hide SameEvent;
    if es != [] {
      var n := |es| - 1;
      var kept := Kept(h, es[..n]);
      FilterKeepsMore(h, es[..n]);
      if FoundIn(h, kept, es[n]) {
        var k :| 0 <= k < |kept| && SameEvent(kept[k], es[n]);
        FilteredIsEntry(h, es[..n], k);
        var i :| 0 <= i < n && es[..n][i] == kept[k];
        assert SameEvent(es[i], es[n]);
      }
    }
  }

  lemma FoundIsEarlier(h: Hash, es: seq<Record>)
    requires es != []
    ensures FoundIn(h, FirstOccurrences(es[..|es| - 1]), es[|es| - 1]) ==>
      exists i :: 0 <= i < |es| - 1 && SameEvent(es[i], es[|es| - 1])
  {
    hide SameEvent;
    var n := |es| - 1;
    var first := FirstOccurrences(es[..n]);
    if k :| 0 <= k < |first| && SameEvent(first[k], es[n]) {
      KeptIsEntry(es[..n], k);
      var m :| 0 <= m < n && es[..n][m] == first[k];
      assert SameEvent(es[m], es[n]);
    }
  }

  /** One entry more, once the filter agreed with the scan so far. */
  lemma {:induction false} OneMore(h: Hash, es: seq<Record>)
    requires es != [] && AllValid(es)
    requires Kept(h, es[..|es| - 1]) == FirstOccurrences(es[..|es| - 1])
    requires HashRespects(h, es[..|es| - 1])
    ensures Kept(h, es) == FirstOccurrences(es) <==> HashRespects(h, es)
  {
    hide Same;
    var n := |es| - 1;
    var e, before := es[n], es[..n];
    var first := FirstOccurrences(before);
    if i :| 0 <= i < n && SameEvent(es[i], e) {
      if FoundIn(h, first, e) {
        FoundRespects(h, es, first);
      } else {
        MissedDuplicate(h, es, i);
        assert |Kept(h, es)| == |first| + 1;
      }
    } else {
      FoundIsEarlier(h, es);
      forall i, j | 0 <= i < j < |es| && SameEvent(es[i], es[j])
        ensures h(es[i].nodeId, es[i].vc) == h(es[j].nodeId, es[j].vc)
      {
        assert j < n && es[i] == before[i] && es[j] == before[j];
      }
    }
  }

  /** A duplicate that is not found in its bucket hashes apart from an earlier entry. */
  lemma MissedDuplicate(h: Hash, es: seq<Record>, i: nat)
    requires AllValid(es) && i < |es| - 1 && SameEvent(es[i], es[|es| - 1])
    requires !FoundIn(h, FirstOccurrences(es[..|es| - 1]), es[|es| - 1])
    ensures !HashRespects(h, es)
  {
    hide Same;
    var n := |es| - 1;
    var before := es[..n];
    var first := FirstOccurrences(before);
    KeptCovers(before, i);
    var k :| 0 <= k < |first| && SameEvent(first[k], before[i]);
    SameEventEquivalence(first[k], es[i], es[n]);
    KeptIsEntry(before, k);
    var m :| 0 <= m < n && before[m] == first[k];
    assert es[m] == first[k] && SameEvent(es[m], es[n]);
    assert h(es[m].nodeId, es[m].vc) != h(es[n].nodeId, es[n].vc);
  }

  lemma FoundRespects(h: Hash, es: seq<Record>, first: seq<Record>)
    requires es != [] && AllValid(es)
    requires first == FirstOccurrences(es[..|es| - 1]) && FoundIn(h, first, es[|es| - 1])
    requires HashRespects(h, es[..|es| - 1])
    ensures HashRespects(h, es)
  {
    hide Same;
    var n := |es| - 1;
    var e, before := es[n], es[..n];
    var k :| 0 <= k < |first| && h(first[k].nodeId, first[k].vc) == h(e.nodeId, e.vc) && SameEvent(first[k], e);
    KeptIsEntry(before, k);
    var m :| 0 <= m < n && before[m] == first[k];
    forall i, j | 0 <= i < j < |es| && SameEvent(es[i], es[j])
      ensures h(es[i].nodeId, es[i].vc) == h(es[j].nodeId, es[j].vc)
    {
      if j < n {
        assert es[i] == before[i] && es[j] == before[j];
      } else {
        SameEventSymmetric(es[m], e);
        SameEventEquivalence(es[i], e, es[m]);
        SameEventSymmetric(es[i], es[m]);
        assert before[i] == es[i] && before[m] == es[m];
        if i < m { assert SameEvent(before[i], before[m]); }
        if m < i { assert SameEvent(before[m], before[i]); }
      }
    }
  }

  /** The filter keeps what the scan kept exactly when no event appears in two clock memories
      that hash differently. */
  lemma {:induction false} FilterIsScan(h: Hash, es: seq<Record>)
    requires AllValid(es)
    ensures Kept(h, es) == FirstOccurrences(es) <==> HashRespects(h, es)
    decreases |es|
  {
    if es != [] {
      hide SameEvent, FoundIn;
      var before := es[..|es| - 1];
      FilterIsScan(h, before);
      FilterKeepsMore(h, es);
      FilterKeepsMore(h, before);
      if HashRespects(h, before) {
        OneMore(h, es);
      } else {
        PrefixRespects(h, es);
      }
    }
  }

  lemma PrefixRespects(h: Hash, es: seq<Record>)
    requires es != []
    ensures HashRespects(h, es) ==> HashRespects(h, es[..|es| - 1])
  {
    hide SameEvent;
  }

  /** Clocks of one node count, with zero padding and zero unused words. */
  ghost predicate Canonical(es: seq<Record>, n: nat) {
    AllValid(es) && forall i :: 0 <= i < |es| ==>
      es[i].vc.nodeCount == n && es[i].vc.padding == 0 && forall k :: n <= k < MAX_NODES ==> es[i].vc.words[k] == 0
  }

  /** Such clocks are determined by their value, so no hash can tell equal ones apart. */
  lemma CanonicalClocks(h: Hash, es: seq<Record>, n: nat)
    requires Canonical(es, n)
    ensures Kept(h, es) == FirstOccurrences(es)
  {
    FilterIsScan(h, es);
    forall i, j | 0 <= i < j < |es| && SameEvent(es[i], es[j])
      ensures es[i].vc == es[j].vc
    {
      var a, b := es[i].vc, es[j].vc;
      SameSize(a.Clock(), b.Clock());
      forall k | 0 <= k < MAX_NODES
        ensures a.words[k] == b.words[k]
      {
        if k < n { assert a.Clock()[k] == b.Clock()[k]; }
      }
      assert a.words == b.words;
    }
  }

  /** Two copies of an event in different buckets are both kept. */
  lemma ApartKept(h: Hash, a: Record, b: Record)
    requires SameEvent(a, b) && h(a.nodeId, a.vc) != h(b.nodeId, b.vc)
    ensures FirstOccurrences([a, b]) == [a] && Kept(h, [a, b]) == [a, b]
  {
    assert [a, b][..1] == [a] && [a][..0] == [];
    assert Kept(h, [a]) == [] + [a] && FirstOccurrences([a]) == [] + [a];
    assert [a, b][0] == a && [a, b][1] == b;
    FilterKeepsMore(h, [a, b]);
  }

  /** Trailing zero components make the same clock hash apart, under every node id and with every
      clock: both copies are kept. */
  lemma TrailingZeroKept(nodeId: string, n: nat, m: nat, words: seq<nat>)
    requires |words| == MAX_NODES && n < m <= MAX_NODES && forall k :: n <= k < m ==> words[k] == 0
    ensures var a, b := Record(nodeId, Raw(n, 0, words), ""), Record(nodeId, Raw(m, 0, words), "");
      SameEvent(a, b) && FirstOccurrences([a, b]) == [a] && Kept(Bucket, [a, b]) == [a, b]
  {
    hide Bucket, FirstOccurrences, Kept;
    var a, b := Record(nodeId, Raw(n, 0, words), ""), Record(nodeId, Raw(m, 0, words), "");
    assert SameEvent(a, b);
    NodeCountDecides(nodeId, n, m, 0, words);
    ApartKept(Bucket, a, b);
  }

  // ---------------------------------------------------------------- the store

  /** The buckets hold exactly the kept entries, each in the bucket of its hash. */
  ghost predicate Chained(buckets: seq<seq<Record>>, h: Hash, kept: seq<Record>) {
    && (forall i :: 0 <= i < |kept| ==>
          h(kept[i].nodeId, kept[i].vc) < |buckets| && kept[i] in buckets[h(kept[i].nodeId, kept[i].vc)])
    && (forall b, k :: 0 <= b < |buckets| && 0 <= k < |buckets[b]| ==>
          buckets[b][k] in kept && h(buckets[b][k].nodeId, buckets[b][k].vc) == b)
  }

  lemma ChainedOneMore(buckets: seq<seq<Record>>, h: Hash, kept: seq<Record>, e: Record)
    requires Chained(buckets, h, kept) && h(e.nodeId, e.vc) < |buckets|
    ensures var idx := h(e.nodeId, e.vc);
      Chained(buckets[idx := [e] + buckets[idx]], h, kept + [e])
  {
    var idx := h(e.nodeId, e.vc);
    var more, all := buckets[idx := [e] + buckets[idx]], kept + [e];
    forall i | 0 <= i < |all|
      ensures h(all[i].nodeId, all[i].vc) < |more| && all[i] in more[h(all[i].nodeId, all[i].vc)]
    {
      if i < |kept| {
        assert kept[i] in buckets[h(kept[i].nodeId, kept[i].vc)];
      }
    }
    forall b, k | 0 <= b < |more| && 0 <= k < |more[b]|
      ensures more[b][k] in all && h(more[b][k].nodeId, more[b][k].vc) == b
    {
      if b == idx && k > 0 {
        assert more[b][k] == buckets[b][k - 1];
      } else if b != idx {
        assert more[b][k] == buckets[b][k];
      }
    }
  }

  /** What is in the bucket of an entry decides whether it is found. */
  lemma ChainDecides(buckets: seq<seq<Record>>, h: Hash, kept: seq<Record>, e: Record)
    requires Chained(buckets, h, kept) && h(e.nodeId, e.vc) < |buckets|
    ensures var chain := buckets[h(e.nodeId, e.vc)];
      FoundIn(h, kept, e) <==> exists k :: 0 <= k < |chain| && SameEvent(chain[k], e)
  {
    hide SameEvent;
    var chain := buckets[h(e.nodeId, e.vc)];
    if k :| 0 <= k < |chain| && SameEvent(chain[k], e) {
      var i :| 0 <= i < |kept| && kept[i] == chain[k];
    }
  }

  /** Hash table with chains, the newest entry first. */
  class Filter {
    const buckets: array<seq<Record>>

    constructor ()
      ensures buckets.Length == BUCKETS && fresh(buckets)
      ensures forall b :: 0 <= b < BUCKETS ==> buckets[b] == []
    {
      buckets := new seq<Record>[BUCKETS](_ => []);
    }

    ghost predicate Holds(h: Hash, kept: seq<Record>)
      reads buckets
    {
      buckets.Length == BUCKETS && Chained(buckets[..], h, kept)
    }

    /** Reports a duplicate, or inserts the entry at the head of its bucket. */
    method CheckAndInsert(e: Record, h: Hash, ghost kept: seq<Record>) returns (duplicate: bool)
      requires HashInRange(h) && Holds(h, kept)
      requires e.vc.Valid() && AllValid(kept)
      modifies buckets
      ensures duplicate <==> FoundIn(h, kept, e)
      ensures Holds(h, if duplicate then kept else kept + [e])
    {
      var idx := h(e.nodeId, e.vc);
      var chain := buckets[idx];
      ghost var all := buckets[..];
      ChainDecides(all, h, kept, e);
      ChainValid(all, h, kept, idx);
      hide Chained, FoundIn;
      var curr := 0;
      while curr < |chain|
        invariant 0 <= curr <= |chain| && buckets[..] == all
        invariant forall k :: 0 <= k < curr ==> !SameEvent(chain[k], e)
      {
        var node := buckets[idx][curr];
        if node.nodeId == e.nodeId {
          var rel := Compare(node.vc.Clock(), e.vc.Clock());
          if rel == Equal {
            assert SameEvent(chain[curr], e);
            return true;
          }
        }
        curr := curr + 1;
      }
      ChainedOneMore(all, h, kept, e);
      buckets[idx] := [e] + buckets[idx];
      assert buckets[..] == all[idx := [e] + all[idx]];
      return false;
    }
  }

  lemma ChainValid(buckets: seq<seq<Record>>, h: Hash, kept: seq<Record>, b: nat)
    requires Chained(buckets, h, kept) && AllValid(kept) && b < |buckets|
    ensures forall k :: 0 <= k < |buckets[b]| ==> buckets[b][k].vc.Valid()
  {
    forall k | 0 <= k < |buckets[b]|
      ensures buckets[b][k].vc.Valid()
    {
      var i :| 0 <= i < |kept| && kept[i] == buckets[b][k];
    }
  }

  class Store {
    var entries: array<Record>
    var count: nat
    const filter: Filter

    ghost predicate Valid()
      reads this
    {
      entries.Length > 0 && count <= entries.Length
    }

    ghost function Contents(): seq<Record>
      requires Valid()
      reads this, entries
    {
      entries[..count]
    }

    constructor (blank: Record)
      ensures Valid() && Contents() == [] && fresh(entries) && fresh(filter) && fresh(filter.buckets)
      ensures forall h :: filter.Holds(h, Contents())
    {
      entries := new Record[INIT_CAPACITY](_ => blank);
      count := 0;
      filter := new Filter();
    }

    /** Doubles the capacity. */
    method Expand(blank: Record)
      requires Valid()
      modifies `entries
      ensures Valid() && Contents() == old(Contents()) && count == old(count) && fresh(entries)
      ensures entries.Length == 2 * old(entries.Length)
    {
      var bigger := new Record[2 * entries.Length](_ => blank);
      forall i | 0 <= i < count {
        bigger[i] := entries[i];
      }
      entries := bigger;
    }

    /** Appends unless the filter knows the event; `es` is what was appended before. */
    method Append(e: Record, h: Hash, blank: Record, ghost es: seq<Record>)
      requires Valid() && HashInRange(h) && e.vc.Valid() && AllValid(es)
      requires Contents() == Kept(h, es) && filter.Holds(h, Contents())
      modifies this, entries, filter.buckets
      ensures Valid() && (entries == old(entries) || fresh(entries))
      ensures Contents() == Kept(h, es + [e]) && filter.Holds(h, Contents())
    {
      hide SameEvent, AllValid;
      assert (es + [e])[..|es|] == es;
      ghost var kept := Contents();
      KeptValid(h, es);
      var duplicate := filter.CheckAndInsert(e, h, kept);
      if duplicate {
        return;
      }
      Add(e, blank);
    }

    method Add(e: Record, blank: Record)
      requires Valid()
      modifies this, entries
      ensures Valid() && (entries == old(entries) || fresh(entries))
      ensures Contents() == old(Contents()) + [e]
    {
      if count >= entries.Length {
        Expand(blank);
      }
      entries[count] := e;
      count := count + 1;
    }
  }

  lemma KeptValid(h: Hash, es: seq<Record>)
    requires AllValid(es)
    ensures AllValid(Kept(h, es))
  {
    forall k | 0 <= k < |Kept(h, es)|
      ensures Kept(h, es)[k].vc.Valid()
    {
      FilteredIsEntry(h, es, k);
    }
  }

  lemma KeptNone(h: Hash)
    ensures Kept(h, []) == []
  {
  }

  lemma ValidAt(es: seq<Record>, i: nat)
    requires AllValid(es) && i < |es|
    ensures es[i].vc.Valid() && AllValid(es[..i])
  {
  }

  /** Any number of appends to a new store. */
  method AppendAll(es: seq<Record>, h: Hash, blank: Record) returns (store: Store)
    requires HashInRange(h) && AllValid(es)
    ensures store.Valid() && store.Contents() == Kept(h, es) && store.filter.Holds(h, store.Contents())
    ensures store.Contents() == FirstOccurrences(es) <==> HashRespects(h, es)
  {
    hide SameEvent, AllValid, Kept, FirstOccurrences, HashRespects, HashInRange;
    store := new Store(blank);
    assert es[..0] == [];
    assert Kept(h, []) == [] by { KeptNone(h); }
    for i := 0 to |es|
      invariant store.Valid() && store.Contents() == Kept(h, es[..i]) && store.filter.Holds(h, store.Contents())
      invariant fresh(store) && fresh(store.entries) && fresh(store.filter.buckets)
    {
      ValidAt(es, i);
      store.Append(es[i], h, blank, es[..i]);
      assert es[..i + 1] == es[..i] + [es[i]];
    }
    assert es[..|es|] == es;
    FilterIsScan(h, es);
  }

  /** The program's own store: over canonical clocks it holds the first occurrence of every event. */
  method AppendCanonical(es: seq<Record>, blank: Record, ghost n: nat) returns (store: Store)
    requires Canonical(es, n)
    ensures store.Valid() && store.Contents() == FirstOccurrences(es)
    ensures store.filter.Holds(Bucket, store.Contents())
  {
    hide Canonical, Bucket, FirstOccurrences, Kept, HashRespects;
    BucketInRange();
    assert AllValid(es) by { CanonicalValid(es, n); }
    store := AppendAll(es, Bucket, blank);
    CanonicalClocks(Bucket, es, n);
  }

  lemma CanonicalValid(es: seq<Record>, n: nat)
    requires Canonical(es, n)
    ensures AllValid(es)
  {
  }
}
