/** Vector clocks. A clock is the sequence of its components; missing components count as 0. */
module VectorClock {
  const MAX_NODES := 32
  const WORD := 0x1_0000_0000_0000_0000

  type Clock = seq<nat>

  datatype Relation = Equal | HappensBefore | HappensAfter | Concurrent

  function At(c: Clock, i: nat): nat {
    if i < |c| then c[i] else 0
  }

  /** Componentwise order. */
  ghost predicate Le(a: Clock, b: Clock) {
    forall i :: 0 <= i < |a| ==> a[i] <= At(b, i)
  }

  /** Equal up to missing zero components. */
  ghost predicate Same(a: Clock, b: Clock) {
    Le(a, b) && Le(b, a)
  }

  ghost predicate Lt(a: Clock, b: Clock) {
    Le(a, b) && !Le(b, a)
  }

  lemma LeTransitive(a: Clock, b: Clock, c: Clock)
    requires Le(a, b) && Le(b, c)
    ensures Le(a, c)
  {
    forall i | 0 <= i < |a|
      ensures a[i] <= At(c, i)
    {
      assert a[i] <= At(b, i);
      if i < |b| {
        assert b[i] <= At(c, i);
      }
    }
  }

  lemma SameSize(a: Clock, b: Clock)
    requires |a| == |b| && Same(a, b)
    ensures a == b
  {
    forall i | 0 <= i < |a|
      ensures a[i] == b[i]
    {
      assert a[i] <= At(b, i) && b[i] <= At(a, i);
    }
  }

  ghost function Relate(a: Clock, b: Clock): Relation {
    if Le(a, b) && Le(b, a) then Equal
    else if Le(b, a) then HappensAfter
    else if Le(a, b) then HappensBefore
    else Concurrent
  }

  /** The rule in the documentation: a happens before b when no component is larger and some
      component is smaller. */
  lemma HappensBeforeRule(a: Clock, b: Clock)
    requires |a| == |b|
    ensures Relate(a, b) == HappensBefore <==>
      (forall i :: 0 <= i < |a| ==> a[i] <= b[i]) && (exists j :: 0 <= j < |a| && a[j] < b[j])
    ensures Relate(a, b) == HappensAfter <==> Relate(b, a) == HappensBefore
    ensures Relate(a, b) == Equal <==> a == b
  {
    if Same(a, b) {
      SameSize(a, b);
    }
    if Le(a, b) {
      assert forall i :: 0 <= i < |a| ==> a[i] <= At(b, i);
      if !Le(b, a) {
        var j :| 0 <= j < |b| && b[j] > At(a, j);
        assert a[j] < b[j];
      }
    }
    if j :| 0 <= j < |a| && a[j] < b[j] {
      assert b[j] > At(a, j);
    }
    if forall i :: 0 <= i < |a| ==> a[i] <= b[i] {
      assert forall i :: 0 <= i < |a| ==> a[i] <= At(b, i);
    }
  }

  /** Clocks of different sizes are related as if the missing components were zeros. */
  lemma MissingIsZero(a: Clock, b: Clock, m: nat, n: nat)
    ensures Relate(a + seq(m, _ => 0), b + seq(n, _ => 0)) == Relate(a, b)
  {
    LePadded(a, b, m, n);
    LePadded(b, a, n, m);
  }

  lemma LePadded(a: Clock, b: Clock, m: nat, n: nat)
    ensures Le(a + seq(m, _ => 0), b + seq(n, _ => 0)) <==> Le(a, b)
  {
    var a', b' := a + seq(m, _ => 0), b + seq(n, _ => 0);
    assert forall i: nat :: At(a', i) == At(a, i) && At(b', i) == At(b, i);
    if Le(a', b') {
      forall i | 0 <= i < |a| ensures a[i] <= At(b, i) {
        assert a'[i] <= At(b', i);
      }
    }
    if Le(a, b) {
      forall i | 0 <= i < |a'| ensures a'[i] <= At(b', i) {
        assert i < |a| ==> a[i] <= At(b, i);
      }
    }
  }

  /** Componentwise maximum, over the components of `a`. */
  function Merged(a: Clock, b: Clock): (c: Clock)
    ensures |c| == |a|
    ensures forall i :: 0 <= i < |a| ==> c[i] == if At(b, i) > a[i] then At(b, i) else a[i]
  {
    seq(|a|, i requires 0 <= i < |a| => if At(b, i) > a[i] then At(b, i) else a[i])
  }

  /** The clock counts no node past the first `n`. */
  ghost predicate Fits(c: Clock, n: nat) {
    forall i :: n <= i < |c| ==> c[i] == 0
  }

  /** Merged is the least upper bound. */
  lemma MergedIsJoin(a: Clock, b: Clock)
    ensures Le(a, Merged(a, b))
    ensures Fits(b, |a|) <==> Le(b, Merged(a, b))
    ensures forall c :: Le(a, c) && Le(b, c) ==> Le(Merged(a, b), c)
  {
    var m := Merged(a, b);
    if i :| |a| <= i < |b| && b[i] != 0 {
      assert b[i] > At(m, i);
    }
    forall c | Le(a, c) && Le(b, c)
      ensures Le(m, c)
    {
      forall i | 0 <= i < |m|
        ensures m[i] <= At(c, i)
      {
        assert a[i] <= At(c, i);
        if i < |b| {
          assert b[i] <= At(c, i);
        }
      }
    }
  }

  /** A clock as the C structure holds it: 32 words, of which `nodeCount` are in use. */
  class Cell {
    var nodeCount: nat
    const clocks: array<nat>

    ghost predicate Valid()
      reads this, clocks
    {
      && clocks.Length == MAX_NODES && nodeCount <= MAX_NODES
      && forall i :: 0 <= i < MAX_NODES ==> clocks[i] < WORD
    }

    ghost function Value(): Clock
      requires Valid()
      reads this, clocks
    {
      clocks[..nodeCount]
    }

    constructor (n: int)
      ensures Valid() && fresh(clocks)
      ensures Value() == if 0 < n <= MAX_NODES then seq(n, _ => 0) else []
    {
      nodeCount := if 0 < n <= MAX_NODES then n else 0;
      clocks := new nat[MAX_NODES](_ => 0);
    }

    /** Does nothing for an unknown node; a full counter wraps around. */
    method Increment(node: int)
      requires Valid()
      modifies clocks
      ensures Valid()
      ensures Value() == if 0 <= node < nodeCount
                         then old(Value())[node := (old(Value())[node] + 1) % WORD] else old(Value())
    {
      if node < 0 || node >= nodeCount {
        return;
      }
      clocks[node] := (clocks[node] + 1) % WORD;
    }

    method Merge(src: Cell)
      requires Valid() && src.Valid()
      modifies clocks
      ensures Valid()
      ensures Value() == Merged(old(Value()), old(src.Value()))
    {
      ghost var a, b := Value(), src.Value();
      var count := if nodeCount < src.nodeCount then nodeCount else src.nodeCount;
      for i := 0 to count
        invariant Valid()
        invariant forall k :: 0 <= k < i ==> clocks[k] == Merged(a, b)[k]
        invariant forall k :: i <= k < MAX_NODES ==> clocks[k] == old(clocks[k])
        invariant forall k :: i <= k < MAX_NODES ==> src.clocks[k] == old(src.clocks[k])
      {
        if src.clocks[i] > clocks[i] {
          clocks[i] := src.clocks[i];
        }
      }
      assert Value() == Merged(a, b);
    }

    method CopyFrom(src: Cell)
      requires Valid() && src.Valid() && (src != this ==> src.clocks != clocks)
      modifies this, clocks
      ensures Valid() && Value() == old(src.Value())
      ensures forall i :: nodeCount <= i < MAX_NODES ==> clocks[i] == old(clocks[i])
    {
      nodeCount := src.nodeCount;
      forall i | 0 <= i < nodeCount {
        clocks[i] := src.clocks[i];
      }
    }
  }

  /** vc_compare: one pass over the common components, then the rest of the longer clock. */
  method Compare(a: Clock, b: Clock) returns (r: Relation)
    ensures r == Relate(a, b)
  {
    var count := if |a| < |b| then |a| else |b|;
    var aLeB, bLeA := true, true;
    for i := 0 to count
      invariant aLeB <==> forall k :: 0 <= k < i ==> a[k] <= At(b, k)
      invariant bLeA <==> forall k :: 0 <= k < i ==> b[k] <= At(a, k)
    {
      if a[i] > b[i] {
        aLeB := false;
      }
      if b[i] > a[i] {
        bLeA := false;
      }
    }
    if |a| > count {
      var i := count;
      while i < |a|
        invariant count <= i <= |a|
        invariant aLeB <==> forall k :: 0 <= k < i ==> a[k] <= At(b, k)
      {
        if a[i] > 0 {
          aLeB := false;
          break;
        }
        i := i + 1;
      }
    }
    if |b| > count {
      var i := count;
      while i < |b|
        invariant count <= i <= |b|
        invariant bLeA <==> forall k :: 0 <= k < i ==> b[k] <= At(a, k)
      {
        if b[i] > 0 {
          bLeA := false;
          break;
        }
        i := i + 1;
      }
    }
    if aLeB && bLeA {
      return Equal;
    } else if bLeA {
      return HappensAfter;
    } else if aLeB {
      return HappensBefore;
    } else {
      return Concurrent;
    }
  }
}
