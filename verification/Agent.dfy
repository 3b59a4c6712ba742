/** The clock-stamping part of an agent. */
module Agent {
  import opened VectorClock

  /** Number of clock components a log line can carry. */
  const LINE_NODES := 3

  /** Conversion to a 64-bit unsigned integer. */
  function ToU64(x: int): nat {
    x % WORD
  }

  /** The clock after hearing a line: the other nodes' components are raised to those of the
      line, the agent's own is not. A line without a clock carries -1. */
  function Heard(c: Clock, me: int, line: seq<int>): (r: Clock)
    requires |line| == LINE_NODES
    ensures |r| == |c|
  {
    if line[0] < 0 then c
    else seq(|c|, i requires 0 <= i < |c| => HeardAt(c, me, line, i))
  }

  function HeardAt(c: Clock, me: int, line: seq<int>, i: nat): nat
    requires |line| == LINE_NODES && i < |c|
  {
    if i < LINE_NODES && i != me && ToU64(line[i]) > c[i] then ToU64(line[i]) else c[i]
  }

  /** Then the own component counts the event. */
  function Stamp(c: Clock, me: int, line: seq<int>): (r: Clock)
    requires |line| == LINE_NODES
    ensures |r| == |c|
  {
    var h := Heard(c, me, line);
    if 0 <= me < |c| then h[me := (h[me] + 1) % WORD] else h
  }

  /** What a stamp is, component by component: of the first three, those of the other nodes are the
      larger of what the agent had and what the line carries (in 64 bits), unless the line carries
      nothing; the own one is counted up; the rest stays. */
  lemma StampIs(c: Clock, me: int, line: seq<int>, i: nat)
    requires |line| == 3 && i < |c|
    ensures i == me ==> Stamp(c, me, line)[i] == (c[i] + 1) % 0x1_0000_0000_0000_0000
    ensures i != me && line[0] >= 0 && i < 3 ==>
      var heard := line[i] % 0x1_0000_0000_0000_0000;
      Stamp(c, me, line)[i] == if heard > c[i] then heard else c[i]
    ensures i != me && (line[0] < 0 || i >= 3) ==> Stamp(c, me, line)[i] == c[i]
  {
  }

  /** So a stamp covers every clock the line carries, where lines reach, and the agent had elsewhere. */
  lemma StampKnows(vc: Clock, c: Clock, me: nat, line: seq<int>)
    requires |line| == 3 && me < |c| == |vc| && line[0] >= 0 && c[me] + 1 < WORD
    requires forall i :: 0 <= i < |c| && i != me && i < 3 ==> line[i] == vc[i] < WORD
    requires forall i :: 0 <= i < |c| && (i == me || i >= 3) ==> vc[i] <= c[i]
    ensures Le(vc, Stamp(c, me, line))
  {
    hide Stamp;
    forall i | 0 <= i < |vc|
      ensures vc[i] <= Stamp(c, me, line)[i]
    {
      StampIs(c, me, line, i);
    }
  }

  class Agent {
    const vc: Cell
    const nodeIdx: int
    var seqNo: nat

    ghost predicate Valid()
      reads this, vc, vc.clocks
    {
      vc.Valid()
    }

    constructor (nodeCount: int, nodeIdx: int)
      ensures Valid() && fresh(vc) && fresh(vc.clocks) && this.nodeIdx == nodeIdx && seqNo == 0
      ensures vc.Value() == if 0 < nodeCount <= MAX_NODES then seq(nodeCount, _ => 0) else []
    {
      vc := new Cell(nodeCount);
      this.nodeIdx := nodeIdx;
      seqNo := 0;
    }

    /** One parsed log line: merges the clock it carries, counts the event, and returns the
        clock and sequence number that go into the entry. */
    method StampLine(line: seq<int>) returns (stamp: Clock, s: nat)
      requires Valid() && |line| == LINE_NODES
      modifies this, vc, vc.clocks
      ensures Valid() && vc.Value() == stamp == Stamp(old(vc.Value()), nodeIdx, line)
      ensures s == old(seqNo) && seqNo == s + 1
    {
      ghost var c := vc.Value();
      ghost var h := Heard(c, nodeIdx, line);
      if line[0] >= 0 {
        for i := 0 to LINE_NODES
          invariant Valid() && vc.nodeCount == |c| && seqNo == old(seqNo)
          invariant forall k :: 0 <= k < i && k < |c| ==> vc.clocks[k] == h[k]
          invariant forall k :: i <= k < |c| ==> vc.clocks[k] == c[k]
        {
          if i != nodeIdx && ToU64(line[i]) > vc.clocks[i] {
            vc.clocks[i] := ToU64(line[i]);
          }
        }
      }
      assert vc.Value() == h;
      vc.Increment(nodeIdx);
      stamp := vc.clocks[..vc.nodeCount];
      s := seqNo;
      seqNo := seqNo + 1;
    }
  }
}
