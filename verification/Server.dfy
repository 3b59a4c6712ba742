/** The aggregation server: entries wait in an ordered list until they advance the committed
    clock by exactly one step, are dropped once the committed clock covers them, and are forced
    out when the head of the list has waited too long. */
module Server {
  import opened VectorClock
  import opened LogEntry

  const INT_RANGE := 0x1_0000_0000

  datatype Waiting = Waiting(entry: Entry, arrival: nat)

  /** What the server holds: the committed clock, the waiting list, the log file, and (for the
      account only) the entries it dropped. */
  datatype View = View(committed: Clock, buffer: seq<Waiting>, log: seq<Entry>, dropped: seq<Entry>)

  // ---------------------------------------------------------------- one entry

  /** How many steps the entry is ahead of the committed clock, over all components. */
  function Advance(e: Clock, c: Clock): nat {
    AdvanceUpTo(e, c, |c|)
  }

  function AdvanceUpTo(e: Clock, c: Clock, n: nat): nat
    requires n <= |c|
  {
    if n == 0 then 0
    else AdvanceUpTo(e, c, n - 1) + (if At(e, n - 1) > c[n - 1] then At(e, n - 1) - c[n - 1] else 0)
  }

  /** Conversion to a 32-bit int. */
  function ToInt(x: int): int {
    var low := x % INT_RANGE;
    if low < INT_RANGE / 2 then low else low - INT_RANGE
  }

  /** The loop that counts the steps in an int. */
  method Increments(e: Clock, c: Clock) returns (increments: int)
    ensures increments == ToInt(Advance(e, c))
  {
    increments := 0;
    for i := 0 to |c|
      invariant increments == ToInt(AdvanceUpTo(e, c, i))
    {
      if At(e, i) > c[i] {
        increments := ToInt(increments + (At(e, i) - c[i]));
      }
    }
  }

  datatype Verdict = Stale | Ready | Hold

  ghost function Judge(e: Entry, c: Clock): Verdict {
    if Le(e.vc, c) then Stale
    else if ToInt(Advance(e.vc, c)) == 1 then Ready
    else Hold
  }

  lemma StaleRelation(e: Clock, c: Clock)
    ensures Le(e, c) <==> Relate(e, c) in {Equal, HappensBefore}
  {
  }

  // ---------------------------------------------------------------- flushing

  function Without<T>(s: seq<T>, i: nat): seq<T>
    requires i < |s|
  {
    s[..i] + s[i + 1..]
  }

  /** First entry the scan stops at, or the length of the list. */
  ghost function FirstMove(buffer: seq<Waiting>, c: Clock): (i: nat)
    ensures i <= |buffer|
    ensures forall k :: 0 <= k < i ==> Judge(buffer[k].entry, c).Hold?
    ensures i < |buffer| ==> !Judge(buffer[i].entry, c).Hold?
  {
    if buffer == [] then 0
    else if Judge(buffer[0].entry, c).Hold? then 1 + FirstMove(buffer[1..], c)
    else 0
  }

  /** Takes entry `i` out: writes it and merges its clock, or drops it. */
  ghost function Move(v: View, i: nat): View
    requires i < |v.buffer|
  {
    var e := v.buffer[i].entry;
    if Judge(e, v.committed).Stale? then
      v.(buffer := Without(v.buffer, i), dropped := v.dropped + [e])
    else
      v.(buffer := Without(v.buffer, i), log := v.log + [e], committed := Merged(v.committed, e.vc))
  }

  ghost function Flush(v: View): View
    decreases |v.buffer|
  {
    var i := FirstMove(v.buffer, v.committed);
    if i == |v.buffer| then v else Flush(Move(v, i))
  }

  /** Elapsed time as an unsigned 64-bit difference. */
  function Elapsed(now: nat, arrival: nat): nat {
    (now - arrival) % WORD
  }

  /** Forces the head out whatever its clock. */
  ghost function Force(v: View): View
    requires v.buffer != []
  {
    var e := v.buffer[0].entry;
    v.(buffer := v.buffer[1..], log := v.log + [e], committed := Merged(v.committed, e.vc))
  }

  lemma {:induction false} FlushShrinks(v: View)
    ensures |Flush(v).buffer| <= |v.buffer|
    decreases |v.buffer|
  {
    var i := FirstMove(v.buffer, v.committed);
    if i < |v.buffer| {
      FlushShrinks(Move(v, i));
    }
  }

  ghost function TimeoutFlush(v: View, now: nat, timeout: nat): View
    decreases |v.buffer|
  {
    if v.buffer == [] || Elapsed(now, v.buffer[0].arrival) <= timeout then v
    else
      FlushShrinks(Force(v));
      TimeoutFlush(Flush(Force(v)), now, timeout)
  }

  /** Where a new entry goes: at the head if it is before the head, otherwise after the last
      entry of the first stretch it is not before. */
  ghost function InsertAt(buffer: seq<Waiting>, e: Entry): (k: nat)
    ensures k <= |buffer|
  {
    if buffer == [] || CompareCausal(e, buffer[0].entry) < 0 then 0
    else 1 + InsertAt(buffer[1..], e)
  }

  ghost function Insert(v: View, e: Entry, now: nat): View {
    var k := InsertAt(v.buffer, e);
    v.(buffer := v.buffer[..k] + [Waiting(e, now)] + v.buffer[k..])
  }

  lemma {:induction false} InsertAtSkips(buffer: seq<Waiting>, e: Entry, k: nat)
    requires k <= |buffer|
    requires forall i :: 0 <= i < k ==> CompareCausal(e, buffer[i].entry) >= 0
    requires k < |buffer| ==> CompareCausal(e, buffer[k].entry) < 0
    ensures InsertAt(buffer, e) == k
  {
    if k > 0 {
      InsertAtSkips(buffer[1..], e, k - 1);
    }
  }

  lemma FirstMoveIs(buffer: seq<Waiting>, c: Clock, i: nat)
    requires i <= |buffer|
    requires forall k :: 0 <= k < i ==> Judge(buffer[k].entry, c).Hold?
    requires i < |buffer| ==> !Judge(buffer[i].entry, c).Hold?
    ensures FirstMove(buffer, c) == i
  {
  }

  /** What arrives in one round of the server loop: a parsed entry, an unreadable packet, or
      nothing before the receive timeout. */
  datatype Input = Packet(entry: Entry, arrival: nat) | Garbage | Quiet

  ghost function Round(v: View, input: Input, now: nat, timeout: nat): View {
    var w := if input.Packet? then Flush(Insert(v, input.entry, input.arrival)) else v;
    TimeoutFlush(w, now, timeout)
  }

  class Server {
    const timeout: nat
    var committed: Clock
    var buffer: seq<Waiting>
    var bufferCount: int
    var log: seq<Entry>
    var totalReceived: nat
    var totalStored: nat
    var totalErrors: nat
    ghost var dropped: seq<Entry>

    ghost function Now(): View
      reads this
    {
      View(committed, buffer, log, dropped)
    }

    ghost predicate Valid()
      reads this
    {
      bufferCount == |buffer| && totalStored == |log|
    }

    constructor (nodeCount: nat, timeout: nat)
      ensures Valid() && Now() == View(seq(nodeCount, _ => 0), [], [], []) && this.timeout == timeout
      ensures totalReceived == totalErrors == 0
    {
      this.timeout := timeout;
      committed, buffer, bufferCount, log := seq(nodeCount, _ => 0), [], 0, [];
      totalReceived, totalStored, totalErrors, dropped := 0, 0, 0, [];
    }

    method InsertToBuffer(e: Entry, now: nat)
      requires Valid()
      modifies `buffer, `bufferCount
      ensures Valid() && Now() == Insert(old(Now()), e, now)
    {
      var node := Waiting(e, now);
      var c := 0;
      if buffer != [] {
        c := CausalOrder(e, buffer[0].entry);
      }
      if buffer == [] || c < 0 {
        assert InsertAt(buffer, e) == 0;
        assert [node] + buffer == buffer[..0] + [node] + buffer[0..];
        buffer := [node] + buffer;
      } else {
        var curr := 0;
        while curr + 1 < |buffer|
          invariant 0 <= curr < |buffer| && Valid() && Now() == old(Now())
          invariant forall i :: 0 <= i <= curr ==> CompareCausal(e, buffer[i].entry) >= 0
        {
          c := CausalOrder(e, buffer[curr + 1].entry);
          if c < 0 {
            break;
          }
          curr := curr + 1;
        }
        InsertAtSkips(buffer, e, curr + 1);
        buffer := buffer[..curr + 1] + [node] + buffer[curr + 1..];
      }
      bufferCount := bufferCount + 1;
    }

    /** Scans from the head until an entry moves, and starts over as long as one did. */
    method FlushCausalBuffer()
      requires Valid()
      modifies `buffer, `bufferCount, `committed, `log, `totalStored, `dropped
      ensures Valid() && Now() == Flush(old(Now()))
    {
      hide AdvanceUpTo, ToInt, FirstMove, Le, Relate;
      var progress := true;
      while progress && buffer != []
        invariant Valid() && Flush(Now()) == Flush(old(Now()))
        invariant !progress ==> FirstMove(buffer, committed) == |buffer|
        decreases |buffer|, progress
      {
        progress := false;
        var curr := 0;
        ghost var before := Now();
        while curr < |buffer|
          invariant 0 <= curr <= |buffer| && Valid()
          invariant Now() == before && !progress
          invariant forall k :: 0 <= k < curr ==> Judge(buffer[k].entry, committed).Hold?
        {
          var e := buffer[curr].entry;
          var rel := Compare(e.vc, committed);
          StaleRelation(e.vc, committed);
          if rel == Equal || rel == HappensBefore {
            FirstMoveIs(buffer, committed, curr);
            buffer := Without(buffer, curr);
            dropped := dropped + [e];
            bufferCount := bufferCount - 1;
            progress := true;
            break;
          }
          var increments := Increments(e.vc, committed);
          if increments == 1 {
            FirstMoveIs(buffer, committed, curr);
            log := log + [e];
            committed := Merged(committed, e.vc);
            buffer := Without(buffer, curr);
            bufferCount := bufferCount - 1;
            totalStored := totalStored + 1;
            progress := true;
            break;
          }
          curr := curr + 1;
        }
        if progress {
          assert Now() == Move(before, curr);
        } else {
          FirstMoveIs(buffer, committed, |buffer|);
        }
      }
    }

    method CheckTimeoutFlush(now: nat)
      requires Valid()
      modifies `buffer, `bufferCount, `committed, `log, `totalStored, `dropped
      ensures Valid() && Now() == TimeoutFlush(old(Now()), now, timeout)
    {
      while buffer != [] && Elapsed(now, buffer[0].arrival) > timeout
        invariant Valid() && TimeoutFlush(Now(), now, timeout) == TimeoutFlush(old(Now()), now, timeout)
        decreases |buffer|
      {
        ghost var before := Now();
        var e := buffer[0].entry;
        log := log + [e];
        committed := Merged(committed, e.vc);
        buffer := buffer[1..];
        bufferCount := bufferCount - 1;
        totalStored := totalStored + 1;
        assert Now() == Force(before);
        FlushShrinks(Force(before));
        FlushCausalBuffer();
      }
    }

    /** One round of the server loop. */
    method Serve(input: Input, now: nat)
      requires Valid()
      modifies this
      ensures Valid() && Now() == Round(old(Now()), input, now, timeout)
      ensures totalReceived == old(totalReceived) + (if input.Quiet? then 0 else 1)
      ensures totalErrors == old(totalErrors) + (if input.Garbage? then 1 else 0)
    {
      if !input.Quiet? {
        totalReceived := totalReceived + 1;
        if input.Packet? {
          InsertToBuffer(input.entry, input.arrival);
          FlushCausalBuffer();
        } else {
          totalErrors := totalErrors + 1;
        }
      }
      CheckTimeoutFlush(now);
    }
  }
}
