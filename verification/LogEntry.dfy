/** Log entries and the comparators that order them. */
module LogEntry {
  import opened VectorClock

  datatype Entry = Entry(nodeId: string, vc: Clock, timestamp: nat, level: nat, message: string)

  /** strcmp: the sign of the first difference, a proper prefix being smaller. */
  function StrCmp(a: string, b: string): int {
    if a == [] && b == [] then 0
    else if a == [] then -1
    else if b == [] then 1
    else if a[0] == b[0] then StrCmp(a[1..], b[1..])
    else if a[0] < b[0] then -1 else 1
  }

  lemma {:induction false} StrCmpOrder(a: string, b: string)
    ensures StrCmp(a, b) == 0 <==> a == b
    ensures StrCmp(a, b) == -StrCmp(b, a)
    decreases |a|
  {
    if a != [] && b != [] && a[0] == b[0] {
      StrCmpOrder(a[1..], b[1..]);
      assert a == [a[0]] + a[1..] && b == [b[0]] + b[1..];
    }
  }

  lemma {:induction false} StrCmpTransitive(a: string, b: string, c: string)
    requires StrCmp(a, b) < 0 && StrCmp(b, c) < 0
    ensures StrCmp(a, c) < 0
    decreases |a|
  {
    if a != [] && b != [] && c != [] && a[0] == b[0] && b[0] == c[0] {
      StrCmpTransitive(a[1..], b[1..], c[1..]);
    }
  }

  /** The order of strings from positions: a proper prefix comes first, and otherwise the first
      position at which the two differ decides. */
  lemma {:induction false} StrCmpIs(a: string, b: string)
    ensures StrCmp(a, b) < 0 <==> a < b || DiffersBelow(a, b)
    ensures StrCmp(a, b) > 0 <==> b < a || DiffersBelow(b, a)
    decreases |a|
  {
    StrCmpBelow(a, b);
    StrCmpBelow(b, a);
    StrCmpOrder(a, b);
  }

  ghost predicate DiffersBelow(a: string, b: string) {
    exists k :: 0 <= k < |a| && k < |b| && a[..k] == b[..k] && a[k] < b[k]
  }

  lemma {:induction false} StrCmpBelow(a: string, b: string)
    ensures StrCmp(a, b) < 0 <==> a < b || DiffersBelow(a, b)
    decreases |a|
  {
    if a != [] && b != [] {
      if a[0] == b[0] {
        StrCmpBelow(a[1..], b[1..]);
        SameHead(a[0], a[1..], b[1..]);
        assert a == [a[0]] + a[1..] && b == [b[0]] + b[1..];
      } else if a[0] < b[0] {
        assert a[..0] == b[..0];
      } else {
        if k :| 0 <= k < |a| && k < |b| && a[..k] == b[..k] && a[k] < b[k] {
          assert k > 0 ==> a[..k][0] == b[..k][0];
        }
      }
    }
  }

  lemma SameHead(x: char, c: string, d: string)
    ensures [x] + c < [x] + d <==> c < d
    ensures DiffersBelow([x] + c, [x] + d) <==> DiffersBelow(c, d)
  {
    var a, b := [x] + c, [x] + d;
    assert a[1..] == c && b[1..] == d;
    if DiffersBelow(c, d) {
      var k :| 0 <= k < |c| && k < |d| && c[..k] == d[..k] && c[k] < d[k];
      assert a[..k + 1] == [x] + c[..k] && b[..k + 1] == [x] + d[..k];
      assert a[k + 1] < b[k + 1];
    }
    if DiffersBelow(a, b) {
      var k :| 0 <= k < |a| && k < |b| && a[..k] == b[..k] && a[k] < b[k];
      assert k > 0;
      assert c[..k - 1] == a[..k][1..] && d[..k - 1] == b[..k][1..];
      assert c[k - 1] < d[k - 1];
    }
  }

  function CompareByTime(a: Entry, b: Entry): int {
    if a.timestamp != b.timestamp then (if a.timestamp < b.timestamp then -1 else 1)
    else StrCmp(a.nodeId, b.nodeId)
  }

  /** log_entry_compare and log_entry_compare_causal: causal order first, then time, then node. */
  ghost function CompareCausal(a: Entry, b: Entry): int {
    match Relate(a.vc, b.vc)
    case HappensBefore => -1
    case HappensAfter => 1
    case Equal => CompareByTime(a, b)
    case Concurrent => CompareByTime(a, b)
  }

  method CausalOrder(a: Entry, b: Entry) returns (r: int)
    ensures r == CompareCausal(a, b)
  {
    var rel := Compare(a.vc, b.vc);
    if rel == HappensBefore {
      return -1;
    }
    if rel == HappensAfter {
      return 1;
    }
    if a.timestamp != b.timestamp {
      return if a.timestamp < b.timestamp then -1 else 1;
    }
    return StrCmp(a.nodeId, b.nodeId);
  }
}
