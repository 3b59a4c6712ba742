/** What the compressor finds, as a function of the input, the hash and the acceleration: greedy
    matching through a table of earlier positions. */
module Lz4Greedy {
  import opened Lz4Format
  import opened Lz4Write
  import opened Lz4Count
  import opened Lz4Emit

  const MIN_LENGTH := 13
  const LIMIT_64K := 65547
  const MAX_INPUT_SIZE := 0x7E000000
  const SKIP_TRIGGER := 64
  const TABLE_SIZE := 8192

  datatype TableType = ByU16 | ByU32

  /** Bytes the hash of a position reads. */
  function HashWidth(t: TableType): nat {
    if t.ByU16? then 4 else 8
  }

  /** The hash is a parameter: any function of the bytes read, into the table. */
  datatype Hashing = Hashing(t: TableType, f: seq<byte> -> nat) {
    ghost predicate Valid() {
      forall s :: f(s) < TABLE_SIZE
    }

    function Of(src: seq<byte>, p: nat): nat
      requires p + 8 <= |src|
    {
      f(src[p..p + HashWidth(t)])
    }
  }

  // ---------------------------------------------------------------- search

  /** How far the search moves after try `i`: one, then one more every 64 tries, starting from the
      acceleration. */
  function Stride(acceleration: nat, i: nat): nat {
    if i == 0 then 1 else (acceleration * SKIP_TRIGGER + i - 1) / SKIP_TRIGGER
  }

  /** The positions the search tries. */
  function Tried(start: nat, acceleration: nat, i: nat): nat {
    if i == 0 then start else Tried(start, acceleration, i - 1) + Stride(acceleration, i - 1)
  }

  /** The table after `i` tries: every position tried has taken the slot of its hash. */
  ghost function Searched(table: seq<nat>, src: seq<byte>, hs: Hashing, start: nat, acceleration: nat, i: nat): seq<nat>
  {
    if i == 0 then table
    else Taken(Searched(table, src, hs, start, acceleration, i - 1), src, hs, Tried(start, acceleration, i - 1))
  }

  ghost function Taken(table: seq<nat>, src: seq<byte>, hs: Hashing, p: nat): seq<nat> {
    if p + 8 <= |src| && hs.Of(src, p) < |table| then table[hs.Of(src, p) := p] else table
  }

  /** The slot of a position holds an earlier one, within reach, that agrees on four bytes. */
  ghost predicate Hit(table: seq<nat>, src: seq<byte>, hs: Hashing, p: nat) {
    && p + 8 <= |src| && hs.Of(src, p) < |table|
    && var m := table[hs.Of(src, p)];
       m < p && (hs.t.ByU16? || p - m <= DISTANCE_MAX) && Agree(src, p, m, MINMATCH)
  }

  /** A hit: the last position with this hash is earlier, at most 65535 bytes back (of a short input any
      distance will do), and the same four bytes stand there. */
  lemma HitIs(table: seq<nat>, src: seq<byte>, hs: Hashing, p: nat, m: nat)
    requires p + 8 <= |src| && hs.Of(src, p) < |table| && m == table[hs.Of(src, p)]
    ensures Hit(table, src, hs, p) <==>
      m < p && (hs.t.ByU16? || p - m <= 65535) && src[m..m + 4] == src[p..p + 4]
  {
    if m < p {
      assert src[m..m + 4] == [src[m], src[m + 1], src[m + 2], src[m + 3]];
      assert src[p..p + 4] == [src[p], src[p + 1], src[p + 2], src[p + 3]];
      if Agree(src, p, m, 4) {
        assert src[p] == src[p - (p - m)] && src[p + 1] == src[p + 1 - (p - m)];
        assert src[p + 2] == src[p + 2 - (p - m)] && src[p + 3] == src[p + 3 - (p - m)];
      }
      if src[m..m + 4] == src[p..p + 4] {
        forall i | p <= i < p + 4 ensures src[i] == src[i - (p - m)] {
          assert src[p..p + 4][i - p] == src[i];
        }
      }
    }
  }

  /** The search stands at `p` after `tries` positions none of which was a hit. */
  ghost predicate Searching(table0: seq<nat>, table: seq<nat>, src: seq<byte>, hs: Hashing, start: nat,
      acceleration: nat, p: nat, tries: nat)
  {
    && p == Tried(start, acceleration, tries)
    && table == Searched(table0, src, hs, start, acceleration, tries)
    && forall j :: 0 <= j < tries ==>
         !Hit(Searched(table0, src, hs, start, acceleration, j), src, hs, Tried(start, acceleration, j))
  }

  /** Where the search ends: at the first position tried that is a hit, or at the first after which
      the next one would be too close to the end. */
  ghost predicate SearchEnds(table0: seq<nat>, table: seq<nat>, src: seq<byte>, hs: Hashing, start: nat,
      acceleration: nat, found: bool, ip: nat, m: nat, tries: nat)
  {
    && var before := Searched(table0, src, hs, start, acceleration, tries);
       && Searching(table0, before, src, hs, start, acceleration, ip, tries)
       && (found <==> ip + Stride(acceleration, tries) + 11 <= |src|)
       && (found ==> Hit(before, src, hs, ip) && m == before[hs.Of(src, ip)] && table == Taken(before, src, hs, ip))
       && (!found ==> table == before)
  }

  /** The search as a whole: from try `i` at position `p` on. */
  datatype Search = Over(table: seq<nat>) | HitAt(p: nat, m: nat, table: seq<nat>)

  ghost function SearchFrom(table: seq<nat>, src: seq<byte>, hs: Hashing, p: nat, acceleration: nat, i: nat): (r: Search)
    requires acceleration >= 1
    ensures r.HitAt? ==> p <= r.p && r.p + MFLIMIT <= |src| && r.m < r.p && Agree(src, r.p, r.m, MINMATCH)
    decreases |src| - p
  {
    if p + Stride(acceleration, i) + 11 > |src| then Over(table)
    else if Hit(table, src, hs, p) then HitAt(p, table[hs.Of(src, p)], Taken(table, src, hs, p))
    else SearchFrom(Taken(table, src, hs, p), src, hs, p + Stride(acceleration, i), acceleration, i + 1)
  }

  lemma {:induction false} TriedGrows(start: nat, acceleration: nat, i: nat, j: nat)
    requires i <= j
    ensures Tried(start, acceleration, i) <= Tried(start, acceleration, j)
    decreases j
  {
    if i < j {
      TriedGrows(start, acceleration, i, j - 1);
    }
  }

  /** Where a search stands is where the whole search gets to. */
  lemma {:induction false} SearchGetsTo(table0: seq<nat>, table: seq<nat>, src: seq<byte>, hs: Hashing, start: nat,
      acceleration: nat, p: nat, tries: nat)
    requires acceleration >= 1 && p + 11 <= |src|
    requires Searching(table0, table, src, hs, start, acceleration, p, tries)
    ensures SearchFrom(table0, src, hs, start, acceleration, 0) == SearchFrom(table, src, hs, p, acceleration, tries)
    decreases tries
  {
    hide Hit, Taken, Stride;
    if tries > 0 {
      var before := Searched(table0, src, hs, start, acceleration, tries - 1);
      var q := Tried(start, acceleration, tries - 1);
      TriedGrows(start, acceleration, tries - 1, tries);
      assert !Hit(before, src, hs, q);
      SearchGetsTo(table0, before, src, hs, start, acceleration, q, tries - 1);
    }
  }

  lemma SearchEndsAt(table0: seq<nat>, table: seq<nat>, src: seq<byte>, hs: Hashing, start: nat,
      acceleration: nat, found: bool, ip: nat, m: nat, tries: nat)
    requires acceleration >= 1 && ip + 11 <= |src|
    requires SearchEnds(table0, table, src, hs, start, acceleration, found, ip, m, tries)
    ensures SearchFrom(table0, src, hs, start, acceleration, 0) == if found then HitAt(ip, m, table) else Over(table)
  {
    hide Searching, Hit, Taken, Stride, Tried, Searched;
    SearchGetsTo(table0, Searched(table0, src, hs, start, acceleration, tries), src, hs, start, acceleration, ip, tries);
  }

  // ---------------------------------------------------------------- greedy matching

  /** How far a match can be extended backwards over the literals from `anchor` on. */
  function Back(src: seq<byte>, anchor: nat, p: nat, m: nat): (k: nat)
    requires anchor <= p <= |src| && m <= p
    ensures k <= p - anchor && k <= m
    decreases p
  {
    if p > anchor && m > 0 && src[p - 1] == src[m - 1] then 1 + Back(src, anchor, p - 1, m - 1) else 0
  }

  /** Matching from a search on: literals stand from `anchor`. */
  ghost function FromSearch(src: seq<byte>, hs: Hashing, acceleration: nat, table: seq<nat>, anchor: nat, ip: nat): seq<Sequence>
    requires acceleration >= 1 && anchor <= ip
    decreases |src| - anchor, 1
  {
    var r := SearchFrom(table, src, hs, ip, acceleration, 0);
    if r.Over? then []
    else
      var k := Back(src, anchor, r.p, r.m);
      FromMatch(src, hs, acceleration, r.table, anchor, r.p - k, r.m - k)
  }

  /** From a match on, which is made as long as it can be. */
  ghost function FromMatch(src: seq<byte>, hs: Hashing, acceleration: nat, table: seq<nat>, anchor: nat, start: nat,
      m: nat): seq<Sequence>
    requires acceleration >= 1 && anchor <= start && m < start && start + MFLIMIT <= |src|
    decreases |src| - anchor, 0
  {
    var code := Common(src, start + MINMATCH, m + MINMATCH, |src| - LASTLITERALS);
    [Sequence(src[anchor..start], start - m, code)] + AfterMatch(src, hs, acceleration, table, start + MINMATCH + code)
  }

  /** From the end of a match on: two positions are registered, and the second may start the next
      match at once. */
  ghost function AfterMatch(src: seq<byte>, hs: Hashing, acceleration: nat, table: seq<nat>, e: nat): seq<Sequence>
    requires acceleration >= 1 && 2 <= e <= |src|
    decreases |src| - e, 2
  {
    if e + MFLIMIT > |src| then []
    else
      var t := Taken(table, src, hs, e - 2);
      if Hit(t, src, hs, e) then FromMatch(src, hs, acceleration, Taken(t, src, hs, e), e, e, t[hs.Of(src, e)])
      else FromSearch(src, hs, acceleration, Taken(t, src, hs, e), e, e + 1)
  }

  function EmptyTable(): (r: seq<nat>)
    ensures |r| == TABLE_SIZE && forall h :: 0 <= h < |r| ==> r[h] == 0
  {
    seq(TABLE_SIZE, _ => 0)
  }

  /** All sequences of an input: the first position is registered and the search starts at the second. */
  ghost function Greedy(src: seq<byte>, hs: Hashing, acceleration: nat): seq<Sequence>
    requires acceleration >= 1
  {
    if |src| < MIN_LENGTH then []
    else FromSearch(src, hs, acceleration, Taken(EmptyTable(), src, hs, 0), 0, 1)
  }

  lemma FromHit(src: seq<byte>, hs: Hashing, acceleration: nat, table0: seq<nat>, table: seq<nat>, anchor: nat,
      start: nat, p: nat, m: nat)
    requires acceleration >= 1 && anchor <= start <= p && p + MFLIMIT <= |src| && m < p
    requires SearchFrom(table0, src, hs, start, acceleration, 0) == HitAt(p, m, table)
    ensures var k := Back(src, anchor, p, m);
      FromSearch(src, hs, acceleration, table0, anchor, start) == FromMatch(src, hs, acceleration, table, anchor, p - k, m - k)
  {
    hide SearchFrom, Back, FromMatch;
  }

  /** The stop condition of the backward extension determines how far it went. */
  lemma {:induction false} BackIs(src: seq<byte>, anchor: nat, p: nat, m: nat, k: nat)
    requires anchor <= p <= |src| && m <= p && k <= p - anchor && k <= m
    requires forall i :: p - k <= i < p ==> src[i] == src[i - (p - m)]
    requires p - k == anchor || m - k == 0 || src[p - k - 1] != src[m - k - 1]
    ensures Back(src, anchor, p, m) == k
    decreases k
  {
    if k > 0 {
      assert src[p - 1] == src[p - 1 - (p - m)];
      BackIs(src, anchor, p - 1, m - 1, k - 1);
    }
  }

  // ---------------------------------------------------------------- what is found

  /** From `from` on: every match refers to equal bytes, cannot be made longer at its end, and cannot
      begin earlier. */
  ghost predicate Longest(src: seq<byte>, from: nat, g: seq<Sequence>)
    decreases |g|
  {
    g == [] || (LongestMatch(src, from, g[0]) && Longest(src, from + |g[0].lit| + 4 + g[0].code, g[1..]))
  }

  ghost predicate LongestMatch(src: seq<byte>, from: nat, s: Sequence) {
    var start := from + |s.lit|;
    var end := start + 4 + s.code;
    && 1 <= s.offset <= start && end + 5 <= |src| && s.lit == src[from..start]
    && (forall i :: start <= i < end ==> src[i] == src[i - s.offset])
    && (end + 5 == |src| || src[end] != src[end - s.offset])
    && (start == from || start == s.offset || src[start - 1] != src[start - 1 - s.offset])
  }

  lemma {:induction false} BackStops(src: seq<byte>, anchor: nat, p: nat, m: nat)
    requires anchor <= p <= |src| && m < p
    ensures var k := Back(src, anchor, p, m);
      && (p - k == anchor || m == k || src[p - k - 1] != src[m - k - 1])
      && forall i :: p - k <= i < p ==> src[i] == src[i - (p - m)]
    decreases p
  {
    if p > anchor && m > 0 && src[p - 1] == src[m - 1] {
      BackStops(src, anchor, p - 1, m - 1);
    }
  }

  lemma {:induction false} LongestFromSearch(src: seq<byte>, hs: Hashing, acceleration: nat, table: seq<nat>, anchor: nat,
      ip: nat)
    requires acceleration >= 1 && anchor <= ip
    ensures Longest(src, anchor, FromSearch(src, hs, acceleration, table, anchor, ip))
    decreases |src| - anchor, 1
  {
    hide SearchFrom, Back, Longest, FromMatch;
    var r := SearchFrom(table, src, hs, ip, acceleration, 0);
    if r.Over? {
      NothingLongest(src, anchor);
    } else {
      BackStops(src, anchor, r.p, r.m);
      var k := Back(src, anchor, r.p, r.m);
      LongestFromMatch(src, hs, acceleration, r.table, anchor, r.p - k, r.m - k);
    }
  }

  lemma NothingLongest(src: seq<byte>, from: nat)
    ensures Longest(src, from, [])
  {
  }

  lemma {:induction false} LongestFromMatch(src: seq<byte>, hs: Hashing, acceleration: nat, table: seq<nat>, anchor: nat,
      start: nat, m: nat)
    requires acceleration >= 1 && anchor <= start && m < start && start + MFLIMIT <= |src|
    requires Agree(src, start, m, MINMATCH)
    requires start == anchor || m == 0 || src[start - 1] != src[m - 1]
    ensures Longest(src, anchor, FromMatch(src, hs, acceleration, table, anchor, start, m))
    decreases |src| - anchor, 0
  {
    hide AfterMatch, Longest, Agree, Common, LongestMatch;
    var code := Common(src, start + MINMATCH, m + MINMATCH, |src| - LASTLITERALS);
    MatchIsLongest(src, anchor, start, m);
    var end := start + MINMATCH + code;
    var rest := AfterMatch(src, hs, acceleration, table, end);
    LongestAfterMatch(src, hs, acceleration, table, end);
    LongestOnto(src, anchor, Sequence(src[anchor..start], start - m, code), rest);
  }

  lemma MatchIsLongest(src: seq<byte>, anchor: nat, start: nat, m: nat)
    requires anchor <= start && m < start && start + MFLIMIT <= |src| && Agree(src, start, m, MINMATCH)
    requires start == anchor || m == 0 || src[start - 1] != src[m - 1]
    ensures var code := Common(src, start + MINMATCH, m + MINMATCH, |src| - LASTLITERALS);
      && start + MINMATCH + code <= |src|
      && LongestMatch(src, anchor, Sequence(src[anchor..start], start - m, code))
  {
    hide LongestMatch, Common, Agree;
    var code := Common(src, start + MINMATCH, m + MINMATCH, |src| - LASTLITERALS);
    CommonIsLongest(src, start + MINMATCH, m + MINMATCH, |src| - LASTLITERALS);
    RunsOn(src, start, m, MINMATCH, code);
    LongestParts(src, anchor, start, m, code);
  }

  lemma LongestParts(src: seq<byte>, anchor: nat, start: nat, m: nat, code: nat)
    requires anchor <= start && m < start && start + 4 + code + 5 <= |src|
    requires forall i :: start <= i < start + 4 + code ==> src[i] == src[i - (start - m)]
    requires start + 4 + code + 5 == |src| || src[start + 4 + code] != src[m + 4 + code]
    requires start == anchor || m == 0 || src[start - 1] != src[m - 1]
    ensures LongestMatch(src, anchor, Sequence(src[anchor..start], start - m, code))
  {
    var end := start + 4 + code;
    assert end - (start - m) == m + 4 + code && start - 1 - (start - m) == m - 1;
  }

  lemma RunsOn(src: seq<byte>, p: nat, m: nat, k: nat, more: nat)
    requires m < p && Agree(src, p, m, k) && Agree(src, p + k, m + k, more)
    ensures p + k + more <= |src| && forall i :: p <= i < p + k + more ==> src[i] == src[i - (p - m)]
  {
  }

  lemma LongestOnto(src: seq<byte>, from: nat, s: Sequence, rest: seq<Sequence>)
    requires LongestMatch(src, from, s) && Longest(src, from + |s.lit| + MINMATCH + s.code, rest)
    ensures Longest(src, from, [s] + rest)
  {
    hide LongestMatch;
    assert ([s] + rest)[1..] == rest;
  }

  lemma {:induction false} LongestAfterMatch(src: seq<byte>, hs: Hashing, acceleration: nat, table: seq<nat>, e: nat)
    requires acceleration >= 1 && 2 <= e <= |src|
    ensures Longest(src, e, AfterMatch(src, hs, acceleration, table, e))
    decreases |src| - e, 2
  {
    hide FromSearch, FromMatch, Longest;
    if e + MFLIMIT > |src| {
      NothingLongest(src, e);
    } else {
      var t := Taken(table, src, hs, e - 2);
      if Hit(t, src, hs, e) {
        LongestFromMatch(src, hs, acceleration, Taken(t, src, hs, e), e, e, t[hs.Of(src, e)]);
      } else {
        LongestFromSearch(src, hs, acceleration, Taken(t, src, hs, e), e, e + 1);
      }
    }
  }

  /** No match of the greedy sequences can be extended, at either end. */
  lemma GreedyIsLongest(src: seq<byte>, hs: Hashing, acceleration: nat)
    requires acceleration >= 1
    ensures Longest(src, 0, Greedy(src, hs, acceleration))
  {
    if |src| < MIN_LENGTH {
      NothingLongest(src, 0);
    } else {
      LongestFromSearch(src, hs, acceleration, Taken(EmptyTable(), src, hs, 0), 0, 1);
    }
  }

  /** The first 64 steps after the first one are of one byte, the next 64 of two, and so on; a higher
      acceleration starts with longer steps. */
  lemma StrideIs(acceleration: nat, i: nat)
    requires acceleration >= 1
    ensures Stride(acceleration, 0) == 1
    ensures 1 <= i <= 64 ==> Stride(acceleration, i) == acceleration
    ensures Stride(acceleration, i + 64) == if i == 0 then acceleration else Stride(acceleration, i) + 1
  {
  }

  /** The slot of a hash holds the latest position tried that has this hash; without one it is as
      before the search. */
  lemma {:induction false} SlotHolds(table: seq<nat>, src: seq<byte>, hs: Hashing, start: nat, acceleration: nat, i: nat,
      j: nat, h: nat)
    requires h < |table| == TABLE_SIZE && hs.Valid() && i <= j
    requires forall k :: i <= k < j ==> Tried(start, acceleration, k) + 8 <= |src| && HashAt(src, hs, start, acceleration, k) != h
    ensures |Searched(table, src, hs, start, acceleration, j)| == TABLE_SIZE
    ensures i == 0 ==> Searched(table, src, hs, start, acceleration, j)[h] == table[h]
    ensures i > 0 && Tried(start, acceleration, i - 1) + 8 <= |src| && HashAt(src, hs, start, acceleration, i - 1) == h
      ==> Searched(table, src, hs, start, acceleration, j)[h] == Tried(start, acceleration, i - 1)
    decreases j
  {
    hide Tried, Stride;
    KeepsSize(table, src, hs, start, acceleration, j);
    if i < j {
      assert HashAt(src, hs, start, acceleration, j - 1) != h;
      SlotHolds(table, src, hs, start, acceleration, i, j - 1, h);
    }
  }

  function HashAt(src: seq<byte>, hs: Hashing, start: nat, acceleration: nat, k: nat): nat {
    if Tried(start, acceleration, k) + 8 <= |src| then hs.Of(src, Tried(start, acceleration, k)) else 0
  }

  lemma {:induction false} KeepsSize(table: seq<nat>, src: seq<byte>, hs: Hashing, start: nat, acceleration: nat, j: nat)
    ensures |Searched(table, src, hs, start, acceleration, j)| == |table|
    decreases j
  {
    if j > 0 {
      KeepsSize(table, src, hs, start, acceleration, j - 1);
    }
  }

  /** No position the search tries is a hit: its slot holds no earlier position, within reach, that
      agrees on four bytes. */
  ghost predicate Quiet(table: seq<nat>, src: seq<byte>, hs: Hashing, acceleration: nat, start: nat) {
    forall j: nat :: QuietAt(table, src, hs, acceleration, start, j)
  }

  ghost predicate QuietAt(table: seq<nat>, src: seq<byte>, hs: Hashing, acceleration: nat, start: nat, j: nat) {
    Tried(start, acceleration, j) + Stride(acceleration, j) + 11 <= |src| ==>
      !Hit(Searched(table, src, hs, start, acceleration, j), src, hs, Tried(start, acceleration, j))
  }

  lemma {:induction false} OverTried(table: seq<nat>, src: seq<byte>, hs: Hashing, acceleration: nat, start: nat, i: nat,
      j: nat)
    requires acceleration >= 1 && i <= j
    requires SearchFrom(Searched(table, src, hs, start, acceleration, i), src, hs, Tried(start, acceleration, i),
               acceleration, i).Over?
    ensures QuietAt(table, src, hs, acceleration, start, j)
    decreases j - i
  {
    hide Hit, Taken, QuietAt, Stride;
    var p := Tried(start, acceleration, i);
    if p + Stride(acceleration, i) + 11 > |src| {
      PastEnd(table, src, hs, acceleration, start, i, j);
    } else if i == j {
      assert !Hit(Searched(table, src, hs, start, acceleration, i), src, hs, p);
      NoHitAt(table, src, hs, acceleration, start, i);
    } else {
      assert Tried(start, acceleration, i + 1) == p + Stride(acceleration, i);
      OverTried(table, src, hs, acceleration, start, i + 1, j);
    }
  }

  lemma NoHitAt(table: seq<nat>, src: seq<byte>, hs: Hashing, acceleration: nat, start: nat, j: nat)
    requires !Hit(Searched(table, src, hs, start, acceleration, j), src, hs, Tried(start, acceleration, j))
    ensures QuietAt(table, src, hs, acceleration, start, j)
  {
  }

  /** Once a step passes the end all later ones do. */
  lemma PastEnd(table: seq<nat>, src: seq<byte>, hs: Hashing, acceleration: nat, start: nat, i: nat, j: nat)
    requires acceleration >= 1 && i <= j && Tried(start, acceleration, i) + Stride(acceleration, i) + 11 > |src|
    ensures QuietAt(table, src, hs, acceleration, start, j)
  {
    hide Hit, Searched;
    if i < j {
      TriedGrows(start, acceleration, i + 1, j);
    }
  }

  lemma {:induction false} HitTried(table: seq<nat>, src: seq<byte>, hs: Hashing, acceleration: nat, start: nat, i: nat)
    returns (j: nat)
    requires acceleration >= 1
    requires SearchFrom(Searched(table, src, hs, start, acceleration, i), src, hs, Tried(start, acceleration, i),
               acceleration, i).HitAt?
    ensures !QuietAt(table, src, hs, acceleration, start, j)
    decreases |src| - Tried(start, acceleration, i)
  {
    hide Hit, Taken;
    if Hit(Searched(table, src, hs, start, acceleration, i), src, hs, Tried(start, acceleration, i)) {
      j := i;
    } else {
      assert Tried(start, acceleration, i + 1) == Tried(start, acceleration, i) + Stride(acceleration, i);
      j := HitTried(table, src, hs, acceleration, start, i + 1);
    }
  }

  /** A search ends without a match exactly if no position it tries is a hit. */
  lemma OverIffQuiet(table: seq<nat>, src: seq<byte>, hs: Hashing, acceleration: nat, start: nat)
    requires acceleration >= 1
    ensures SearchFrom(table, src, hs, start, acceleration, 0).Over? <==> Quiet(table, src, hs, acceleration, start)
  {
    hide SearchFrom, QuietAt;
    assert Searched(table, src, hs, start, acceleration, 0) == table && Tried(start, acceleration, 0) == start;
    if SearchFrom(table, src, hs, start, acceleration, 0).Over? {
      forall j: nat ensures QuietAt(table, src, hs, acceleration, start, j) {
        OverTried(table, src, hs, acceleration, start, 0, j);
      }
    } else {
      var j := HitTried(table, src, hs, acceleration, start, 0);
    }
  }

  /** The input is left without a match exactly if it is too short or the search from its second
      position, in a table that holds the first, meets no hit. */
  lemma LiteralsOnlyIffQuiet(src: seq<byte>, hs: Hashing, acceleration: nat)
    requires acceleration >= 1
    ensures Greedy(src, hs, acceleration) == []
      <==> |src| < 13 || Quiet(Taken(EmptyTable(), src, hs, 0), src, hs, acceleration, 1)
  {
    hide SearchFrom, Quiet, Taken, FromSearch;
    if |src| >= 13 {
      OverIffQuiet(Taken(EmptyTable(), src, hs, 0), src, hs, acceleration, 1);
      NothingIffOver(src, hs, acceleration, Taken(EmptyTable(), src, hs, 0), 0, 1);
    }
  }

  lemma NothingIffOver(src: seq<byte>, hs: Hashing, acceleration: nat, table: seq<nat>, anchor: nat, ip: nat)
    requires acceleration >= 1 && anchor <= ip
    ensures FromSearch(src, hs, acceleration, table, anchor, ip) == []
      <==> SearchFrom(table, src, hs, ip, acceleration, 0).Over?
  {
    hide SearchFrom, Back, AfterMatch;
    var r := SearchFrom(table, src, hs, ip, acceleration, 0);
    if r.HitAt? {
      var k := Back(src, anchor, r.p, r.m);
      assert FromMatch(src, hs, acceleration, r.table, anchor, r.p - k, r.m - k) != [];
    }
  }

  /** Where the last match ends. */
  function End(from: nat, g: seq<Sequence>): nat
    decreases |g|
  {
    if g == [] then from else End(from + |g[0].lit| + 4 + g[0].code, g[1..])
  }

  /** After the last match, which ends at `e`: its end and the position two before it are in the table,
      the end is no hit, and a search from the byte behind it meets none. */
  ghost predicate Exhausted(before: seq<nat>, src: seq<byte>, hs: Hashing, acceleration: nat, e: nat)
    requires 2 <= e
  {
    && e + 12 <= |src|
    && var table := Taken(before, src, hs, e - 2);
       !Hit(table, src, hs, e) && Quiet(Taken(table, src, hs, e), src, hs, acceleration, e + 1)
  }

  /** The table never forgets a position but for a later one with the same hash: the ends of all matches
      but the last, and the positions two before them, are still known. */
  ghost predicate Recalls(table: seq<nat>, src: seq<byte>, hs: Hashing, from: nat, g: seq<Sequence>)
    decreases |g|
  {
    |g| <= 1 ||
    var e := from + |g[0].lit| + 4 + g[0].code;
    && e + 8 <= |src| && Recalled(table, src, hs, e) && Recalled(table, src, hs, e - 2)
    && Recalls(table, src, hs, e, g[1..])
  }

  ghost predicate Recalled(table: seq<nat>, src: seq<byte>, hs: Hashing, p: nat) {
    p + 8 <= |src| && hs.Of(src, p) < |table| && p <= table[hs.Of(src, p)]
  }

  ghost predicate UpTo(table: seq<nat>, p: nat) {
    |table| == TABLE_SIZE && forall h :: 0 <= h < |table| ==> table[h] <= p
  }

  ghost predicate OnlyGrew(table: seq<nat>, later: seq<nat>) {
    |table| == |later| == TABLE_SIZE && forall h :: 0 <= h < |table| ==> table[h] <= later[h]
  }

  lemma TakenKeeps(table: seq<nat>, src: seq<byte>, hs: Hashing, p: nat)
    requires hs.Valid() && UpTo(table, p) && p + 8 <= |src|
    ensures var t := Taken(table, src, hs, p);
      UpTo(t, p) && OnlyGrew(table, t) && Recalled(t, src, hs, p)
  {
  }

  lemma RecalledLater(table: seq<nat>, later: seq<nat>, src: seq<byte>, hs: Hashing, p: nat)
    requires OnlyGrew(table, later)
    ensures Recalled(table, src, hs, p) ==> Recalled(later, src, hs, p)
  {
  }

  lemma {:induction false} SearchKeeps(table: seq<nat>, src: seq<byte>, hs: Hashing, p: nat, acceleration: nat, i: nat)
    requires acceleration >= 1 && hs.Valid() && UpTo(table, p)
    ensures var r := SearchFrom(table, src, hs, p, acceleration, i);
      r.HitAt? ==> UpTo(r.table, r.p) && OnlyGrew(table, r.table)
    decreases |src| - p
  {
    hide Hit, Taken, Recalled;
    if p + Stride(acceleration, i) + 11 <= |src| {
      TakenKeeps(table, src, hs, p);
      if !Hit(table, src, hs, p) {
        SearchKeeps(Taken(table, src, hs, p), src, hs, p + Stride(acceleration, i), acceleration, i + 1);
      }
    }
  }

  /** A match made longer backwards still covers the position it was found at. */
  lemma CoversHit(src: seq<byte>, anchor: nat, p: nat, m: nat)
    requires anchor <= p && p + MFLIMIT <= |src| && m < p && Agree(src, p, m, MINMATCH)
    ensures var k := Back(src, anchor, p, m);
      p <= p - k + MINMATCH + Common(src, p - k + MINMATCH, m - k + MINMATCH, |src| - LASTLITERALS) - 2
  {
    BackStops(src, anchor, p, m);
    hide Back, Common;
    var k := Back(src, anchor, p, m);
    CommonSkip(src, p - k + MINMATCH, m - k + MINMATCH, |src| - LASTLITERALS, k);
  }

  lemma {:induction false} ExhaustedFromSearch(src: seq<byte>, hs: Hashing, acceleration: nat, table: seq<nat>,
      anchor: nat, ip: nat)
    returns (before: seq<nat>)
    requires acceleration >= 1 && anchor <= ip && hs.Valid() && UpTo(table, ip)
    ensures var g := FromSearch(src, hs, acceleration, table, anchor, ip);
      g != [] ==> var e := End(anchor, g);
        && anchor + 2 <= e && (e + 12 <= |src| ==> Exhausted(before, src, hs, acceleration, e))
        && OnlyGrew(table, before) && Recalls(before, src, hs, anchor, g)
    decreases |src| - anchor, 1
  {
    hide SearchFrom, Back, FromMatch, End, Exhausted, Common, Recalls, UpTo, Agree;
    var r := SearchFrom(table, src, hs, ip, acceleration, 0);
    if r.Over? {
      before := [];
    } else {
      var k := Back(src, anchor, r.p, r.m);
      SearchKeeps(table, src, hs, ip, acceleration, 0);
      CoversHit(src, anchor, r.p, r.m);
      UpToLater(r.table, r.p,
        r.p - k + MINMATCH + Common(src, r.p - k + MINMATCH, r.m - k + MINMATCH, |src| - LASTLITERALS) - 2);
      before := ExhaustedFromMatch(src, hs, acceleration, r.table, anchor, r.p - k, r.m - k);
    }
  }

  lemma UpToLater(table: seq<nat>, p: nat, q: nat)
    requires UpTo(table, p) && p <= q
    ensures UpTo(table, q)
  {
  }

  lemma GrewLonger(a: seq<nat>, b: seq<nat>, c: seq<nat>, p: nat)
    ensures UpTo(a, p) ==> OnlyGrew(a, a)
    ensures OnlyGrew(a, b) && OnlyGrew(b, c) ==> OnlyGrew(a, c)
  {
  }

  lemma {:induction false} ExhaustedFromMatch(src: seq<byte>, hs: Hashing, acceleration: nat, table: seq<nat>,
      anchor: nat, start: nat, m: nat)
    returns (before: seq<nat>)
    requires acceleration >= 1 && anchor <= start && m < start && start + MFLIMIT <= |src| && hs.Valid()
    requires UpTo(table, start + MINMATCH + Common(src, start + MINMATCH, m + MINMATCH, |src| - LASTLITERALS) - 2)
    ensures var g := FromMatch(src, hs, acceleration, table, anchor, start, m);
      var e := End(anchor, g);
      && anchor + 2 <= e && (e + 12 <= |src| ==> Exhausted(before, src, hs, acceleration, e))
      && OnlyGrew(table, before) && Recalls(before, src, hs, anchor, g)
    decreases |src| - anchor, 0
  {
    hide AfterMatch, Common, Exhausted, UpTo, OnlyGrew, Recalled, Recalls, End;
    var code := Common(src, start + MINMATCH, m + MINMATCH, |src| - LASTLITERALS);
    var end := start + MINMATCH + code;
    var rest := AfterMatch(src, hs, acceleration, table, end);
    before := ExhaustedAfterMatch(src, hs, acceleration, table, end);
    Onto(before, src, hs, anchor, Sequence(src[anchor..start], start - m, code), rest);
  }

  lemma Onto(table: seq<nat>, src: seq<byte>, hs: Hashing, from: nat, s: Sequence, rest: seq<Sequence>)
    requires var e := from + |s.lit| + 4 + s.code;
      && Recalls(table, src, hs, e, rest)
      && (rest != [] ==> Recalled(table, src, hs, e) && Recalled(table, src, hs, e - 2))
    ensures Recalls(table, src, hs, from, [s] + rest)
    ensures End(from, [s] + rest) == End(from + |s.lit| + 4 + s.code, rest)
  {
    assert ([s] + rest)[1..] == rest && ([s] + rest)[0] == s;
  }

  lemma {:induction false} ExhaustedAfterMatch(src: seq<byte>, hs: Hashing, acceleration: nat, table: seq<nat>, e0: nat)
    returns (before: seq<nat>)
    requires acceleration >= 1 && 2 <= e0 <= |src| && hs.Valid() && UpTo(table, e0 - 2)
    ensures var rest := AfterMatch(src, hs, acceleration, table, e0);
      var e := End(e0, rest);
      && e0 <= e && (e + 12 <= |src| ==> Exhausted(before, src, hs, acceleration, e))
      && OnlyGrew(table, before) && Recalls(before, src, hs, e0, rest)
      && (rest != [] ==> Recalled(before, src, hs, e0) && Recalled(before, src, hs, e0 - 2))
    decreases |src| - e0, 2
  {
    hide FromSearch, FromMatch, Quiet, Hit, Taken, UpTo, OnlyGrew, Recalled, Common;
    before := table;
    GrewLonger(table, table, table, e0 - 2);
    if e0 + MFLIMIT <= |src| {
      var t := Taken(table, src, hs, e0 - 2);
      var t' := Taken(t, src, hs, e0);
      TakenKeeps(table, src, hs, e0 - 2);
      UpToLater(t, e0 - 2, e0);
      TakenKeeps(t, src, hs, e0);
      UpToLater(t', e0, e0 + 1);
      UpToLater(t', e0, e0 + 2);
      if Hit(t, src, hs, e0) {
        HitIn(t, src, hs, e0);
        var m := t[hs.Of(src, e0)];
        UpToLater(t', e0, e0 + MINMATCH + Common(src, e0 + MINMATCH, m + MINMATCH, |src| - LASTLITERALS) - 2);
        before := ExhaustedFromMatch(src, hs, acceleration, t', e0, e0, m);
      } else {
        NothingIffOver(src, hs, acceleration, t', e0, e0 + 1);
        OverIffQuiet(t', src, hs, acceleration, e0 + 1);
        var before' := ExhaustedFromSearch(src, hs, acceleration, t', e0, e0 + 1);
        if FromSearch(src, hs, acceleration, t', e0, e0 + 1) != [] {
          before := before';
        }
      }
      if AfterMatch(src, hs, acceleration, table, e0) != [] {
        GrewLonger(table, t, t', e0);
        GrewLonger(table, t', before, e0);
        RecalledLater(t, t', src, hs, e0 - 2);
        RecalledLater(t', before, src, hs, e0 - 2);
        RecalledLater(t', before, src, hs, e0);
      }
    }
  }

  lemma HitIn(table: seq<nat>, src: seq<byte>, hs: Hashing, p: nat)
    requires Hit(table, src, hs, p)
    ensures p + 8 <= |src| && hs.Of(src, p) < |table| && table[hs.Of(src, p)] < p
  {
  }

  /** When the last match ends at least twelve bytes before the end of the input, there was nothing more
      to be found; likewise without any match. */
  ghost predicate NothingLeft(src: seq<byte>, hs: Hashing, acceleration: nat, g: seq<Sequence>) {
    if g == [] then |src| < 13 || Quiet(Taken(EmptyTable(), src, hs, 0), src, hs, acceleration, 1)
    else
      2 <= End(0, g) &&
      (End(0, g) + 12 <= |src| ==>
         exists before :: Exhausted(before, src, hs, acceleration, End(0, g)) && Recalls(before, src, hs, 0, g))
  }

  lemma NoHitLeft(src: seq<byte>, hs: Hashing, acceleration: nat)
    requires acceleration >= 1 && hs.Valid()
    ensures NothingLeft(src, hs, acceleration, Greedy(src, hs, acceleration))
  {
    hide FromSearch, Quiet, Exhausted, End, Recalls;
    LiteralsOnlyIffQuiet(src, hs, acceleration);
    if |src| >= 13 {
      var before := ExhaustedFromSearch(src, hs, acceleration, Taken(EmptyTable(), src, hs, 0), 0, 1);
    }
  }

  // ---------------------------------------------------------------- equal bytes

  ghost predicate AllEqual(src: seq<byte>) {
    forall i :: 0 <= i < |src| ==> src[i] == src[0]
  }

  lemma {:induction false} EqualCommon(src: seq<byte>, p: nat, limit: nat)
    requires AllEqual(src) && 1 <= p <= limit <= |src|
    ensures Common(src, p, p - 1, limit) == limit - p
    decreases limit - p
  {
    if p < limit {
      EqualCommon(src, p + 1, limit);
    }
  }

  /** Equal bytes are one literal, one match at distance 1, and the last five bytes. */
  lemma EqualGreedy(src: seq<byte>, hs: Hashing, acceleration: nat)
    requires acceleration >= 1 && hs.Valid() && AllEqual(src) && |src| >= 13
    ensures Greedy(src, hs, acceleration) == [Sequence([src[0]], 1, |src| - 10)]
  {
    var table := Taken(EmptyTable(), src, hs, 0);
    assert table == EmptyTable();
    assert Hit(table, src, hs, 1);
    var t := Taken(table, src, hs, 1);
    assert SearchFrom(table, src, hs, 1, acceleration, 0) == HitAt(1, 0, t);
    assert Back(src, 0, 1, 0) == 0;
    hide SearchFrom, Back, Common, Hit, Taken, FromMatch;
    assert FromSearch(src, hs, acceleration, table, 0, 1) == FromMatch(src, hs, acceleration, t, 0, 1, 0);
    EqualMatch(src, hs, acceleration, t);
  }

  lemma EqualMatch(src: seq<byte>, hs: Hashing, acceleration: nat, table: seq<nat>)
    requires acceleration >= 1 && AllEqual(src) && |src| >= 13
    ensures FromMatch(src, hs, acceleration, table, 0, 1, 0) == [Sequence([src[0]], 1, |src| - 10)]
  {
    hide Common;
    EqualCommon(src, 5, |src| - 5);
    assert AfterMatch(src, hs, acceleration, table, |src| - 5) == [];
    hide AfterMatch;
    assert src[0..1] == [src[0]];
  }

  /** The size of the block for `n` equal bytes. */
  function EqualSize(n: nat): nat {
    if n < 25 then 10 else 11 + (n - 25) / 255
  }

  lemma EqualSized(src: seq<byte>, b: byte, cap: int)
    requires |src| >= 13 && AllEqual(src) && b == src[0]
    ensures var g := [Sequence([b], 1, |src| - 10)];
      && |Expand(g)| == |src| - 5
      && |Block(g, src[|Expand(g)|..])| == EqualSize(|src|)
      && (AllFit(src, g, cap) <==> EqualSize(|src|) <= cap)
  {
    var s := Sequence([b], 1, |src| - 10);
    var g := [s];
    assert g[..0] == [];
    assert Expand(g) == Extend([] + s.lit, 1, s.code + MINMATCH) && BlockBytes(g) == [] + SequenceBytes(s);
    ExtensionSized(|src| - 10);
    ExtensionSized(1);
    ExtensionSized(5);
    assert |BlockBytes(g)| == 4 + ExtensionSize(|src| - 10);
    hide Extend, Expand, BlockBytes, Extension;
    assert SequenceFits(0, s, cap) <==> EqualSize(|src|) <= cap;
    assert FirstFit(g, 1, cap) <==> SequenceFits(0, s, cap);
  }

  // ---------------------------------------------------------------- output limits

  /** In limitedOutput mode the literals of a sequence whose token stands at `op` are written if this
      holds, and its match if the next one does. */
  predicate LiteralsFit(op: nat, literals: nat, cap: int) {
    op + 1 + literals + 8 + literals / 255 <= cap
  }

  predicate SequenceFits(op: nat, s: Sequence, cap: int) {
    && LiteralsFit(op, |s.lit|, cap)
    && op + 1 + ExtensionSize(|s.lit|) + |s.lit| + 2 + 6 + (s.code + 240) / 255 <= cap
  }

  /** In fillOutput mode a sequence is begun if this holds. */
  predicate CanBegin(op: nat, literals: nat, cap: int) {
    op + 1 + (literals + 240) / 255 + literals + 11 <= cap
  }

  /** The last literals fit as they are. */
  predicate LastFit(op: nat, literals: int, cap: int) {
    op + literals + 1 + (literals + 240) / 255 <= cap
  }

  /** The first `k` sequences fit the limit. */
  ghost predicate FirstFit(g: seq<Sequence>, k: nat, cap: int) {
    forall j :: 0 <= j < k && j < |g| ==> SequenceFits(|BlockBytes(g[..j])|, g[j], cap)
  }

  /** Everything fits the limit: all sequences, and the rest of the input as last literals. */
  ghost predicate AllFit(src: seq<byte>, g: seq<Sequence>, cap: int) {
    FirstFit(g, |g|, cap) && LastFit(|BlockBytes(g)|, |src| - |Expand(g)|, cap)
  }

  /** `ss` is a beginning of `g` whose last match was shortened so that just the last five literals
      and their token fit behind it. */
  ghost predicate Shortened(g: seq<Sequence>, ss: seq<Sequence>, cap: int) {
    && 0 < |ss| <= |g| && |BlockBytes(ss)| + 6 == cap
    && var k := |ss| - 1;
       ss[..k] == g[..k] && ss[k] == g[k].(code := ss[k].code) && ss[k].code < g[k].code
  }

  /** What has been written when no further sequence is: all of `g`; or, in fillOutput mode, as much of
      it as the output takes. */
  ghost predicate Stopped(d: Directive, cap: int, g: seq<Sequence>, ss: seq<Sequence>) {
    || ss == g
    || (d.FillOutput? && Shortened(g, ss, cap))
    || (d.FillOutput? && |ss| < |g| && ss == g[..|ss|] && !CanBegin(|BlockBytes(ss)|, |g[|ss|].lit|, cap))
  }

  /** On the way: `ss` has been written and `rest` is to come, or nothing will since the last match was
      shortened. */
  ghost predicate Course(d: Directive, cap: int, g: seq<Sequence>, ss: seq<Sequence>, op: nat, rest: seq<Sequence>) {
    && op == |BlockBytes(ss)|
    && (|| (g == ss + rest && (d.LimitedOutput? ==> FirstFit(g, |ss|, cap)))
        || (d.FillOutput? && Shortened(g, ss, cap)))
  }

  /** Some sequence does not fit. */
  ghost predicate Refused(g: seq<Sequence>, cap: int) {
    !FirstFit(g, |g|, cap)
  }

  lemma CourseEnds(d: Directive, cap: int, g: seq<Sequence>, ss: seq<Sequence>, op: nat)
    requires Course(d, cap, g, ss, op, [])
    ensures Stopped(d, cap, g, ss)
    ensures d.LimitedOutput? ==> FirstFit(g, |g|, cap)
  {
    hide BlockBytes, SequenceFits;
    assert ss + [] == ss;
  }

  lemma CourseRewound(d: Directive, cap: int, g: seq<Sequence>, ss: seq<Sequence>, op: nat, rest: seq<Sequence>)
    requires Course(d, cap, g, ss, op, rest) && d.FillOutput? && rest != []
    requires !CanBegin(op, |rest[0].lit|, cap)
    ensures Stopped(d, cap, g, ss)
  {
    hide BlockBytes;
    if g == ss + rest {
      assert g[..|ss|] == ss && g[|ss|] == rest[0];
    }
  }

  lemma CourseRefused(d: Directive, cap: int, g: seq<Sequence>, ss: seq<Sequence>, op: nat, rest: seq<Sequence>)
    requires Course(d, cap, g, ss, op, rest) && d.LimitedOutput? && rest != []
    requires !SequenceFits(op, rest[0], cap)
    ensures Refused(g, cap)
  {
    hide BlockBytes, SequenceFits;
    assert g[..|ss|] == ss && g[|ss|] == rest[0];
  }

  lemma CourseGoesOn(d: Directive, cap: int, g: seq<Sequence>, ss: seq<Sequence>, op: nat, s: Sequence,
      rest: seq<Sequence>, op': nat)
    requires Course(d, cap, g, ss, op, [s] + rest) && g == ss + ([s] + rest)
    requires d.LimitedOutput? ==> SequenceFits(op, s, cap)
    requires op' == |BlockBytes(ss + [s])|
    ensures Course(d, cap, g, ss + [s], op', rest)
  {
    hide BlockBytes, SequenceFits;
    assert g == (ss + [s]) + rest;
    assert g[..|ss|] == ss && g[|ss|] == s;
  }

  lemma CourseShortened(d: Directive, cap: int, g: seq<Sequence>, ss: seq<Sequence>, op: nat, s: Sequence,
      tail: seq<Sequence>, cut: Sequence, op': nat, rest: seq<Sequence>)
    requires Course(d, cap, g, ss, op, [s] + tail) && d.FillOutput? && g == ss + ([s] + tail)
    requires cut == s.(code := cut.code) && cut.code < s.code
    requires op' == |BlockBytes(ss + [cut])| && op' + 6 == cap
    ensures Course(d, cap, g, ss + [cut], op', rest)
  {
    hide BlockBytes;
    var t, k := ss + [cut], |ss|;
    assert t[..k] == ss == g[..k] && g[k] == s && t[k] == cut;
  }

  // ---------------------------------------------------------------- one match on the way

  /** What is known when a match is at hand: the course, where the literals end, and that they fit. */
  ghost predicate AtMatch(src: seq<byte>, hs: Hashing, acceleration: nat, d: Directive, cap: int, g: seq<Sequence>,
      ss: seq<Sequence>, token: nat, table: seq<nat>, anchor: nat, start: nat, m: nat)
    requires acceleration >= 1 && anchor <= start && m < start && start + MFLIMIT <= |src|
  {
    && Course(d, cap, g, ss, token, FromMatch(src, hs, acceleration, table, anchor, start, m))
    && (d.LimitedOutput? && anchor < start ==> LiteralsFit(token, start - anchor, cap))
  }

  function AfterLiterals(token: nat, literals: nat): nat {
    token + 1 + ExtensionSize(literals) + literals
  }

  lemma MatchRewound(src: seq<byte>, hs: Hashing, acceleration: nat, d: Directive, cap: int, g: seq<Sequence>,
      ss: seq<Sequence>, token: nat, table: seq<nat>, anchor: nat, start: nat, m: nat)
    requires acceleration >= 1 && anchor <= start && m < start && start + MFLIMIT <= |src|
    requires AtMatch(src, hs, acceleration, d, cap, g, ss, token, table, anchor, start, m)
    requires d.FillOutput? && AfterLiterals(token, start - anchor) + 11 > cap
    ensures Stopped(d, cap, g, ss)
  {
    hide Course, Stopped, AfterMatch, Common;
    CourseRewound(d, cap, g, ss, token, FromMatch(src, hs, acceleration, table, anchor, start, m));
  }

  lemma MatchRefused(src: seq<byte>, hs: Hashing, acceleration: nat, d: Directive, cap: int, g: seq<Sequence>,
      ss: seq<Sequence>, token: nat, table: seq<nat>, anchor: nat, start: nat, m: nat)
    requires acceleration >= 1 && anchor <= start && m < start && start + MFLIMIT <= |src|
    requires AtMatch(src, hs, acceleration, d, cap, g, ss, token, table, anchor, start, m) && d.LimitedOutput?
    requires var full := Common(src, start + MINMATCH, m + MINMATCH, |src| - LASTLITERALS);
      AfterLiterals(token, start - anchor) + 8 + (full + 240) / 255 > cap
    ensures Refused(g, cap)
  {
    hide Course, Refused, AfterMatch, Common;
    CourseRefused(d, cap, g, ss, token, FromMatch(src, hs, acceleration, table, anchor, start, m));
  }

  /** The match was written, as long as it is or shortened. */
  lemma MatchWritten(src: seq<byte>, hs: Hashing, acceleration: nat, d: Directive, cap: int, g: seq<Sequence>,
      ss: seq<Sequence>, token: nat, table: seq<nat>, anchor: nat, start: nat, m: nat, code: nat, op: nat,
      after: seq<nat>)
    requires acceleration >= 1 && anchor <= start && m < start && start + MFLIMIT <= |src|
    requires start + MINMATCH + code <= |src|
    requires AtMatch(src, hs, acceleration, d, cap, g, ss, token, table, anchor, start, m)
    requires d.FillOutput? ==> AfterLiterals(token, start - anchor) + 11 <= cap
    requires d.LimitedOutput? ==> AfterLiterals(token, start - anchor) + 8 + (code + 240) / 255 <= cap
    requires op == |BlockBytes(ss + [Sequence(src[anchor..start], start - m, code)])|
    requires var full := Common(src, start + MINMATCH, m + MINMATCH, |src| - LASTLITERALS);
      (code == full && after == table) || (d.FillOutput? && code < full && op + 6 == cap)
    ensures Course(d, cap, g, ss + [Sequence(src[anchor..start], start - m, code)], op,
              AfterMatch(src, hs, acceleration, after, start + MINMATCH + code))
  {
    hide AfterMatch, Common, BlockBytes;
    var full := Common(src, start + MINMATCH, m + MINMATCH, |src| - LASTLITERALS);
    var s, cut := Sequence(src[anchor..start], start - m, full), Sequence(src[anchor..start], start - m, code);
    var tail := AfterMatch(src, hs, acceleration, table, start + MINMATCH + full);
    assert FromMatch(src, hs, acceleration, table, anchor, start, m) == [s] + tail;
    assert g == ss + ([s] + tail);
    var rest := AfterMatch(src, hs, acceleration, after, start + MINMATCH + code);
    hide Course, FromMatch;
    if code == full && after == table {
      CourseGoesOn(d, cap, g, ss, token, s, rest, op);
    } else {
      CourseShortened(d, cap, g, ss, token, s, tail, cut, op, rest);
    }
  }
}
