/** LZ4_compress_generic_validated without dictionary: greedy matching through a hash table of
    earlier positions, for both table types and all three output limits. */
module Lz4Compress {
  import opened Lz4Format
  import opened Lz4Write
  import opened Lz4Count
  import opened Lz4Emit
  import opened Lz4Greedy

  /** The working memory of one compression. */
  class Stream {
    const hashTable: array<nat>
    var currentOffset: nat
    var dictSize: nat
    var tableType: TableType

    constructor ()
      ensures hashTable.Length == TABLE_SIZE && fresh(hashTable)
      ensures currentOffset == 0 && dictSize == 0
      ensures forall h :: 0 <= h < TABLE_SIZE ==> hashTable[h] == 0
    {
      hashTable := new nat[TABLE_SIZE](_ => 0);
      currentOffset, dictSize, tableType := 0, 0, ByU32;
    }

    /** LZ4_initStream: everything zero. */
    method Init()
      requires hashTable.Length == TABLE_SIZE
      modifies this, hashTable
      ensures currentOffset == 0 && dictSize == 0
      ensures forall h :: 0 <= h < TABLE_SIZE ==> hashTable[h] == 0
    {
      forall h | 0 <= h < TABLE_SIZE {
        hashTable[h] := 0;
      }
      currentOffset, dictSize := 0, 0;
    }
  }

  // ---------------------------------------------------------------- hash table

  /** Every entry is an earlier position, standing in the slot of its own hash (0 also stands
      for an empty slot). */
  ghost predicate TableBelow(table: seq<nat>, src: seq<byte>, hs: Hashing, limit: nat)
  {
    forall h :: 0 <= h < |table| ==>
      && (table[h] < limit || table[h] == 0)
      && (table[h] == 0 || (table[h] + MFLIMIT <= |src| && hs.Of(src, table[h]) == h))
  }

  /** Indexes are stored in 16 or 32 bits. */
  function Stored(t: TableType, idx: nat): nat {
    if t.ByU16? then idx % 0x1_0000 else idx % 0x1_0000_0000
  }

  lemma NothingLost(src: seq<byte>, t: TableType, idx: nat)
    requires |src| <= MAX_INPUT_SIZE && (t.ByU16? ==> |src| < LIMIT_64K)
    requires idx + MFLIMIT <= |src|
    ensures Stored(t, idx) == idx
  {
  }

  method PutIndexOnHash(table: array<nat>, src: seq<byte>, hs: Hashing, idx: nat, h: nat, ghost limit: nat)
    requires h < table.Length && idx < limit && idx + MFLIMIT <= |src| && hs.Of(src, idx) == h
    requires |src| <= MAX_INPUT_SIZE && (hs.t.ByU16? ==> |src| < LIMIT_64K)
    requires TableBelow(table[..], src, hs, limit)
    modifies table
    ensures table[..] == old(table[..])[h := idx]
    ensures TableBelow(table[..], src, hs, limit)
  {
    NothingLost(src, hs.t, idx);
    table[h] := Stored(hs.t, idx);
  }

  /** Removes the positions from `first` to `last`, of which some may be in the table. */
  method ClearPositions(table: array<nat>, src: seq<byte>, hs: Hashing, first: nat, last: nat)
    requires 0 < first && last + MFLIMIT <= |src|
    requires table.Length == TABLE_SIZE && hs.Valid()
    requires TableBelow(table[..], src, hs, last + 1)
    modifies table
    ensures TableBelow(table[..], src, hs, first)
  {
    var ptr := first;
    while ptr <= last
      invariant first <= ptr && (ptr <= last + 1 || ptr == first)
      invariant TableBelow(table[..], src, hs, last + 1)
      invariant forall h :: 0 <= h < table.Length ==> table[h] < first || ptr <= table[h]
    {
      var h := hs.Of(src, ptr);
      table[h] := 0;
      ptr := ptr + 1;
    }
  }

  // ---------------------------------------------------------------- search

  lemma HitTest(table: seq<nat>, src: seq<byte>, hs: Hashing, p: nat)
    requires p + 8 <= |src| && hs.Of(src, p) < |table| && table[hs.Of(src, p)] < p
    ensures var m := table[hs.Of(src, p)];
      Hit(table, src, hs, p) <==> (hs.t.ByU16? || p <= m + DISTANCE_MAX) && Word(src, m, 4) == Word(src, p, 4)
  {
    SameWord(src, p, table[hs.Of(src, p)], 4);
  }

  lemma NextTry(table0: seq<nat>, table: seq<nat>, src: seq<byte>, hs: Hashing, start: nat,
      acceleration: nat, p: nat, tries: nat)
    requires Searching(table0, table, src, hs, start, acceleration, p, tries) && !Hit(table, src, hs, p)
    ensures Searching(table0, Taken(table, src, hs, p), src, hs, start, acceleration,
              p + Stride(acceleration, tries), tries + 1)
  {
    hide Hit, Taken, Stride;
  }

  /** The search loop. */
  method FindMatch(table: array<nat>, src: seq<byte>, hs: Hashing, start: nat, startHash: nat, acceleration: nat)
    returns (found: bool, ip: nat, m: nat, ghost tries: nat)
    requires |src| <= MAX_INPUT_SIZE && (hs.t.ByU16? ==> |src| < LIMIT_64K)
    requires table.Length == TABLE_SIZE && hs.Valid()
    requires 0 < start && start + 11 <= |src| && startHash == hs.Of(src, start) && acceleration >= 1
    requires TableBelow(table[..], src, hs, start)
    modifies table
    ensures found ==> start <= ip && ip + MFLIMIT <= |src|
    ensures found ==> m < ip && ip - m <= DISTANCE_MAX && Agree(src, ip, m, MINMATCH)
    ensures start <= ip && ip + 11 <= |src| && TableBelow(table[..], src, hs, if found then ip + 1 else ip)
    ensures SearchEnds(old(table[..]), table[..], src, hs, start, acceleration, found, ip, m, tries)
  {
    hide Agree, Searched, Tried, Hit, Searching;
    ghost var table0 := table[..];
    var forwardIp, forwardH := start, startHash;
    var step, searchMatchNb := 1, acceleration * SKIP_TRIGGER;
    tries := 0;
    SearchStarts(table0, src, hs, start, acceleration);
    while true
      invariant start <= forwardIp && forwardIp + 11 <= |src| && forwardH == hs.Of(src, forwardIp)
      invariant searchMatchNb == acceleration * SKIP_TRIGGER + tries && step == Stride(acceleration, tries)
      invariant TableBelow(table[..], src, hs, forwardIp)
      invariant Searching(table0, table[..], src, hs, start, acceleration, forwardIp, tries)
      decreases |src| - forwardIp
    {
      var h, current := forwardH, forwardIp;
      var matchIndex := table[h];
      ghost var before := table[..];
      SearchingIs(table0, before, src, hs, start, acceleration, current, tries);
      ip := forwardIp;
      forwardIp := forwardIp + step;
      step := searchMatchNb / SKIP_TRIGGER;
      searchMatchNb := searchMatchNb + 1;
      if forwardIp > |src| - MFLIMIT + 1 {
        return false, ip, 0, tries;
      }
      m := matchIndex;
      forwardH := hs.Of(src, forwardIp);
      HitTest(before, src, hs, current);
      PutIndexOnHash(table, src, hs, current, h, ip + 1);
      if hs.t.ByU32? && matchIndex + DISTANCE_MAX < current {
        NextTry(table0, before, src, hs, start, acceleration, current, tries);
        tries := tries + 1;
        continue;
      }
      if Word(src, m, 4) == Word(src, ip, 4) {
        HitReaches(before, src, hs, ip);
        return true, ip, m, tries;
      }
      NextTry(table0, before, src, hs, start, acceleration, current, tries);
      tries := tries + 1;
    }
  }

  lemma SearchStarts(table: seq<nat>, src: seq<byte>, hs: Hashing, start: nat, acceleration: nat)
    ensures Searching(table, table, src, hs, start, acceleration, start, 0)
  {
  }

  lemma SearchingIs(table0: seq<nat>, table: seq<nat>, src: seq<byte>, hs: Hashing, start: nat,
      acceleration: nat, p: nat, tries: nat)
    requires Searching(table0, table, src, hs, start, acceleration, p, tries)
    ensures table == Searched(table0, src, hs, start, acceleration, tries)
  {
  }

  /** In 16-bit mode every position is within reach. */
  lemma HitReaches(table: seq<nat>, src: seq<byte>, hs: Hashing, p: nat)
    requires Hit(table, src, hs, p) && p + MFLIMIT <= |src| && (hs.t.ByU16? ==> |src| < LIMIT_64K)
    ensures var m := table[hs.Of(src, p)]; p - m <= DISTANCE_MAX && Agree(src, p, m, MINMATCH)
  {
  }

  lemma AgreeBack(src: seq<byte>, p: nat, m: nat, k: nat)
    requires 0 < m <= p && Agree(src, p, m, k) && p <= |src| && src[p - 1] == src[m - 1]
    ensures Agree(src, p - 1, m - 1, k + 1)
  {
  }

  lemma AgreeShorter(src: seq<byte>, p: nat, m: nat, k: nat, n: nat)
    requires m <= p && k <= n && Agree(src, p, m, n)
    ensures Agree(src, p, m, k)
  {
  }

  /** Extends a match backwards over the pending literals. */
  method CatchUp(src: seq<byte>, anchor: nat, filledIp: nat, start: nat) returns (ip: nat, m: nat)
    requires anchor < filledIp && start < filledIp && filledIp + MINMATCH <= |src|
    requires Agree(src, filledIp, start, MINMATCH)
    ensures anchor <= ip <= filledIp && ip - m == filledIp - start
    ensures Agree(src, ip, m, filledIp - ip + MINMATCH) && Agree(src, ip, m, MINMATCH)
    ensures ip == anchor || m == 0 || src[ip - 1] != src[m - 1]
  {
    hide Agree;
    ip, m := filledIp, start;
    if m > 0 && src[ip - 1] == src[m - 1] {
      while true
        invariant anchor < ip <= filledIp && ip - m == filledIp - start && m > 0
        invariant src[ip - 1] == src[m - 1]
        invariant Agree(src, ip, m, filledIp - ip + MINMATCH)
        decreases ip
      {
        AgreeBack(src, ip, m, filledIp - ip + MINMATCH);
        ip, m := ip - 1, m - 1;
        if !(ip > anchor && m > 0 && src[ip - 1] == src[m - 1]) {
          break;
        }
      }
    }
    AgreeShorter(src, ip, m, MINMATCH, filledIp - ip + MINMATCH);
  }

  // ---------------------------------------------------------------- what the main loop keeps

  /** LZ4_compressBound. */
  function CompressBound(n: nat): nat {
    if n > MAX_INPUT_SIZE then 0 else n + n / 255 + 16
  }

  /** The output up to `op` is the bytes of `ss`, which stand for the input up to `anchor`. */
  ghost predicate Emitted(src: seq<byte>, dst: seq<byte>, op: nat, anchor: nat, ss: seq<Sequence>)
  {
    && op <= |dst| && anchor <= |src| && Valid(ss)
    && dst[..op] == BlockBytes(ss) && Expand(ss) == src[..anchor]
    && Need(ss) <= |src| - anchor
  }

  /** How much of the output limit is left between two sequences. */
  ghost predicate Room(d: Directive, cap: int, n: nat, op: nat, anchor: nat, ss: seq<Sequence>)
  {
    match d
    case NotLimited => cap == n + n / 255 + 16 && 255 * op <= 256 * anchor
    case LimitedOutput => op == 0 || op + 1 + LASTLITERALS <= cap
    case FillOutput => op + 1 + Need(ss) <= cap
  }

  /** The same after the literals of a sequence whose token stands at `token`. */
  ghost predicate RoomForMatch(d: Directive, cap: int, n: nat, op: nat, ip: nat)
  {
    match d
    case NotLimited => cap == n + n / 255 + 16 && 255 * op <= 256 * ip + 495
    case LimitedOutput => op + LASTLITERALS <= cap
    case FillOutput => true
  }

  /** Copying back from an earlier equal run reproduces the input. */
  lemma MatchReproduces(src: seq<byte>, ip: nat, m: nat, n: nat)
    requires m < ip && Agree(src, ip, m, n)
    ensures Extend(src[..ip], ip - m, n) == src[..ip + n]
  {
    PeriodicIsExtend(src[..ip], ip - m, src[..ip + n]);
  }

  /** The whole match reaches past the position it was found at. */
  lemma CoversFilled(src: seq<byte>, ip: nat, m: nat, filledIp: nat)
    requires m < ip <= filledIp && filledIp + MFLIMIT <= |src|
    requires Agree(src, ip, m, filledIp - ip + MINMATCH)
    ensures Common(src, ip + MINMATCH, m + MINMATCH, |src| - LASTLITERALS) >= filledIp - ip
  {
    CommonSkip(src, ip + MINMATCH, m + MINMATCH, |src| - LASTLITERALS, filledIp - ip);
  }

  /** Closing a sequence. */
  lemma SequenceEmitted(src: seq<byte>, dst: seq<byte>, op: nat, anchor: nat, ip: nat, m: nat,
      code: nat, ss: seq<Sequence>)
    requires anchor <= ip && m < ip && ip - m <= DISTANCE_MAX && op <= |dst|
    requires ip + MFLIMIT <= |src| && Valid(ss) && Expand(ss) == src[..anchor]
    requires ip + MINMATCH + code + LASTLITERALS <= |src| && Agree(src, ip, m, MINMATCH + code)
    requires dst[..op] == BlockBytes(ss) + SequenceBytes(Sequence(src[anchor..ip], ip - m, code))
    ensures Emitted(src, dst, op, ip + MINMATCH + code, ss + [Sequence(src[anchor..ip], ip - m, code)])
  {
    hide Valid, BlockBytes, Expand, SequenceBytes, Need;
    var s := Sequence(src[anchor..ip], ip - m, code);
    assert src[..anchor] + s.lit == src[..ip];
    Snoc(ss, s);
    MatchReproduces(src, ip, m, MINMATCH + code);
  }

  /** The output limit after the literals. */
  lemma LiteralRoom(d: Directive, cap: int, n: nat, token: nat, anchor: nat, ip: nat, ss: seq<Sequence>)
    requires Room(d, cap, n, token, anchor, ss) && anchor <= ip && ip + MFLIMIT <= n
    requires d.LimitedOutput? ==> token + 1 + (ip - anchor) + 8 + (ip - anchor) / 255 <= cap
    requires d.FillOutput? ==> token + 1 + (ip - anchor + 240) / 255 + (ip - anchor) + 11 <= cap
    ensures var op := token + 1 + ExtensionSize(ip - anchor) + (ip - anchor);
      && op + (if ip == anchor then 8 else 7) <= cap
      && RoomForMatch(d, cap, n, op, ip)
  {
  }

  /** The output limit after the match. */
  lemma MatchRoom(d: Directive, cap: int, n: nat, op: nat, ip: nat, code: nat, ss: seq<Sequence>,
      s: Sequence)
    requires RoomForMatch(d, cap, n, op, ip) && ip + MINMATCH + code + LASTLITERALS <= n && s.code == code
    requires d.FillOutput? ==> op + 11 <= cap
    requires !d.NotLimited? ==> op + 2 + 1 + LASTLITERALS + (code + 240) / 255 <= cap
    ensures op + 2 + ExtensionSize(code) + (if code >= 15 then 3 else 0) <= cap
    ensures Room(d, cap, n, op + 2 + ExtensionSize(code), ip + MINMATCH + code, ss + [s])
  {
  }

  lemma OffsetRoom(d: Directive, cap: int, n: nat, op: nat, ip: nat)
    requires RoomForMatch(d, cap, n, op, ip) && ip + MFLIMIT <= n
    requires d.FillOutput? ==> op + 11 <= cap
    ensures op + 2 <= cap
  {
  }

  datatype Step = Failed | Rewound | Done

  /** Literals of the next sequence, if the output limit allows them. */
  method EmitLiterals(src: seq<byte>, dst: array<byte>, d: Directive, cap: int, anchor: nat, ip: nat, token: nat,
      ghost ss: seq<Sequence>)
    returns (st: Step, op: nat)
    requires anchor <= ip && ip + MFLIMIT <= |src| && cap <= dst.Length
    requires Emitted(src, dst[..], token, anchor, ss) && Room(d, cap, |src|, token, anchor, ss)
    modifies dst
    ensures st.Failed? ==> d.LimitedOutput?
    ensures st.Rewound? ==> d.FillOutput? && op == token && dst[..] == old(dst[..])
    ensures st.Done? ==> token < op <= cap && dst[..op] == BlockBytes(ss) + Opening(src[anchor..ip])
    ensures st.Done? ==> RoomForMatch(d, cap, |src|, op, ip)
    ensures !st.Failed? ==> Emitted(src, dst[..], token, anchor, ss)
    ensures st.Failed? ==> !LiteralsFit(token, ip - anchor, cap)
    ensures st.Rewound? ==> !CanBegin(token, ip - anchor, cap)
    ensures st.Done? && d.LimitedOutput? ==> LiteralsFit(token, ip - anchor, cap)
    ensures st.Done? && d.FillOutput? ==> CanBegin(token, ip - anchor, cap)
    ensures st.Done? ==> op == AfterLiterals(token, ip - anchor)
    ensures forall i :: 0 <= i < dst.Length && cap <= i ==> dst[i] == old(dst[i])
  {
    hide BlockBytes, Expand, Valid, Opening;
    var litLength := ip - anchor;
    op := token + 1;
    if d.LimitedOutput? && op + litLength + (2 + 1 + LASTLITERALS) + litLength / 255 > cap {
      return Failed, op;
    }
    if d.FillOutput? && op + (litLength + 240) / 255 + litLength + 2 + 1 + MFLIMIT - MINMATCH > cap {
      return Rewound, token;
    }
    LiteralRoom(d, cap, |src|, token, anchor, ip, ss);
    op := WriteLiterals(src, dst, token, anchor, litLength);
    return Done, op;
  }

  /** The match length that is encoded: the longest one, cut in fillOutput mode to what the
      output can still describe. */
  method MatchCode(src: seq<byte>, d: Directive, cap: int, ip: nat, m: nat, op: nat)
    returns (ok: bool, code: nat, reduced: bool)
    requires m < ip && ip + MFLIMIT <= |src| && Agree(src, ip, m, MINMATCH)
    requires d.FillOutput? ==> op + 1 + MFLIMIT - MINMATCH <= cap
    ensures !ok ==> d.LimitedOutput?
    ensures ok ==> ip + MINMATCH + code + LASTLITERALS <= |src| && Agree(src, ip, m, MINMATCH + code)
    ensures ok ==> reduced || code == Common(src, ip + MINMATCH, m + MINMATCH, |src| - LASTLITERALS)
    ensures ok && !d.NotLimited? ==> op + 1 + LASTLITERALS + (code + 240) / 255 <= cap
    ensures reduced ==> d.FillOutput? && op + 1 + LASTLITERALS + ExtensionSize(code) == cap
    ensures reduced ==> code < Common(src, ip + MINMATCH, m + MINMATCH, |src| - LASTLITERALS)
    ensures !ok ==>
      op + 1 + LASTLITERALS + (Common(src, ip + MINMATCH, m + MINMATCH, |src| - LASTLITERALS) + 240) / 255 > cap
  {
    code := Count(src, ip + MINMATCH, m + MINMATCH, |src| - LASTLITERALS);
    CommonIsLongest(src, ip + MINMATCH, m + MINMATCH, |src| - LASTLITERALS);
    ok, reduced := true, false;
    if !d.NotLimited? && op + (1 + LASTLITERALS) + (code + 240) / 255 > cap {
      if d.FillOutput? {
        var newMatchCode := 15 - 1 + (cap - op - 1 - LASTLITERALS) * 255;
        assert newMatchCode < code;
        code := newMatchCode;
        reduced := true;
      } else {
        return false, code, false;
      }
    }
  }

  /** In fillOutput mode no further match will be written. */
  ghost predicate NoRoomLeft(d: Directive, cap: int, op: nat) {
    d.FillOutput? && op + 2 + 1 + MFLIMIT - MINMATCH > cap
  }

  /** The table holds nothing past the start of the match, or past the position the match was
      found at if catching up moved its start back from there. */
  ghost predicate TableFilled(table: seq<nat>, src: seq<byte>, hs: Hashing, start: nat, m: nat, filledIp: nat)
    requires m < start
  {
    if filledIp < start then TableBelow(table, src, hs, start + 1)
    else
      && TableBelow(table, src, hs, filledIp + 1)
      && Agree(src, start, m, filledIp - start + MINMATCH)
  }

  /** If the match was cut, the positions past its new end leave the table. */
  method ClearCut(table: array<nat>, src: seq<byte>, hs: Hashing, filledIp: nat, start: nat, m: nat, code: nat,
      reduced: bool)
    requires table.Length == TABLE_SIZE && hs.Valid() && m < start && filledIp + MFLIMIT <= |src|
    requires start + MINMATCH + code <= |src| && TableFilled(table[..], src, hs, start, m, filledIp)
    requires !reduced ==> code == Common(src, start + MINMATCH, m + MINMATCH, |src| - LASTLITERALS)
    modifies table
    ensures TableBelow(table[..], src, hs, start + MINMATCH + code)
    ensures !reduced ==> table[..] == old(table[..]) && filledIp < start + MINMATCH + code
  {
    hide Common;
    var ip := start + MINMATCH + code;
    if reduced {
      if ip <= filledIp {
        ClearPositions(table, src, hs, ip, filledIp);
      }
    } else if start <= filledIp {
      CoversFilled(src, start, m, filledIp);
    }
  }

  /** One match: offset and length, closing the sequence whose literals are already out. */
  method EmitMatch(src: seq<byte>, dst: array<byte>, table: array<nat>, hs: Hashing, d: Directive, cap: int,
      anchor: nat, filledIp: nat, start: nat, m: nat, token: nat, afterLiterals: nat, ghost ss: seq<Sequence>)
    returns (st: Step, op: nat, ip: nat, ghost ss': seq<Sequence>)
    requires anchor <= start && start + MFLIMIT <= |src| && cap <= dst.Length
    requires m < start && start - m <= DISTANCE_MAX && Agree(src, start, m, MINMATCH)
    requires filledIp + MFLIMIT <= |src| && table.Length == TABLE_SIZE && hs.Valid()
    requires NoRoomLeft(d, cap, afterLiterals) || TableFilled(table[..], src, hs, start, m, filledIp)
    requires token < afterLiterals <= dst.Length
    requires Emitted(src, dst[..], token, anchor, ss) && Room(d, cap, |src|, token, anchor, ss)
    requires dst[..afterLiterals] == BlockBytes(ss) + Opening(src[anchor..start])
    requires RoomForMatch(d, cap, |src|, afterLiterals, start)
    modifies dst, table
    ensures st.Failed? ==> d.LimitedOutput?
    ensures st.Rewound? ==> d.FillOutput? && op == token && ss' == ss && Emitted(src, dst[..], token, anchor, ss)
    ensures st.Done? ==> start < ip <= |src| && afterLiterals < op <= cap && TableBelow(table[..], src, hs, ip)
    ensures st.Done? ==> filledIp < ip || NoRoomLeft(d, cap, op + 1)
    ensures st.Done? ==> Emitted(src, dst[..], op, ip, ss') && Room(d, cap, |src|, op, ip, ss')
    ensures st.Rewound? <==> d.FillOutput? && afterLiterals + 11 > cap
    ensures var full := Common(src, start + MINMATCH, m + MINMATCH, |src| - LASTLITERALS);
      && (st.Failed? ==> afterLiterals + 8 + (full + 240) / 255 > cap)
      && (st.Done? ==>
           var code := ip - start - MINMATCH;
           && code >= 0 && ss' == ss + [Sequence(src[anchor..start], start - m, code)]
           && (d.LimitedOutput? ==> afterLiterals + 8 + (code + 240) / 255 <= cap)
           && (|| (code == full && table[..] == old(table[..]))
               || (d.FillOutput? && code < full && op + 6 == cap)))
    ensures forall i :: 0 <= i < dst.Length && cap <= i ==> dst[i] == old(dst[i])
  {
    hide Valid, BlockBytes, Expand, SequenceBytes, Need, Opening, OffsetBytes, Agree, Room, RoomForMatch, Common,
      TableBelow, TableFilled;
    op, ip, ss' := afterLiterals, start, ss;
    if d.FillOutput? && op + 2 + 1 + MFLIMIT - MINMATCH > cap {
      op := token;
      return Rewound, op, ip, ss';
    }
    OffsetRoom(d, cap, |src|, op, start);
    WriteOffset(dst, op, start - m);
    op := op + 2;
    var ok, code, reduced := MatchCode(src, d, cap, start, m, op);
    if !ok {
      return Failed, op, ip, ss';
    }
    ip := start + code + MINMATCH;
    ClearCut(table, src, hs, filledIp, start, m, code, reduced);
    ghost var s := Sequence(src[anchor..start], start - m, code);
    MatchRoom(d, cap, |src|, afterLiterals, start, code, ss, s);
    assert dst[..op] == BlockBytes(ss) + (Opening(s.lit) + OffsetBytes(s.offset));
    op := WriteMatchCode(dst, token, op, code, BlockBytes(ss), s.lit, s.offset);
    ss' := ss + [s];
    SequenceEmitted(src, dst[..], op, anchor, start, m, code, ss);
    return Done, op, ip, ss';
  }

  // ---------------------------------------------------------------- the compressor

  /** What a compression leaves: a legal block for the input up to `consumed`. */
  ghost predicate Compressed(src: seq<byte>, block: seq<byte>, consumed: nat) {
    && consumed <= |src|
    && LegalBlock(block) && Decode(block) == Good(src[..consumed])
  }

  /** The block that is written for the first `consumed` bytes: the greedy sequences, in fillOutput
      mode as far as the output takes them, and the rest as last literals, cut to what fits. */
  ghost predicate Written(src: seq<byte>, hs: Hashing, acceleration: nat, d: Directive, cap: int, block: seq<byte>,
      consumed: nat, ss: seq<Sequence>)
    requires acceleration >= 1
  {
    var anchor, op := |Expand(ss)|, |BlockBytes(ss)|;
    && Stopped(d, cap, Greedy(src, hs, acceleration), ss)
    && anchor <= consumed <= |src| && block == Block(ss, src[anchor..consumed])
    && consumed == if !d.FillOutput? || LastFit(op, |src| - anchor, cap) then |src| else anchor + LastCut(op, cap)
  }

  /** How many last literals are written in fillOutput mode when not all of them fit. */
  function LastCut(op: nat, cap: int): int {
    cap - op - 1 - (cap - op - 1 + 241) / 256
  }

  /** The last literals; in fillOutput mode as many as fit. Returns 0 if they do not fit. */
  method LastLiterals(src: seq<byte>, dst: array<byte>, d: Directive, cap: int, anchor: nat, start: nat,
      ghost ss: seq<Sequence>)
    returns (result: nat, consumed: nat)
    requires cap <= dst.Length && Emitted(src, dst[..], start, anchor, ss)
    requires Room(d, cap, |src|, start, anchor, ss)
    modifies dst
    ensures result == 0 <==> d.LimitedOutput? && !LastFit(start, |src| - anchor, cap)
    ensures result > 0 ==> result <= cap && Compressed(src, dst[..result], consumed)
    ensures result > 0 ==> anchor <= consumed <= |src| && dst[..result] == Block(ss, src[anchor..consumed])
    ensures consumed == if !d.FillOutput? || LastFit(start, |src| - anchor, cap) then |src|
                        else anchor + LastCut(start, cap)
    ensures result > 0 && consumed < |src| ==> result + 1 >= cap
    ensures result > 0 ==> WithinBound(result, consumed)
    ensures forall i :: 0 <= i < dst.Length && cap <= i ==> dst[i] == old(dst[i])
  {
    hide Valid, BlockBytes, Expand, LastBytes, Need, LegalBlock, Decode, WithinBound;
    var lastRun := |src| - anchor;
    consumed := |src|;
    if !d.NotLimited? && start + lastRun + 1 + (lastRun + 255 - RUN_MASK) / 255 > cap {
      if d.FillOutput? {
        lastRun := cap - start - 1;
        lastRun := lastRun - (lastRun + 256 - RUN_MASK) / 256;
      } else {
        return 0, consumed;
      }
    }
    LastRoom(d, cap, |src|, start, anchor, ss, lastRun);
    var op := WriteLastLiterals(src, dst, start, anchor, lastRun);
    consumed := anchor + lastRun;
    result := op;
    ghost var last := src[anchor..consumed];
    assert dst[..result] == Block(ss, last);
    WriteThenRead(ss, last);
    BlockSize(ss, last);
    assert Expand(ss) + last == src[..consumed];
  }

  /** The output limit at the last literals. */
  lemma LastRoom(d: Directive, cap: int, n: nat, op: nat, anchor: nat, ss: seq<Sequence>, lastRun: int)
    requires anchor <= n && Need(ss) <= n - anchor && Room(d, cap, n, op, anchor, ss)
    requires var full := n - anchor;
      var fits := op + full + 1 + (full + 240) / 255 <= cap;
      if d.NotLimited? || fits then lastRun == full
      else d.FillOutput? && lastRun == cap - op - 1 - (cap - op - 1 + 241) / 256
    ensures Need(ss) <= lastRun <= n - anchor
    ensures op + 1 + ExtensionSize(lastRun) + lastRun <= cap
  {
  }

  method CompressGenericValidated(ctx: Stream, src: seq<byte>, dst: array<byte>, maxOutputSize: int, d: Directive,
      hs: Hashing, acceleration: nat)
    returns (result: nat, consumed: nat, ghost ss: seq<Sequence>)
    requires 0 < |src| <= MAX_INPUT_SIZE && (hs.t.ByU16? ==> |src| < LIMIT_64K)
    requires hs.Valid() && acceleration >= 1
    requires ctx.hashTable.Length == TABLE_SIZE && ctx.currentOffset == 0
    requires forall h :: 0 <= h < TABLE_SIZE ==> ctx.hashTable[h] == 0
    requires (if d.NotLimited? then CompressBound(|src|) else maxOutputSize) <= dst.Length
    modifies ctx, ctx.hashTable, dst
    ensures var cap := if d.NotLimited? then CompressBound(|src|) else maxOutputSize;
      && (result == 0 ==> d.LimitedOutput? || cap < 1)
      && (result > 0 ==> result <= cap && Compressed(src, dst[..result], consumed))
      && (result > 0 && consumed < |src| ==> result + 1 >= cap)
      && (forall i :: 0 <= i < dst.Length && cap <= i ==> dst[i] == old(dst[i]))
    ensures result > 0 && !d.FillOutput? ==> consumed == |src|
    ensures result > 0 ==> WithinBound(result, consumed)
    ensures var cap := if d.NotLimited? then CompressBound(|src|) else maxOutputSize;
      && (d.LimitedOutput? ==> (result > 0 <==> AllFit(src, Greedy(src, hs, acceleration), cap)))
      && (result > 0 ==> Written(src, hs, acceleration, d, cap, dst[..result], consumed, ss))
    ensures result > 0 && !d.FillOutput? ==>
      && |Expand(ss)| <= |src| && dst[..result] == Block(ss, src[|Expand(ss)|..|src|])
      && Longest(src, 0, ss) && NothingLeft(src, hs, acceleration, ss)
  {
    hide Valid, BlockBytes, Expand, LastBytes, Need, LegalBlock, Decode, Agree, Opening, WithinBound, Greedy, Stopped,
      Block, FirstFit, SequenceFits, Longest, NothingLeft;
    var cap := if d.NotLimited? then CompressBound(|src|) else maxOutputSize;
    result, consumed, ss := 0, 0, [];
    if d.FillOutput? && maxOutputSize < 1 {
      return;
    }
    ctx.dictSize := ctx.dictSize + |src|;
    ctx.currentOffset := ctx.currentOffset + |src|;
    ctx.tableType := hs.t;
    var op: nat, anchor: nat := 0, 0;
    ghost var g := Greedy(src, hs, acceleration);
    NothingEmitted(src, dst[..], d, cap);
    if |src| >= MIN_LENGTH {
      var st;
      st, op, anchor, ss := Sequences(ctx.hashTable, src, dst, d, cap, hs, acceleration);
      if st.Failed? {
        return;
      }
    } else {
      ShortInput(src, hs, acceleration, d, cap);
    }
    result, consumed := LastLiterals(src, dst, d, cap, anchor, op, ss);
    StoppedLimited(d, cap, g, ss);
    GreedyIsLongest(src, hs, acceleration);
    NoHitLeft(src, hs, acceleration);
  }

  lemma ShortInput(src: seq<byte>, hs: Hashing, acceleration: nat, d: Directive, cap: int)
    requires acceleration >= 1 && |src| < MIN_LENGTH
    ensures Greedy(src, hs, acceleration) == [] && Stopped(d, cap, [], []) && FirstFit([], 0, cap)
  {
  }

  /** Outside fillOutput mode everything is written. */
  lemma StoppedLimited(d: Directive, cap: int, g: seq<Sequence>, ss: seq<Sequence>)
    requires Stopped(d, cap, g, ss)
    ensures !d.FillOutput? ==> ss == g
  {
  }

  lemma NothingEmitted(src: seq<byte>, dst: seq<byte>, d: Directive, cap: int)
    requires d.FillOutput? ==> cap >= 1
    requires d.NotLimited? ==> cap == |src| + |src| / 255 + 16
    ensures Emitted(src, dst, 0, 0, []) && Room(d, cap, |src|, 0, 0, [])
  {
    EmptyList();
  }

  /** The main loop: emits sequences until the last literals are all that is left to write. */
  method Sequences(table: array<nat>, src: seq<byte>, dst: array<byte>, d: Directive, cap: int, hs: Hashing,
      acceleration: nat)
    returns (st: Step, op: nat, anchor: nat, ghost ss: seq<Sequence>)
    requires MIN_LENGTH <= |src| <= MAX_INPUT_SIZE && (hs.t.ByU16? ==> |src| < LIMIT_64K)
    requires hs.Valid() && acceleration >= 1 && cap <= dst.Length
    requires table.Length == TABLE_SIZE && forall h :: 0 <= h < TABLE_SIZE ==> table[h] == 0
    requires Emitted(src, dst[..], 0, 0, []) && Room(d, cap, |src|, 0, 0, [])
    modifies table, dst
    ensures st.Failed? ==> d.LimitedOutput?
    ensures !st.Failed? ==> Emitted(src, dst[..], op, anchor, ss) && Room(d, cap, |src|, op, anchor, ss)
    ensures !st.Failed? ==> Stopped(d, cap, Greedy(src, hs, acceleration), ss)
    ensures d.LimitedOutput? ==>
      (st.Failed? <==> !FirstFit(Greedy(src, hs, acceleration), |Greedy(src, hs, acceleration)|, cap))
    ensures forall i :: 0 <= i < dst.Length && cap <= i ==> dst[i] == old(dst[i])
  {
    hide Valid, BlockBytes, Expand, LastBytes, Need, Agree, Opening, Emitted, Room, RoomForMatch, SearchEnds, Course,
      Stopped, FirstFit, FromSearch, FromMatch, Greedy, LiteralsFit, CanBegin;
    st, op, anchor, ss := Done, 0, 0, [];
    var ip: nat := 0;
    ghost var g := Greedy(src, hs, acceleration);
    ghost var empty := table[..];
    PutIndexOnHash(table, src, hs, 0, hs.Of(src, 0), 1);
    CourseBegins(src, hs, acceleration, d, cap, empty, table[..]);
    ip := ip + 1;
    var forwardH := hs.Of(src, ip);
    while true
      invariant st.Done? && anchor < ip && ip + 11 <= |src| && op <= dst.Length && forwardH == hs.Of(src, ip)
      invariant TableBelow(table[..], src, hs, ip)
      invariant Emitted(src, dst[..], op, anchor, ss) && Room(d, cap, |src|, op, anchor, ss)
      invariant Course(d, cap, g, ss, op, FromSearch(src, hs, acceleration, table[..], anchor, ip))
      invariant forall i :: 0 <= i < dst.Length && cap <= i ==> dst[i] == old(dst[i])
      decreases dst.Length - op
    {
      var found, filledIp, m0;
      ghost var tries;
      ghost var table0, from := table[..], ip;
      found, filledIp, m0, tries := FindMatch(table, src, hs, ip, forwardH, acceleration);
      if !found {
        SearchWasOver(src, hs, acceleration, table0, table[..], anchor, from, filledIp, m0, tries);
        CourseEnds(d, cap, g, ss, op);
        EndsFit(d, cap, g, ss);
        return;
      }
      var m: nat;
      ip, m := CatchUp(src, anchor, filledIp, m0);
      SearchFound(src, hs, acceleration, table0, table[..], anchor, from, filledIp, m0, tries, ip, m);
      var token := op;
      st, op := EmitLiterals(src, dst, d, cap, anchor, ip, token, ss);
      if !st.Done? {
        LiteralsStop(src, hs, acceleration, d, cap, g, ss, token, table[..], anchor, ip, m);
        return;
      }
      st, op, ip, anchor, ss := Chain(table, src, dst, d, cap, hs, acceleration, anchor, filledIp, ip, m, token, op, ss, g);
      if !st.Done? || ip > |src| - MFLIMIT {
        if st.Done? {
          CourseEnds(d, cap, g, ss, op);
        }
        EndsFit(d, cap, g, ss);
        return;
      }
      ip := ip + 1;
      forwardH := hs.Of(src, ip);
    }
  }

  /** From _next_match on: one match, and further matches that start right where the last one
      ended. Stops at a position to search from, or close to the end. */
  method Chain(table: array<nat>, src: seq<byte>, dst: array<byte>, d: Directive, cap: int, hs: Hashing,
      ghost acceleration: nat, startAnchor: nat, filledIp: nat, start: nat, startMatch: nat, startToken: nat,
      startOp: nat, ghost startSs: seq<Sequence>, ghost g: seq<Sequence>)
    returns (st: Step, op: nat, ip: nat, anchor: nat, ghost ss: seq<Sequence>)
    requires MIN_LENGTH <= |src| <= MAX_INPUT_SIZE && (hs.t.ByU16? ==> |src| < LIMIT_64K)
    requires startAnchor <= start <= filledIp && filledIp + MFLIMIT <= |src| && cap <= dst.Length
    requires startMatch < start && start - startMatch <= DISTANCE_MAX
    requires Agree(src, start, startMatch, MINMATCH)
    requires table.Length == TABLE_SIZE && hs.Valid() && TableFilled(table[..], src, hs, start, startMatch, filledIp)
    requires startToken < startOp <= dst.Length
    requires Emitted(src, dst[..], startToken, startAnchor, startSs)
    requires Room(d, cap, |src|, startToken, startAnchor, startSs)
    requires dst[..startOp] == BlockBytes(startSs) + Opening(src[startAnchor..start])
    requires RoomForMatch(d, cap, |src|, startOp, start)
    requires acceleration >= 1 && startOp == AfterLiterals(startToken, start - startAnchor)
    requires AtMatch(src, hs, acceleration, d, cap, g, startSs, startToken, table[..], startAnchor, start, startMatch)
    modifies dst, table
    ensures st.Failed? ==> d.LimitedOutput? && Refused(g, cap)
    ensures st.Rewound? ==> d.FillOutput? && Stopped(d, cap, g, ss)
    ensures st.Done? ==> Course(d, cap, g, ss, op,
      if ip + MFLIMIT <= |src| then FromSearch(src, hs, acceleration, table[..], ip, ip + 1) else [])
    ensures !st.Failed? ==> Emitted(src, dst[..], op, anchor, ss) && Room(d, cap, |src|, op, anchor, ss)
    ensures st.Done? ==> anchor == ip && startOp < op <= dst.Length
    ensures st.Done? && ip + MFLIMIT <= |src| ==> TableBelow(table[..], src, hs, ip + 1)
    ensures forall i :: 0 <= i < dst.Length && cap <= i ==> dst[i] == old(dst[i])
  {
    hide Valid, BlockBytes, Expand, Need, Agree, Opening, Emitted, Room, RoomForMatch, TableBelow, Course, Stopped,
      Refused, AtMatch, FromMatch, FromSearch, AfterMatch, Common;
    var token: nat, m: nat := startToken, startMatch;
    op, ip, anchor, ss := startOp, start, startAnchor, startSs;
    while true
      invariant anchor <= ip && ip + MFLIMIT <= |src| && startOp <= op
      invariant m < ip && ip - m <= DISTANCE_MAX && Agree(src, ip, m, MINMATCH)
      invariant NoRoomLeft(d, cap, op) || TableFilled(table[..], src, hs, ip, m, filledIp)
      invariant token < op <= dst.Length
      invariant Emitted(src, dst[..], token, anchor, ss) && Room(d, cap, |src|, token, anchor, ss)
      invariant dst[..op] == BlockBytes(ss) + Opening(src[anchor..ip])
      invariant RoomForMatch(d, cap, |src|, op, ip)
      invariant op == AfterLiterals(token, ip - anchor)
      invariant AtMatch(src, hs, acceleration, d, cap, g, ss, token, table[..], anchor, ip, m)
      invariant forall i :: 0 <= i < dst.Length && cap <= i ==> dst[i] == old(dst[i])
      decreases dst.Length - op
    {
      ghost var table0, ss0, ip0, anchor0, m0 := table[..], ss, ip, anchor, m;
      st, op, ip, ss := EmitMatch(src, dst, table, hs, d, cap, anchor, filledIp, ip, m, token, op, ss);
      if st.Rewound? {
        MatchRewound(src, hs, acceleration, d, cap, g, ss0, token, table0, anchor0, ip0, m0);
        return;
      }
      if st.Failed? {
        MatchRefused(src, hs, acceleration, d, cap, g, ss0, token, table0, anchor0, ip0, m0);
        return;
      }
      assert op == |BlockBytes(ss)| by { EmittedSize(src, dst[..], op, ip, ss); }
      MatchWritten(src, hs, acceleration, d, cap, g, ss0, token, table0, anchor0, ip0, m0, ip - ip0 - MINMATCH, op,
        table[..]);
      anchor := ip;
      ghost var table1 := table[..];
      if ip >= |src| - MFLIMIT + 1 {
        NoMoreMatches(src, hs, acceleration, table1, ip);
        return;
      }
      var again;
      again, m := NextPosition(table, src, hs, ip);
      NextMatch(src, hs, acceleration, table1, table[..], ip, m, again);
      if !again {
        return;
      }
      token := op;
      EmptyRun(src, dst[..], d, cap, op, ip, ss);
      ChainGoesOn(src, hs, acceleration, d, cap, g, ss, token, table[..], ip, m);
      dst[op] := 0;
      op := op + 1;
      assert dst[..op] == dst[..token] + [0];
    }
  }

  lemma EmittedSize(src: seq<byte>, dst: seq<byte>, op: nat, anchor: nat, ss: seq<Sequence>)
    requires Emitted(src, dst, op, anchor, ss)
    ensures op == |BlockBytes(ss)| && anchor == |Expand(ss)|
  {
  }

  lemma NoMoreMatches(src: seq<byte>, hs: Hashing, acceleration: nat, table: seq<nat>, e: nat)
    requires acceleration >= 1 && 2 <= e <= |src| < e + MFLIMIT
    ensures AfterMatch(src, hs, acceleration, table, e) == []
  {
  }

  /** What the second of the two positions at the end of a match decides. */
  lemma NextMatch(src: seq<byte>, hs: Hashing, acceleration: nat, table: seq<nat>, after: seq<nat>, e: nat, m: nat,
      again: bool)
    requires acceleration >= 1 && 2 <= e && e + MFLIMIT <= |src| && |table| == TABLE_SIZE && hs.Valid()
    requires hs.t.ByU16? ==> |src| < LIMIT_64K
    requires var first := table[hs.Of(src, e - 2) := e - 2];
      m == first[hs.Of(src, e)] && after == first[hs.Of(src, e) := e]
    requires m < e && (again <==> e - m <= DISTANCE_MAX && Agree(src, e, m, MINMATCH))
    ensures AfterMatch(src, hs, acceleration, table, e) ==
      if again then FromMatch(src, hs, acceleration, after, e, e, m)
      else FromSearch(src, hs, acceleration, after, e, e + 1)
  {
    hide FromMatch, FromSearch, Agree;
    var t := Taken(table, src, hs, e - 2);
    assert after == Taken(t, src, hs, e);
    assert Hit(t, src, hs, e) <==> again;
  }

  lemma ChainGoesOn(src: seq<byte>, hs: Hashing, acceleration: nat, d: Directive, cap: int, g: seq<Sequence>,
      ss: seq<Sequence>, op: nat, table: seq<nat>, e: nat, m: nat)
    requires acceleration >= 1 && m < e && e + MFLIMIT <= |src|
    requires Course(d, cap, g, ss, op, FromMatch(src, hs, acceleration, table, e, e, m))
    ensures AtMatch(src, hs, acceleration, d, cap, g, ss, op, table, e, e, m)
  {
  }

  lemma CourseBegins(src: seq<byte>, hs: Hashing, acceleration: nat, d: Directive, cap: int, empty: seq<nat>, table: seq<nat>)
    requires acceleration >= 1 && |src| >= MIN_LENGTH && hs.Valid()
    requires |empty| == TABLE_SIZE && forall h :: 0 <= h < TABLE_SIZE ==> empty[h] == 0
    requires table == empty[hs.Of(src, 0) := 0]
    ensures Course(d, cap, Greedy(src, hs, acceleration), [], 0, FromSearch(src, hs, acceleration, table, 0, 1))
  {
    hide FromSearch;
    assert empty == seq(TABLE_SIZE, _ => 0);
    var rest := FromSearch(src, hs, acceleration, table, 0, 1);
    assert [] + rest == rest;
  }

  lemma SearchWasOver(src: seq<byte>, hs: Hashing, acceleration: nat, table0: seq<nat>, table: seq<nat>, anchor: nat,
      start: nat, ip: nat, m: nat, tries: nat)
    requires acceleration >= 1 && anchor <= start && ip + 11 <= |src|
    requires SearchEnds(table0, table, src, hs, start, acceleration, false, ip, m, tries)
    ensures FromSearch(src, hs, acceleration, table0, anchor, start) == []
  {
    SearchEndsAt(table0, table, src, hs, start, acceleration, false, ip, m, tries);
  }

  /** A hit, extended backwards as far as it goes, is where the next match starts. */
  lemma {:induction false} SearchFound(src: seq<byte>, hs: Hashing, acceleration: nat, table0: seq<nat>, table: seq<nat>, anchor: nat,
      start: nat, filledIp: nat, m0: nat, tries: nat, ip: nat, m: nat)
    requires acceleration >= 1 && anchor < start <= filledIp && filledIp + MFLIMIT <= |src|
    requires SearchEnds(table0, table, src, hs, start, acceleration, true, filledIp, m0, tries)
    requires anchor <= ip <= filledIp && m0 < filledIp && ip - m == filledIp - m0
    requires Agree(src, ip, m, filledIp - ip + MINMATCH)
    requires ip == anchor || m == 0 || src[ip - 1] != src[m - 1]
    ensures FromSearch(src, hs, acceleration, table0, anchor, start)
      == FromMatch(src, hs, acceleration, table, anchor, ip, m)
  {
    hide SearchEnds, FromMatch, SearchFrom, Back, FromSearch, Common;
    SearchEndsAt(table0, table, src, hs, start, acceleration, true, filledIp, m0, tries);
    WentBack(src, anchor, filledIp, m0, ip, m);
    FromHit(src, hs, acceleration, table0, table, anchor, start, filledIp, m0);
  }

  lemma WentBack(src: seq<byte>, anchor: nat, p: nat, m0: nat, ip: nat, m: nat)
    requires anchor <= ip <= p && p + MFLIMIT <= |src| && m0 < p && ip - m == p - m0
    requires Agree(src, ip, m, p - ip + MINMATCH)
    requires ip == anchor || m == 0 || src[ip - 1] != src[m - 1]
    ensures Back(src, anchor, p, m0) == p - ip
  {
    forall i | ip <= i < p ensures src[i] == src[i - (p - m0)] {
      assert src[ip + (i - ip)] == src[m + (i - ip)];
    }
    hide Agree, Back;
    BackIs(src, anchor, p, m0, p - ip);
  }

  /** The literals of the next sequence do not fit. */
  lemma LiteralsStop(src: seq<byte>, hs: Hashing, acceleration: nat, d: Directive, cap: int, g: seq<Sequence>,
      ss: seq<Sequence>, op: nat, table: seq<nat>, anchor: nat, ip: nat, m: nat)
    requires acceleration >= 1 && anchor <= ip && m < ip && ip + MFLIMIT <= |src|
    requires Course(d, cap, g, ss, op, FromMatch(src, hs, acceleration, table, anchor, ip, m))
    ensures d.FillOutput? && !CanBegin(op, ip - anchor, cap) ==> Stopped(d, cap, g, ss)
    ensures d.LimitedOutput? && !LiteralsFit(op, ip - anchor, cap) ==> Refused(g, cap) && !FirstFit(g, |g|, cap)
  {
    var rest := FromMatch(src, hs, acceleration, table, anchor, ip, m);
    assert rest != [] && |rest[0].lit| == ip - anchor;
    hide Course, Stopped, FromMatch, FirstFit;
    if d.FillOutput? && !CanBegin(op, ip - anchor, cap) {
      CourseRewound(d, cap, g, ss, op, rest);
    }
    if d.LimitedOutput? && !LiteralsFit(op, ip - anchor, cap) {
      CourseRefused(d, cap, g, ss, op, rest);
    }
  }

  lemma EndsFit(d: Directive, cap: int, g: seq<Sequence>, ss: seq<Sequence>)
    ensures Refused(g, cap) <==> !FirstFit(g, |g|, cap)
  {
  }

  /** A token without literals. */
  lemma EmptyRun(src: seq<byte>, dst: seq<byte>, d: Directive, cap: int, op: nat, ip: nat, ss: seq<Sequence>)
    requires cap <= |dst| && Emitted(src, dst, op, ip, ss) && Room(d, cap, |src|, op, ip, ss)
    requires ip + MFLIMIT <= |src| && op > 0
    ensures op < cap && RoomForMatch(d, cap, |src|, op + 1, ip)
    ensures BlockBytes(ss) + Opening(src[ip..ip]) == dst[..op] + [0]
    ensures forall t :: |t| == |dst| && t[..op] == dst[..op] ==> Emitted(src, t, op, ip, ss)
  {
  }

  /** Registers the two positions at the end of a match and looks for a match at the second. */
  method NextPosition(table: array<nat>, src: seq<byte>, hs: Hashing, ip: nat) returns (again: bool, m: nat)
    requires |src| <= MAX_INPUT_SIZE && (hs.t.ByU16? ==> |src| < LIMIT_64K)
    requires table.Length == TABLE_SIZE && hs.Valid() && 2 <= ip && ip + MFLIMIT <= |src|
    requires TableBelow(table[..], src, hs, ip)
    modifies table
    ensures TableBelow(table[..], src, hs, ip + 1)
    ensures var first := old(table[..])[hs.Of(src, ip - 2) := ip - 2];
      m == first[hs.Of(src, ip)] && table[..] == first[hs.Of(src, ip) := ip]
    ensures m < ip
    ensures again <==> ip - m <= DISTANCE_MAX && Agree(src, ip, m, MINMATCH)
  {
    PutIndexOnHash(table, src, hs, ip - 2, hs.Of(src, ip - 2), ip);
    var h := hs.Of(src, ip);
    m := table[h];
    PutIndexOnHash(table, src, hs, ip, h, ip + 1);
    SameWord(src, ip, m, 4);
    again := (hs.t.ByU16? || m + DISTANCE_MAX >= ip) && Word(src, m, 4) == Word(src, ip, 4);
  }
}
