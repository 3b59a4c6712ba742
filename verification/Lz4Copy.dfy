/** The copy helpers of the decoder: they write in chunks, past the end they were asked for,
    and rely on the chunk never reading what it is writing. */
module Lz4Copy {
  import opened Lz4Format

  /** Copies `n` input bytes. */
  method CopyIn(src: seq<byte>, s: nat, dst: array<byte>, d: nat, n: nat)
    requires s + n <= |src| && d + n <= dst.Length
    modifies dst
    ensures forall i :: 0 <= i < d ==> dst[i] == old(dst[i])
    ensures forall i :: d <= i < d + n ==> dst[i] == src[s + i - d]
    ensures forall i :: d + n <= i < dst.Length ==> dst[i] == old(dst[i])
  {
    forall i | d <= i < d + n {
      dst[i] := src[s + i - d];
    }
  }

  /** Copies `n` bytes inside the output buffer; the two ranges are disjoint or identical. */
  method CopyBack(dst: array<byte>, d: nat, s: nat, n: nat)
    requires s + n <= d || s == d
    requires d + n <= dst.Length
    modifies dst
    ensures forall i :: 0 <= i < d ==> dst[i] == old(dst[i])
    ensures forall i :: d <= i < d + n ==> dst[i] == old(dst[i - (d - s)])
    ensures forall i :: d + n <= i < dst.Length ==> dst[i] == old(dst[i])
  {
    forall i | d <= i < d + n {
      dst[i] := dst[i - (d - s)];
    }
  }

  /** Input literals in chunks of `chunk` bytes: at least one chunk, and then until `e` is
      reached, so the last chunk may overshoot. */
  method WildCopyIn(src: seq<byte>, s: nat, dst: array<byte>, d: nat, e: nat, chunk: nat)
    requires chunk > 0 && d <= e
    requires d + chunk <= dst.Length && e + chunk - 1 <= dst.Length
    requires s + chunk <= |src| && s + (e - d) + chunk - 1 <= |src|
    modifies dst
    ensures forall i :: 0 <= i < d ==> dst[i] == old(dst[i])
    ensures forall i :: d <= i < e ==> dst[i] == src[s + i - d]
    ensures forall i :: d + chunk <= i < dst.Length && e + chunk - 1 <= i ==> dst[i] == old(dst[i])
  {
    var dd, ss := d, s;
    CopyIn(src, ss, dst, dd, chunk);
    dd, ss := dd + chunk, ss + chunk;
    while dd < e
      invariant ss - s == dd - d >= chunk
      invariant dd == d + chunk || dd < e + chunk
      invariant forall i :: 0 <= i < d ==> dst[i] == old(dst[i])
      invariant forall i :: d <= i < dd ==> dst[i] == src[s + i - d]
      invariant forall i :: dd <= i < dst.Length ==> dst[i] == old(dst[i])
    {
      CopyIn(src, ss, dst, dd, chunk);
      dd, ss := dd + chunk, ss + chunk;
    }
  }

  /** The same inside the output: every byte equals the one `d - s` places before it, which is
      what a byte-by-byte self-referential copy produces. */
  method WildCopyBack(dst: array<byte>, d: nat, s: nat, e: int, chunk: nat)
    requires chunk > 0 && s + chunk <= d
    requires d + chunk <= dst.Length && (d < e ==> e + chunk - 1 <= dst.Length)
    modifies dst
    ensures forall i :: 0 <= i < d ==> dst[i] == old(dst[i])
    ensures forall i :: d <= i < e || d <= i < d + chunk ==> dst[i] == dst[i - (d - s)]
    ensures forall i :: d + chunk <= i < dst.Length && e + chunk - 1 <= i ==> dst[i] == old(dst[i])
  {
    var dd, ss := d, s;
    CopyBack(dst, dd, ss, chunk);
    dd, ss := dd + chunk, ss + chunk;
    while dd < e
      invariant dd - ss == d - s && dd - d >= chunk
      invariant dd == d + chunk || dd < e + chunk
      invariant forall i :: 0 <= i < d ==> dst[i] == old(dst[i])
      invariant forall i :: d <= i < dd ==> dst[i] == dst[i - (d - s)]
      invariant forall i :: dd <= i < dst.Length ==> dst[i] == old(dst[i])
    {
      CopyBack(dst, dd, ss, chunk);
      dd, ss := dd + chunk, ss + chunk;
    }
  }

  // ---------------------------------------------------------------- short offsets

  const INC32 := [0, 1, 2, 1, 0, 4, 4, 4]
  const DEC64 := [0, 0, 0, -1, -4, 1, 2, 3]

  /** How far the second half of the first 8 bytes, and all later chunks, read back. */
  function HalfDistance(offset: nat): int
    requires offset < 8
  {
    offset + 4 - INC32[offset]
  }

  function WideDistance(offset: nat): int
    requires offset < 8
  {
    offset + 8 - INC32[offset] + DEC64[offset]
  }

  /** How many times the offset fits in each of the two distances. */
  function Multiple(distance: int, offset: nat): int
    requires offset > 0
  {
    distance / offset
  }

  /** The tables turn a distance below 8 into a multiple of itself that is at least 8. */
  lemma WidenedDistance(offset: nat)
    requires offset < 8
    ensures HalfDistance(offset) >= 4 && WideDistance(offset) >= 8
    ensures offset > 0 ==>
      && HalfDistance(offset) == Multiple(HalfDistance(offset), offset) * offset <= offset + 4
      && WideDistance(offset) == Multiple(WideDistance(offset), offset) * offset <= offset + 8
    ensures offset == 0 ==> HalfDistance(0) == 4 && WideDistance(0) == 8
  {
    assert offset in {0, 1, 2, 3, 4, 5, 6, 7};
  }

  /** Inside a stretch with period `o`, bytes `k * o` apart agree. */
  lemma {:induction false} SameResidue(b: seq<byte>, start: int, end: int, o: nat, i: int, k: nat)
    requires o > 0
    requires 0 <= start - o <= i - k * o && i < end <= |b|
    requires forall j :: start <= j < end ==> b[j] == b[j - o]
    ensures b[i] == b[i - k * o]
    decreases k
  {
    if k > 0 {
      assert (k - 1) * o == k * o - o;
      assert 0 <= (k - 1) * o;
      assert b[i] == b[i - o];
      SameResidue(b, start, end, o, i - o, k - 1);
    }
  }

  /** A stretch with period `o` followed by one copied from `k * o` back has period `o`
      throughout. */
  lemma {:induction false} Widen(b: seq<byte>, start: int, mid: int, end: int, o: nat, k: nat)
    requires o > 0 && k > 0
    requires 0 <= start - o <= mid - k * o && start <= mid <= end <= |b|
    requires forall j :: start <= j < mid ==> b[j] == b[j - o]
    requires forall j :: mid <= j < end ==> b[j] == b[j - k * o]
    ensures forall j :: start <= j < end ==> b[j] == b[j - o]
    decreases end - mid
  {
    if mid < end {
      assert (k - 1) * o == k * o - o;
      assert 0 <= (k - 1) * o;
      SameResidue(b, start, mid, o, mid - o, k - 1);
      assert b[mid] == b[mid - k * o] == b[mid - o];
      Widen(b, start, mid + 1, end, o, k);
    }
  }

  // ---------------------------------------------------------------- whole matches

  /** From bytes each equal to the one `offset` before, to the meaning of the match. */
  lemma CopiedIsExtend(before: seq<byte>, after: seq<byte>, offset: nat, n: nat)
    requires offset <= |before| && |before| + n <= |after|
    requires forall i :: 0 <= i < |before| ==> after[i] == before[i]
    requires forall i :: |before| <= i < |before| + n ==>
      after[i] == if offset == 0 then 0 else after[i - offset]
    ensures after[..|before| + n] == Extend(before, offset, n)
  {
    var r := after[..|before| + n];
    assert before <= r;
    PeriodicIsExtend(before, offset, r);
  }

  /** The first 4 bytes of a match closer than 8, copied one by one or in pairs over zeros. */
  method FirstFour(dst: array<byte>, d: nat, offset: nat, pairs: bool)
    requires offset < 8 && offset <= d && d + 4 <= dst.Length
    requires pairs ==> offset != 1
    modifies dst
    ensures forall i :: 0 <= i < d ==> dst[i] == old(dst[i])
    ensures forall i :: d <= i < d + 4 ==>
      dst[i] == if offset == 0 then 0 else dst[i - offset]
    ensures forall i :: d + 4 <= i < dst.Length ==> dst[i] == old(dst[i])
  {
    var m := d - offset;
    dst[d], dst[d + 1], dst[d + 2], dst[d + 3] := 0, 0, 0, 0;
    if pairs {
      CopyBack(dst, d, m, 2);
      CopyBack(dst, d + 2, m + 2, 2);
    } else {
      dst[d] := dst[m];
      dst[d + 1] := dst[m + 1];
      dst[d + 2] := dst[m + 2];
      dst[d + 3] := dst[m + 3];
    }
  }

  /** The first 8 bytes of a match closer than 8: 4 bytes from the match itself and 4 from
      where the table says. Returns where the following chunks read. */
  method FirstEight(dst: array<byte>, d: nat, offset: nat, pairs: bool) returns (from: nat)
    requires offset < 8 && offset <= d && d + 8 <= dst.Length
    requires pairs ==> offset != 1
    modifies dst
    ensures from == d + 8 - WideDistance(offset) && from <= d
    ensures forall i :: 0 <= i < d ==> dst[i] == old(dst[i])
    ensures forall i :: d <= i < d + 8 ==>
      dst[i] == if offset == 0 then 0 else dst[i - offset]
    ensures forall i :: d + 8 <= i < dst.Length ==> dst[i] == old(dst[i])
  {
    WidenedDistance(offset);
    FirstFour(dst, d, offset, pairs);
    ghost var half := HalfDistance(offset);
    var m := d - offset + INC32[offset];
    CopyBack(dst, d + 4, m, 4);
    from := m - DEC64[offset];
    assert forall i :: d + 4 <= i < d + 8 ==> dst[i] == dst[i - half];
    if offset > 0 {
      Widen(dst[..], d, d + 4, d + 8, offset, Multiple(half, offset));
    }
  }

  /** After the first 8 bytes, chunks read from the widened distance. */
  lemma WideTail(before: seq<byte>, after: seq<byte>, offset: nat, end: nat)
    requires offset < 8 && offset <= |before| && |before| + 8 <= end <= |after|
    requires forall i :: 0 <= i < |before| ==> after[i] == before[i]
    requires forall i :: |before| <= i < |before| + 8 ==>
      after[i] == if offset == 0 then 0 else after[i - offset]
    requires WideDistance(offset) <= |before| + 8
    requires forall i :: |before| + 8 <= i < end ==> after[i] == after[i - WideDistance(offset)]
    ensures forall i :: |before| <= i < end ==>
      after[i] == if offset == 0 then 0 else after[i - offset]
  {
    WidenedDistance(offset);
    var start := |before|;
    if offset == 0 {
      ZeroTail(after, start, end);
    } else {
      Widen(after, start, start + 8, end, offset, Multiple(WideDistance(offset), offset));
    }
  }

  lemma {:induction false} ZeroTail(b: seq<byte>, start: nat, end: nat)
    requires start + 8 <= end <= |b|
    requires forall i :: start <= i < start + 8 ==> b[i] == 0
    requires forall i :: start + 8 <= i < end ==> b[i] == b[i - 8]
    ensures forall i :: start <= i < end ==> b[i] == 0
  {
    if start + 8 < end {
      ZeroTail(b, start, end - 1);
      assert b[end - 1] == b[end - 1 - 8];
    }
  }

  /** LZ4_memcpy_using_offset_base: any other short offset, or plain 8-byte chunks. */
  method CopyUsingOffsetBase(dst: array<byte>, d: nat, offset: nat, e: nat)
    requires offset <= d && offset != 1 && d + MINMATCH <= e && e + 12 <= dst.Length
    modifies dst
    ensures forall i :: 0 <= i < d ==> dst[i] == old(dst[i])
    ensures forall i :: d <= i < e ==> dst[i] == if offset == 0 then 0 else dst[i - offset]
    ensures forall i :: e + 12 <= i < dst.Length ==> dst[i] == old(dst[i])
  {
    ghost var before := dst[..d];
    if offset < 8 {
      var from := FirstEight(dst, d, offset, true);
      label Eight:
      WildCopyBack(dst, d + 8, from, e, 8);
      ghost var end := if e < d + 8 then d + 8 else e;
      assert forall i :: d <= i < d + 8 ==> dst[i] == old@Eight(dst[i]);
      WideTail(before, dst[..], offset, end);
    } else {
      CopyBack(dst, d, d - offset, 8);
      WildCopyBack(dst, d + 8, d - offset + 8, e, 8);
    }
  }

  /** LZ4_memcpy_using_offset: the 1, 2 and 4 byte patterns are repeated from a register. */
  method CopyUsingOffset(dst: array<byte>, d: nat, offset: nat, e: nat)
    requires offset <= d && d + MINMATCH <= e && e + 12 <= dst.Length
    modifies dst
    ensures dst[..e] == Extend(old(dst[..d]), offset, e - d)
    ensures forall i :: e + 12 <= i < dst.Length ==> dst[i] == old(dst[i])
  {
    ghost var before := dst[..d];
    if offset == 1 || offset == 2 || offset == 4 {
      RepeatPattern(dst, d, offset, e);
    } else {
      CopyUsingOffsetBase(dst, d, offset, e);
    }
    CopiedIsExtend(before, dst[..], offset, e - d);
    assert dst[..][..d + (e - d)] == dst[..e];
  }

  method RepeatPattern(dst: array<byte>, d: nat, offset: nat, e: nat)
    requires offset == 1 || offset == 2 || offset == 4
    requires offset <= d && d + MINMATCH <= e && e + 12 <= dst.Length
    modifies dst
    ensures forall i :: 0 <= i < d ==> dst[i] == old(dst[i])
    ensures forall i :: d <= i < e ==> dst[i] == dst[i - offset]
    ensures forall i :: e + 12 <= i < dst.Length ==> dst[i] == old(dst[i])
  {
    var v := Pattern(dst, d - offset, offset);
    CopyIn(v, 0, dst, d, 8);
    var dd := d + 8;
    while dd < e
      invariant d + 8 <= dd && (dd == d + 8 || dd < e + 8)
      invariant forall i :: 0 <= i < d ==> dst[i] == old(dst[i])
      invariant forall i :: d <= i < d + 8 ==> dst[i] == v[i - d]
      invariant forall i :: d + 8 <= i < dd ==> dst[i] == dst[i - 8]
      invariant forall i :: dd - 8 <= i < dd ==> dst[i] == v[i - (dd - 8)]
      invariant forall i :: dd <= i < dst.Length ==> dst[i] == old(dst[i])
    {
      ghost var b := dst[..];
      CopyIn(v, 0, dst, dd, 8);
      PatternStep(b, dst[..], d, dd, v);
      dd := dd + 8;
    }
    PatternTail(dst[..], d, offset, dd, v);
  }

  method Pattern(dst: array<byte>, m: nat, offset: nat) returns (v: seq<byte>)
    requires offset == 1 || offset == 2 || offset == 4
    requires m + offset <= dst.Length
    ensures |v| == 8
    ensures forall i :: 0 <= i < offset ==> v[i] == dst[m + i]
    ensures forall i :: offset <= i < 8 ==> v[i] == v[i - offset]
  {
    if offset == 1 {
      v := [dst[m], dst[m], dst[m], dst[m], dst[m], dst[m], dst[m], dst[m]];
    } else if offset == 2 {
      v := [dst[m], dst[m + 1], dst[m], dst[m + 1]];
      v := [v[0], v[1], v[2], v[3], v[0], v[1], v[2], v[3]];
    } else {
      v := [dst[m], dst[m + 1], dst[m + 2], dst[m + 3], dst[m], dst[m + 1], dst[m + 2], dst[m + 3]];
    }
  }

  /** One more copy of the pattern keeps a period of 8. */
  lemma PatternStep(b: seq<byte>, c: seq<byte>, d: nat, dd: nat, v: seq<byte>)
    requires d + 8 <= dd && dd + 8 <= |b| == |c| && |v| == 8
    requires forall i :: 0 <= i < dd ==> c[i] == b[i]
    requires forall i :: dd <= i < dd + 8 ==> c[i] == v[i - dd]
    requires forall i :: d + 8 <= i < dd ==> b[i] == b[i - 8]
    requires forall i :: dd - 8 <= i < dd ==> b[i] == v[i - (dd - 8)]
    ensures forall i :: d + 8 <= i < dd + 8 ==> c[i] == c[i - 8]
  {
    forall i | dd <= i < dd + 8
      ensures c[i] == c[i - 8]
    {
      assert c[i - 8] == b[i - 8] == v[i - dd];
    }
  }

  lemma PatternTail(b: seq<byte>, d: nat, offset: nat, end: nat, v: seq<byte>)
    requires offset == 1 || offset == 2 || offset == 4
    requires offset <= d && d + 8 <= end <= |b| && |v| == 8
    requires forall i :: 0 <= i < offset ==> v[i] == b[d - offset + i]
    requires forall i :: offset <= i < 8 ==> v[i] == v[i - offset]
    requires forall i :: d <= i < d + 8 ==> b[i] == v[i - d]
    requires forall i :: d + 8 <= i < end ==> b[i] == b[i - 8]
    ensures forall i :: d <= i < end ==> b[i] == b[i - offset]
  {
    forall i | d <= i < d + 8
      ensures b[i] == b[i - offset]
    {
      assert b[i] == v[i - d];
      if i < d + offset {
        assert v[i - d] == b[d - offset + (i - d)];
      } else {
        assert b[i - offset] == v[i - offset - d];
      }
    }
    Widen(b, d, d + 8, end, offset, if offset == 1 then 8 else if offset == 2 then 4 else 2);
  }

  /** The 8 + 8 + 2 bytes that cover any match of at most 18 bytes at distance 8 or more. */
  method CopyEighteen(dst: array<byte>, d: nat, offset: nat, length: nat)
    requires 8 <= offset <= d && d + 18 <= dst.Length && length <= 18
    modifies dst
    ensures dst[..d + length] == Extend(old(dst[..d]), offset, length)
    ensures forall i :: d + 18 <= i < dst.Length ==> dst[i] == old(dst[i])
  {
    ghost var before := dst[..d];
    CopyBack(dst, d, d - offset, 8);
    CopyBack(dst, d + 8, d + 8 - offset, 8);
    CopyBack(dst, d + 16, d + 16 - offset, 2);
    CopiedIsExtend(before, dst[..], offset, length);
    assert dst[..][..d + length] == dst[..d + length];
  }

  /** The fast loop's match copy, away from the end of the output. */
  method CopyMatchFast(dst: array<byte>, d: nat, offset: nat, length: nat)
    requires offset <= d && length >= MINMATCH && d + length + 32 <= dst.Length
    modifies dst
    ensures dst[..d + length] == Extend(old(dst[..d]), offset, length)
    ensures forall i :: d + length + 32 <= i < dst.Length ==> dst[i] == old(dst[i])
  {
    if offset < 16 {
      CopyUsingOffset(dst, d, offset, d + length);
    } else {
      ghost var before := dst[..d];
      CopyBack32(dst, d, d - offset, d + length);
      CopiedIsExtend(before, dst[..], offset, length);
      assert dst[..][..d + length] == dst[..d + length];
    }
  }

  /** LZ4_wildCopy32: two 16-byte copies a round, so a distance of 16 is enough. */
  method CopyBack32(dst: array<byte>, d: nat, s: nat, e: nat)
    requires s + 16 <= d < e && e + 31 <= dst.Length
    modifies dst
    ensures forall i :: 0 <= i < d ==> dst[i] == old(dst[i])
    ensures forall i :: d <= i < e ==> dst[i] == dst[i - (d - s)]
    ensures forall i :: e + 31 <= i < dst.Length ==> dst[i] == old(dst[i])
  {
    var dd, ss := d, s;
    while dd < e
      invariant dd - ss == d - s && d <= dd < e + 32
      invariant forall i :: 0 <= i < d ==> dst[i] == old(dst[i])
      invariant forall i :: d <= i < dd ==> dst[i] == dst[i - (d - s)]
      invariant forall i :: dd <= i < dst.Length ==> dst[i] == old(dst[i])
    {
      CopyBack(dst, dd, ss, 16);
      CopyBack(dst, dd + 16, ss + 16, 16);
      dd, ss := dd + 32, ss + 32;
    }
  }

  /** The safe loop's match copy: refuses a match that would leave fewer than 5 bytes, and
      never writes past `oend`. */
  method CopyMatchSafe(dst: array<byte>, d: nat, offset: nat, length: nat, oend: nat) returns (ok: bool)
    requires offset <= d && length >= MINMATCH && d + 12 <= oend <= dst.Length
    modifies dst
    ensures ok == (d + length + LASTLITERALS <= oend)
    ensures ok ==> dst[..d + length] == Extend(old(dst[..d]), offset, length)
    ensures forall i :: oend <= i < dst.Length ==> dst[i] == old(dst[i])
  {
    ghost var before := dst[..d];
    var m := d - offset;
    if offset < 8 {
      m := FirstEight(dst, d, offset, false);
    } else {
      CopyBack(dst, d, m, 8);
      m := m + 8;
    }
    label Eight:
    ok := CopyRest(dst, d + 8, m, length, oend);
    if ok {
      ghost var end := if length < 8 then d + 8 else d + length;
      assert forall i :: 0 <= i < d + 8 ==> dst[i] == old@Eight(dst[i]);
      if offset < 8 {
        WideTail(before, dst[..], offset, end);
      }
      CopiedIsExtend(before, dst[..], offset, length);
      assert dst[..][..d + length] == dst[..d + length];
    }
  }

  /** What follows the first 8 bytes of a match: 8-byte chunks as long as they fit, then bytes. */
  method CopyRest(dst: array<byte>, d8: nat, s: nat, length: nat, oend: nat) returns (ok: bool)
    requires 8 <= d8 && s + 8 <= d8 && length >= MINMATCH && d8 + 4 <= oend <= dst.Length
    modifies dst
    ensures ok == (d8 - 8 + length + LASTLITERALS <= oend)
    ensures forall i :: 0 <= i < d8 ==> dst[i] == old(dst[i])
    ensures ok ==> forall i :: d8 <= i < d8 - 8 + length ==> dst[i] == dst[i - (d8 - s)]
    ensures forall i :: oend <= i < dst.Length ==> dst[i] == old(dst[i])
  {
    var op, m, cpy := d8, s, d8 - 8 + length;
    if cpy > oend - 12 {
      var copyLimit := oend - 7;
      if cpy > oend - LASTLITERALS {
        return false;
      }
      if op < copyLimit {
        WildCopyBack(dst, op, m, copyLimit, 8);
        m := m + (copyLimit - op);
        op := copyLimit;
      }
      while op < cpy
        invariant op - m == d8 - s && d8 <= op <= oend
        invariant forall i :: 0 <= i < d8 ==> dst[i] == old(dst[i])
        invariant forall i :: d8 <= i < op ==> dst[i] == dst[i - (d8 - s)]
        invariant forall i :: oend <= i < dst.Length ==> dst[i] == old(dst[i])
      {
        dst[op] := dst[m];
        op, m := op + 1, m + 1;
      }
    } else {
      CopyBack(dst, op, m, 8);
      if length > 16 {
        WildCopyBack(dst, op + 8, m + 8, cpy, 8);
      }
    }
    return true;
  }

  /** Partial decoding near the end of the output: only what fits is copied. */
  method CopyMatchPartial(dst: array<byte>, d: nat, offset: nat, n: nat)
    requires offset <= d && d + n <= dst.Length
    modifies dst
    ensures offset > 0 ==> dst[..d + n] == Extend(old(dst[..d]), offset, n)
    ensures forall i :: d + n <= i < dst.Length ==> dst[i] == old(dst[i])
  {
    ghost var before := dst[..d];
    var m := d - offset;
    if m + n > d {
      var op := d;
      while op < d + n
        invariant d <= op <= d + n && op - m == offset
        invariant forall i :: 0 <= i < d ==> dst[i] == old(dst[i])
        invariant offset > 0 ==> forall i :: d <= i < op ==> dst[i] == dst[i - offset]
        invariant forall i :: op <= i < dst.Length ==> dst[i] == old(dst[i])
      {
        dst[op] := dst[m];
        op, m := op + 1, m + 1;
      }
    } else {
      CopyBack(dst, d, m, n);
    }
    if offset > 0 {
      CopiedIsExtend(before, dst[..], offset, n);
      assert dst[..][..d + n] == dst[..d + n];
    }
  }
}
