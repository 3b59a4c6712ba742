/** The writing side of the compressor: lengths, literal runs, match lengths and last literals,
    written in place, and what they leave in the output. */
module Lz4Emit {
  import opened Lz4Format
  import opened Lz4Write
  import opened Lz4Copy

  datatype Directive = NotLimited | LimitedOutput | FillOutput

  // ---------------------------------------------------------------- sizes

  lemma {:induction false} LengthBytesSize(n: nat)
    ensures |LengthBytes(n)| == n / 255 + 1
    decreases n
  {
    if n >= 255 {
      LengthBytesSize(n - 255);
    }
  }

  function ExtensionSize(n: nat): nat {
    if n < 15 then 0 else (n - 15) / 255 + 1
  }

  lemma ExtensionSized(n: nat)
    ensures |Extension(n)| == ExtensionSize(n)
  {
    if n >= 15 {
      LengthBytesSize(n - 15);
    }
  }

  /** Every block made of sequences is within the bound for what it stands for. */
  lemma {:induction false} SequencesSize(ss: seq<Sequence>)
    requires Valid(ss)
    ensures 255 * |BlockBytes(ss)| <= 256 * |Expand(ss)|
    decreases |ss|
  {
    if ss != [] {
      var k := |ss| - 1;
      PrefixStep(ss, k);
      assert ss[..k + 1] == ss;
      hide BlockBytes, Expand, Extend, Extension;
      assert Valid(ss[..k]) by { ValidPrefix(ss, k); }
      SequencesSize(ss[..k]);
      ExtensionSized(|ss[k].lit|);
      ExtensionSized(ss[k].code);
    }
  }

  lemma ValidPrefix(ss: seq<Sequence>, k: nat)
    requires Valid(ss) && k <= |ss|
    ensures Valid(ss[..k])
  {
    forall i | 0 <= i < k
      ensures ValidAt(ss[..k], i)
    {
      assert ValidAt(ss, i) && ss[..k][..i] == ss[..i];
    }
  }

  lemma BlockSize(ss: seq<Sequence>, last: seq<byte>)
    requires Valid(ss)
    ensures WithinBound(|Block(ss, last)|, |Expand(ss)| + |last|)
  {
    hide Valid, BlockBytes, Expand, Extension;
    SequencesSize(ss);
    ExtensionSized(|last|);
  }

  /** A block of `size` bytes for `n` bytes: at most two bytes over n + n / 255. */
  predicate WithinBound(size: nat, n: nat) {
    255 * size <= 256 * n + 495
  }

  /** `n / 255` bytes 255 and the rest. */
  lemma {:induction false} LengthBytesAt(n: nat, s: seq<byte>)
    requires |s| == n / 255 + 1 && s[n / 255] == n % 255
    requires forall i :: 0 <= i < n / 255 ==> s[i] == 255
    ensures s == LengthBytes(n)
    decreases n
  {
    if n >= 255 {
      LengthBytesAt(n - 255, s[1..]);
      assert s == [255] + s[1..];
    }
  }

  lemma LengthWritten(before: seq<byte>, now: seq<byte>, n: nat)
    requires |now| == |before| + n / 255 + 1 && before <= now
    requires forall i :: |before| <= i < |now| - 1 ==> now[i] == 255
    requires now[|now| - 1] == n % 255
    ensures now == before + LengthBytes(n)
  {
    var s := now[|before|..];
    assert now == before + s;
    LengthBytesAt(n, s);
  }

  // ---------------------------------------------------------------- writing

  /** Extension bytes of a literal length. */
  method WriteLength(dst: array<byte>, start: nat, n: nat) returns (op: nat)
    requires start + n / 255 + 1 <= dst.Length
    modifies dst
    ensures op == start + n / 255 + 1
    ensures dst[..op] == old(dst[..start]) + LengthBytes(n)
    ensures forall i :: op <= i < dst.Length ==> dst[i] == old(dst[i])
  {
    ghost var before := dst[..start];
    var len := n;
    op := start;
    while len >= 255
      invariant 0 <= len && op - start == (n - len) / 255 && (n - len) % 255 == 0
      invariant op + len / 255 + 1 == start + n / 255 + 1
      invariant forall i :: 0 <= i < start ==> dst[i] == old(dst[i])
      invariant forall i :: start <= i < op ==> dst[i] == 255
      invariant forall i :: op <= i < dst.Length ==> dst[i] == old(dst[i])
    {
      dst[op] := 255;
      op, len := op + 1, len - 255;
    }
    dst[op] := len;
    op := op + 1;
    LengthWritten(before, dst[..op], n);
  }

  method Write32Ones(dst: array<byte>, op: nat)
    requires op + 4 <= dst.Length
    modifies dst
    ensures forall i :: op <= i < op + 4 ==> dst[i] == 255
    ensures forall i :: 0 <= i < dst.Length && !(op <= i < op + 4) ==> dst[i] == old(dst[i])
  {
    dst[op], dst[op + 1], dst[op + 2], dst[op + 3] := 255, 255, 255, 255;
  }

  /** Extension bytes of a match length: four 255s are laid down ahead each time, and the last
      of them overwritten. */
  method WriteMatchLength(dst: array<byte>, start: nat, n: nat) returns (op: nat)
    requires start + n / 255 + 4 <= dst.Length
    modifies dst
    ensures op == start + n / 255 + 1
    ensures dst[..op] == old(dst[..start]) + LengthBytes(n)
    ensures forall i :: op + 3 <= i < dst.Length ==> dst[i] == old(dst[i])
  {
    ghost var before := dst[..start];
    var code := n;
    op := start;
    Write32Ones(dst, op);
    while code >= 4 * 255
      invariant 0 <= code && op - start == (n - code) / 255 && (n - code) % 255 == 0
      invariant op + code / 255 == start + n / 255
      invariant forall i :: 0 <= i < start ==> dst[i] == old(dst[i])
      invariant forall i :: start <= i < op + 4 ==> dst[i] == 255
      invariant forall i :: op + 4 <= i < dst.Length ==> dst[i] == old(dst[i])
    {
      op := op + 4;
      Write32Ones(dst, op);
      code := code - 4 * 255;
    }
    op := op + code / 255;
    dst[op] := code % 255;
    op := op + 1;
    LengthWritten(before, dst[..op], n);
  }

  /** Bytes of a sequence up to its literals, the match half of the token still zero. */
  function Opening(lit: seq<byte>): seq<byte> {
    [Token(|lit|, 0)] + (Extension(|lit|) + lit)
  }

  /** Token and literal length of a run. */
  method WriteRun(dst: array<byte>, start: nat, n: nat) returns (op: nat)
    requires start + 1 + ExtensionSize(n) <= dst.Length
    modifies dst
    ensures op == start + 1 + ExtensionSize(n)
    ensures dst[..op] == old(dst[..start]) + ([Token(n, 0)] + Extension(n))
    ensures forall i :: op <= i < dst.Length ==> dst[i] == old(dst[i])
  {
    hide LengthBytes;
    ghost var before := dst[..start];
    op := start + 1;
    if n >= RUN_MASK {
      dst[start] := RUN_MASK * 16;
      assert dst[..op] == before + [Token(n, 0)];
      op := WriteLength(dst, op, n - RUN_MASK);
    } else {
      dst[start] := n * 16;
    }
  }

  /** Token, literal length and literals; the literals overshoot by up to 8 bytes. */
  method WriteLiterals(src: seq<byte>, dst: array<byte>, token: nat, anchor: nat, litLength: nat) returns (op: nat)
    requires anchor + litLength + 8 <= |src|
    requires token + 1 + ExtensionSize(litLength) + litLength + (if litLength == 0 then 8 else 7) <= dst.Length
    modifies dst
    ensures op == token + 1 + ExtensionSize(litLength) + litLength
    ensures dst[..op] == old(dst[..token]) + Opening(src[anchor..anchor + litLength])
    ensures forall i :: op + (if litLength == 0 then 8 else 7) <= i < dst.Length ==> dst[i] == old(dst[i])
  {
    hide LengthBytes, Extension, Token;
    op := WriteRun(dst, token, litLength);
    ghost var head := dst[..op];
    WildCopyIn(src, anchor, dst, op, op + litLength, 8);
    op := op + litLength;
    assert dst[..op] == head + src[anchor..anchor + litLength];
  }

  /** Offset of the match. */
  method WriteOffset(dst: array<byte>, op: nat, offset: nat)
    requires op + 2 <= dst.Length && offset <= DISTANCE_MAX
    modifies dst
    ensures dst[..op + 2] == old(dst[..op]) + OffsetBytes(offset)
    ensures forall i :: op + 2 <= i < dst.Length ==> dst[i] == old(dst[i])
  {
    dst[op] := offset % 256;
    dst[op + 1] := offset / 256;
  }

  /** Match length: completes the token and closes the sequence. */
  method WriteMatchCode(dst: array<byte>, token: nat, start: nat, code: nat, ghost before: seq<byte>, ghost lit: seq<byte>,
      ghost offset: nat)
    returns (op: nat)
    requires |before| == token < start
    requires start + ExtensionSize(code) + (if code >= 15 then 3 else 0) <= dst.Length
    requires dst[..start] == before + (Opening(lit) + OffsetBytes(offset))
    modifies dst
    ensures op == start + ExtensionSize(code)
    ensures dst[..op] == before + SequenceBytes(Sequence(lit, offset, code))
    ensures forall i :: op + 3 <= i < dst.Length ==> dst[i] == old(dst[i])
  {
    hide LengthBytes, Extension;
    op := start;
    assert dst[token] == dst[..start][token] == Token(|lit|, 0);
    ghost var rest := Extension(|lit|) + (lit + OffsetBytes(offset));
    assert dst[..start] == before + ([Token(|lit|, 0)] + rest);
    assert [Token(|lit|, code)] + rest + Extension(code) == SequenceBytes(Sequence(lit, offset, code));
    dst[token] := dst[token] + (if code >= ML_MASK then ML_MASK else code);
    assert dst[..start] == before + ([Token(|lit|, code)] + rest);
    if code >= ML_MASK {
      op := WriteMatchLength(dst, op, code - ML_MASK);
      assert Extension(code) == LengthBytes(code - ML_MASK) by { ExtensionLong(code); }
    } else {
      assert Extension(code) == [] by { ExtensionShort(code); }
    }
    assert dst[..op] == before + ([Token(|lit|, code)] + rest) + Extension(code);
  }

  lemma ExtensionLong(n: nat)
    requires n >= 15
    ensures Extension(n) == LengthBytes(n - 15)
  {
  }

  lemma ExtensionShort(n: nat)
    requires n < 15
    ensures Extension(n) == []
  {
  }

  /** Last literals of a block, copied exactly. */
  method WriteLastLiterals(src: seq<byte>, dst: array<byte>, start: nat, anchor: nat, lastRun: nat) returns (op: nat)
    requires anchor + lastRun <= |src|
    requires start + 1 + ExtensionSize(lastRun) + lastRun <= dst.Length
    modifies dst
    ensures op == start + 1 + ExtensionSize(lastRun) + lastRun
    ensures dst[..op] == old(dst[..start]) + LastBytes(src[anchor..anchor + lastRun])
    ensures forall i :: op <= i < dst.Length ==> dst[i] == old(dst[i])
  {
    hide LengthBytes, Extension, Token;
    op := WriteRun(dst, start, lastRun);
    ghost var head := dst[..op];
    CopyIn(src, anchor, dst, op, lastRun);
    op := op + lastRun;
    assert dst[..op] == head + src[anchor..anchor + lastRun];
  }
}
