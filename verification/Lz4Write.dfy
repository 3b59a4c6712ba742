/** Blocks as values: a list of sequences and the last literals, their bytes, and the proof that
    reading those bytes gives back what the list means. */
module Lz4Write {
  import opened Lz4Format
  import opened Slices

  /** Literals, then a match of `code + MINMATCH` bytes. */
  datatype Sequence = Sequence(lit: seq<byte>, offset: nat, code: nat)

  function Nibble(n: nat): byte { if n >= 15 then 15 else n }

  function LengthBytes(n: nat): seq<byte> {
    if n < 255 then [n] else [255] + LengthBytes(n - 255)
  }

  function Extension(n: nat): seq<byte> {
    if n < 15 then [] else LengthBytes(n - 15)
  }

  function Token(literals: nat, code: nat): byte {
    var hi: int, lo: int := Nibble(literals), Nibble(code);
    16 * hi + lo
  }

  function OffsetBytes(offset: nat): (r: seq<byte>)
    ensures |r| == 2
  {
    [offset % 256, offset / 256 % 256]
  }

  function SequenceBytes(s: Sequence): (r: seq<byte>) {
    [Token(|s.lit|, s.code)] + (Extension(|s.lit|) + (s.lit + (OffsetBytes(s.offset) + Extension(s.code))))
  }

  function LastBytes(lit: seq<byte>): (r: seq<byte>) {
    [Token(|lit|, 0)] + (Extension(|lit|) + lit)
  }

  /** The bytes the sequences stand for. */
  function Expand(ss: seq<Sequence>): seq<byte>
  {
    if ss == [] then []
    else
      var s := ss[|ss| - 1];
      var out := Expand(ss[..|ss| - 1]) + s.lit;
      if s.offset <= |out| then Extend(out, s.offset, s.code + MINMATCH) else out
  }

  function BlockBytes(ss: seq<Sequence>): seq<byte>
  {
    if ss == [] then []
    else BlockBytes(ss[..|ss| - 1]) + SequenceBytes(ss[|ss| - 1])
  }

  function Block(ss: seq<Sequence>, last: seq<byte>): seq<byte>
  {
    BlockBytes(ss) + LastBytes(last)
  }

  /** Every match refers to bytes already produced. */
  predicate Valid(ss: seq<Sequence>)
  {
    forall k :: 0 <= k < |ss| ==> ValidAt(ss, k)
  }

  predicate ValidAt(ss: seq<Sequence>, k: nat)
    requires k < |ss|
  {
    1 <= ss[k].offset <= DISTANCE_MAX && ss[k].offset <= |Expand(ss[..k])| + |ss[k].lit|
  }

  /** How many last literals the parsing restrictions ask for after these sequences. */
  function Need(ss: seq<Sequence>): nat {
    if ss == [] then 0
    else
      var l := ss[|ss| - 1].code + MINMATCH;
      if l + LASTLITERALS >= MFLIMIT then LASTLITERALS else MFLIMIT - l
  }

  lemma Snoc(ss: seq<Sequence>, s: Sequence)
    requires Valid(ss) && 1 <= s.offset <= DISTANCE_MAX && s.offset <= |Expand(ss)| + |s.lit|
    ensures Valid(ss + [s])
    ensures Expand(ss + [s]) == Extend(Expand(ss) + s.lit, s.offset, s.code + MINMATCH)
    ensures BlockBytes(ss + [s]) == BlockBytes(ss) + SequenceBytes(s)
    ensures Need(ss + [s]) == if s.code < 3 then 8 - s.code else LASTLITERALS
  {
    var tt := ss + [s];
    assert tt[..|tt| - 1] == ss;
    forall k | 0 <= k < |tt|
      ensures ValidAt(tt, k)
    {
      if k < |ss| {
        assert ValidAt(ss, k) && tt[..k] == ss[..k];
      }
    }
  }

  // ---------------------------------------------------------------- reading back

  lemma {:induction false} ReadsLengthBytes(src: seq<byte>, ip: nat, n: nat)
    requires Placed(src, ip, LengthBytes(n))
    ensures ReadLength(src, ip) == Length(n, ip + |LengthBytes(n)|)
    decreases n
  {
    if n < 255 {
      assert src[ip..ip + 1][0] == src[ip];
    } else {
      AtSplit(src, ip, [255], LengthBytes(n - 255));
      assert src[ip..ip + 1][0] == src[ip];
      ReadsLengthBytes(src, ip + 1, n - 255);
    }
  }

  lemma ReadsExtension(src: seq<byte>, ip: nat, n: nat)
    requires Placed(src, ip, Extension(n))
    ensures LengthAt(src, ip, Nibble(n)) == Length(n, ip + |Extension(n)|)
  {
    if n >= 15 {
      ReadsLengthBytes(src, ip, n - 15);
    }
  }

  /** Where the literals of a sequence written at `ip` start. */
  function LiteralsOf(ip: nat, s: Sequence): nat {
    ip + 1 + |Extension(|s.lit|)|
  }

  lemma SequenceLayout(src: seq<byte>, ip: nat, s: Sequence)
    requires s.offset <= DISTANCE_MAX && Placed(src, ip, SequenceBytes(s))
    ensures var lit := LiteralsOf(ip, s);
      var end := lit + |s.lit|;
      && ip < |src| && src[ip] == Token(|s.lit|, s.code)
      && Placed(src, ip + 1, Extension(|s.lit|)) && Placed(src, lit, s.lit)
      && end + 2 <= |src| && ReadLE16(src, end) == s.offset && Placed(src, end + 2, Extension(s.code))
      && end + 2 + |Extension(s.code)| == ip + |SequenceBytes(s)|
  {
    hide LengthBytes, Extension, Token, OffsetBytes, ReadLE16;
    var t := [Token(|s.lit|, s.code)];
    var e1, o, e2 := Extension(|s.lit|), OffsetBytes(s.offset), Extension(s.code);
    AtSplit(src, ip, t, e1 + (s.lit + (o + e2)));
    AtSplit(src, ip + 1, e1, s.lit + (o + e2));
    var lit := ip + 1 + |e1|;
    AtSplit(src, lit, s.lit, o + e2);
    var end := lit + |s.lit|;
    AtSplit(src, end, o, e2);
    AtIndex(src, ip, t, 0);
    OffsetAt(src, end, s.offset);
  }

  lemma OffsetAt(src: seq<byte>, p: nat, offset: nat)
    requires offset <= DISTANCE_MAX && Placed(src, p, OffsetBytes(offset))
    ensures p + 2 <= |src| && ReadLE16(src, p) == offset
  {
    AtIndex(src, p, OffsetBytes(offset), 0);
    AtIndex(src, p, OffsetBytes(offset), 1);
  }

  lemma ReadsSequence(src: seq<byte>, ip: nat, s: Sequence)
    requires s.offset <= DISTANCE_MAX && Placed(src, ip, SequenceBytes(s))
    ensures ip < |src| && LiteralsOf(ip, s) + |s.lit| <= |src|
    ensures Parse(src, ip)
      == Match(LiteralsOf(ip, s), |s.lit|, s.offset, s.code + MINMATCH, ip + |SequenceBytes(s)|)
    ensures src[LiteralsOf(ip, s)..][..|s.lit|] == s.lit
  {
    hide LengthBytes, Extension, ReadLength, LengthAt, SequenceBytes;
    SequenceLayout(src, ip, s);
    ReadsExtension(src, ip + 1, |s.lit|);
    ReadsExtension(src, LiteralsOf(ip, s) + |s.lit| + 2, s.code);
  }

  lemma ReadsLast(src: seq<byte>, ip: nat, lit: seq<byte>)
    requires Placed(src, ip, LastBytes(lit)) && ip + |LastBytes(lit)| == |src|
    ensures Parse(src, ip) == Final(|src| - |lit|, |lit|) && src[|src| - |lit|..] == lit
  {
    hide LengthBytes, Extension, ReadLength;
    var t, e := [Token(|lit|, 0)], Extension(|lit|);
    AtSplit(src, ip, t, e + lit);
    AtSplit(src, ip + 1, e, lit);
    assert src[ip] == src[ip..ip + 1][0] == t[0];
    ReadsExtension(src, ip + 1, |lit|);
  }

  lemma PrefixStep(ss: seq<Sequence>, k: nat)
    requires Valid(ss) && k < |ss|
    ensures ValidAt(ss, k)
    ensures Expand(ss[..k + 1]) == Extend(Expand(ss[..k]) + ss[k].lit, ss[k].offset, ss[k].code + MINMATCH)
    ensures BlockBytes(ss[..k + 1]) == BlockBytes(ss[..k]) + SequenceBytes(ss[k])
  {
    hide SequenceBytes, Extend;
    assert ValidAt(ss, k);
    var tt := ss[..k + 1];
    assert tt[..|tt| - 1] == ss[..k] && tt[|tt| - 1] == ss[k];
  }

  lemma {:induction false} PrefixOfBlock(ss: seq<Sequence>, k: nat)
    requires Valid(ss) && k <= |ss|
    ensures BlockBytes(ss[..k]) <= BlockBytes(ss)
    ensures |Expand(ss[..k])| <= |Expand(ss)|
    decreases |ss| - k
  {
    hide SequenceBytes;
    if k < |ss| {
      PrefixStep(ss, k);
      PrefixOfBlock(ss, k + 1);
    } else {
      assert ss[..k] == ss;
    }
  }

  /** The parsing restrictions hold of every sequence once enough last literals follow. */
  lemma {:induction false} RoomAfter(ss: seq<Sequence>, k: nat)
    requires Valid(ss) && k < |ss|
    ensures var start := |Expand(ss[..k])| + |ss[k].lit|;
      && start + MFLIMIT <= |Expand(ss)| + Need(ss)
      && start + ss[k].code + MINMATCH + LASTLITERALS <= |Expand(ss)| + Need(ss)
  {
    hide SequenceBytes, BlockBytes;
    PrefixStep(ss, k);
    if k + 1 == |ss| {
      assert ss[..k + 1] == ss;
    } else {
      PrefixStep(ss, k + 1);
      PrefixOfBlock(ss, k + 2);
    }
  }

  /** The block read from position `ip` on, where `out` has been produced. */
  ghost predicate Reads(src: seq<byte>, ip: nat, out: seq<byte>, result: seq<byte>)
  {
    && ip <= |src|
    && InInput(src, Parse(src, ip))
    && Run(src, Parse(src, ip), out) == Good(result)
    && Legal(src, Parse(src, ip), |out|, |result|)
  }

  lemma {:induction false} ReadsOneMore(src: seq<byte>, ip: nat, out: seq<byte>, s: Sequence, result: seq<byte>)
    requires 1 <= s.offset <= DISTANCE_MAX && s.offset <= |out| + |s.lit|
    requires Placed(src, ip, SequenceBytes(s))
    requires |out| + |s.lit| + MFLIMIT <= |result|
    requires |out| + |s.lit| + s.code + MINMATCH + LASTLITERALS <= |result|
    requires Reads(src, ip + |SequenceBytes(s)|, Extend(out + s.lit, s.offset, s.code + MINMATCH), result)
    ensures Reads(src, ip, out, result)
  {
    hide SequenceBytes, Parse, Extend, LiteralsOf, Run, Legal;
    ReadsSequence(src, ip, s);
    var p := Parse(src, ip);
    assert src[p.lit..p.lit + p.litLen] == s.lit;
    MatchStep(src, p, s.lit, out, |result|);
  }

  /** Reading from the k-th sequence on. */
  lemma {:induction false} ReadsFrom(ss: seq<Sequence>, last: seq<byte>, k: nat)
    requires Valid(ss) && k <= |ss| && |last| >= Need(ss)
    ensures Reads(Block(ss, last), |BlockBytes(ss[..k])|, Expand(ss[..k]), Expand(ss) + last)
    decreases |ss| - k
  {
    hide SequenceBytes, LastBytes, Reads, Need, Expand, BlockBytes, Valid;
    var src := Block(ss, last);
    PrefixOfBlock(ss, k);
    var ip := |BlockBytes(ss[..k])|;
    if k == |ss| {
      assert ss[..k] == ss;
      assert src[ip..ip + |LastBytes(last)|] == LastBytes(last);
      ReadsEnd(src, ip, Expand(ss), last);
    } else {
      PrefixStep(ss, k);
      PrefixOfBlock(ss, k + 1);
      RoomAfter(ss, k);
      assert BlockBytes(ss[..k + 1]) <= src;
      AtPrefix(src, BlockBytes(ss[..k]), SequenceBytes(ss[k]));
      ReadsFrom(ss, last, k + 1);
      ReadsOneMore(src, ip, Expand(ss[..k]), ss[k], Expand(ss) + last);
    }
  }

  lemma ReadsEnd(src: seq<byte>, ip: nat, out: seq<byte>, last: seq<byte>)
    requires Placed(src, ip, LastBytes(last)) && ip + |LastBytes(last)| == |src|
    ensures Reads(src, ip, out, out + last)
  {
    hide LastBytes, Parse;
    ReadsLast(src, ip, last);
  }

  /** Written blocks are legal and mean what their list means. */
  lemma WriteThenRead(ss: seq<Sequence>, last: seq<byte>)
    requires Valid(ss) && |last| >= Need(ss)
    ensures Decode(Block(ss, last)) == Good(Expand(ss) + last)
    ensures LegalBlock(Block(ss, last))
  {
    hide BlockBytes, Run, Legal, Parse;
    ReadsFrom(ss, last, 0);
    assert ss[..0] == [];
    assert |BlockBytes([])| == 0 && Expand([]) == [] by { EmptyList(); }
  }

  lemma EmptyList()
    ensures BlockBytes([]) == [] && Expand([]) == []
  {
  }
}
