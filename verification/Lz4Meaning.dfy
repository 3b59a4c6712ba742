/** What the block format says, told from the bytes: how a sequence is laid out, which lists of
    sequences are legal blocks, that every legal block is such a list, and what does not decode. */
module Lz4Meaning {
  import opened Lz4Format
  import opened Lz4Write
  import opened Slices

  // ---------------------------------------------------------------- bytes

  function Repeat255(n: nat): (r: seq<byte>)
    ensures |r| == n && forall i :: 0 <= i < n ==> r[i] == 255
  {
    seq(n, _ => 255)
  }

  /** Lengths past the nibble: as many 255s as fit, and the rest. */
  lemma {:induction false} LengthBytesAre(n: nat)
    ensures LengthBytes(n) == Repeat255(n / 255) + [n % 255]
    decreases n
  {
    if n >= 255 {
      LengthBytesAre(n - 255);
      assert Repeat255(n / 255) == [255] + Repeat255((n - 255) / 255);
    } else {
      assert n / 255 == 0 && n % 255 == n;
    }
  }

  function ExtensionBytes(n: nat): seq<byte> {
    if n < 15 then [] else Repeat255((n - 15) / 255) + [(n - 15) % 255]
  }

  function AtMost15(n: nat): nat {
    if n < 15 then n else 15
  }

  /** A sequence: token, literal length, literals, offset low byte first, match length over 4. */
  lemma SequenceIs(s: Sequence)
    requires s.offset <= 65535
    ensures SequenceBytes(s) == [AtMost15(|s.lit|) * 16 + AtMost15(s.code)] + ExtensionBytes(|s.lit|) + s.lit
      + [s.offset % 256, s.offset / 256] + ExtensionBytes(s.code)
    ensures LastBytes(s.lit) == [AtMost15(|s.lit|) * 16] + ExtensionBytes(|s.lit|) + s.lit
  {
    ExtensionIs(|s.lit|);
    ExtensionIs(s.code);
    hide Extension, ExtensionBytes;
    assert OffsetBytes(s.offset) == [s.offset % 256, s.offset / 256];
    hide OffsetBytes;
    Assembled(Token(|s.lit|, s.code), Extension(|s.lit|), s.lit, OffsetBytes(s.offset), Extension(s.code));
    Assembled(Token(|s.lit|, 0), Extension(|s.lit|), s.lit, [], []);
  }

  lemma ExtensionIs(n: nat)
    ensures Extension(n) == ExtensionBytes(n)
  {
    if n >= 15 {
      LengthBytesAre(n - 15);
    }
  }

  lemma Assembled(token: byte, e1: seq<byte>, lit: seq<byte>, o: seq<byte>, e2: seq<byte>)
    ensures [token] + (e1 + (lit + (o + e2))) == [token] + e1 + lit + o + e2
    ensures [token] + (e1 + lit) == [token] + e1 + lit
  {
  }

  /** A list one longer: the literals are added, then bytes each equal to the one `offset` before. */
  lemma ExpandIs(ss: seq<Sequence>, s: Sequence, r: seq<byte>)
    requires Valid(ss) && 1 <= s.offset <= 65535 && s.offset <= |Expand(ss)| + |s.lit|
    ensures var out := Expand(ss) + s.lit;
      r == Expand(ss + [s]) <==>
        && |r| == |out| + s.code + 4 && out <= r
        && forall i :: |out| <= i < |r| ==> r[i] == r[i - s.offset]
  {
    ExpandStep(ss, s);
    hide *;
    ExtendIff(Expand(ss) + s.lit, s.offset, s.code + 4, r);
  }

  lemma ExpandStep(ss: seq<Sequence>, s: Sequence)
    requires s.offset <= |Expand(ss)| + |s.lit|
    ensures Expand(ss + [s]) == Extend(Expand(ss) + s.lit, s.offset, s.code + 4)
  {
    hide Extend;
    var tt := ss + [s];
    assert tt[..|tt| - 1] == ss && tt[|tt| - 1] == s;
  }

  lemma ExtendIff(out: seq<byte>, offset: nat, n: nat, r: seq<byte>)
    requires 1 <= offset <= |out|
    ensures r == Extend(out, offset, n) <==>
      |r| == |out| + n && out <= r && forall i :: |out| <= i < |r| ==> r[i] == r[i - offset]
  {
    hide Extend;
    if |r| == |out| + n && out <= r && forall i :: |out| <= i < |r| ==> r[i] == r[i - offset] {
      assert forall i :: |out| <= i < |r| ==> r[i] == if offset == 0 then 0 else r[i - offset];
      PeriodicIsExtend(out, offset, r);
    }
    ExtendIsPeriodic(out, offset, n);
  }

  lemma {:induction false} ExtendIsPeriodic(out: seq<byte>, offset: nat, n: nat)
    requires 1 <= offset <= |out|
    ensures forall i :: |out| <= i < |out| + n ==> Extend(out, offset, n)[i] == Extend(out, offset, n)[i - offset]
    decreases n
  {
    if n > 0 {
      var next := out + [out[|out| - offset]];
      var r := Extend(next, offset, n - 1);
      assert r == Extend(out, offset, n) && next <= r;
      ExtendIsPeriodic(next, offset, n - 1);
      assert r[|out|] == next[|out|] && r[|out| - offset] == next[|out| - offset];
    }
  }

  // ---------------------------------------------------------------- reading the front

  /** After the sequences of a list have been read, the rest is read with what they stand for. */
  lemma {:induction false} FrontRead(src: seq<byte>, ss: seq<Sequence>, k: nat, size: nat)
    requires Valid(ss) && BlockBytes(ss) <= src && k <= |ss|
    ensures var ip := |BlockBytes(ss[..k])|;
      && ip <= |src| && InInput(src, Parse(src, ip))
      && Decode(src) == Run(src, Parse(src, ip), Expand(ss[..k]))
      && InInput(src, Parse(src, 0))
      && (Legal(src, Parse(src, 0), 0, size) <==> Fitting(ss, k, size) && Legal(src, Parse(src, ip), |Expand(ss[..k])|, size))
    decreases k
  {
    hide BlockBytes, Expand, Run, Legal, Parse, SequenceBytes, Valid, Fitting;
    if k == 0 {
      assert ss[..0] == [];
      EmptyList();
      ParseInInput(src, 0);
      FittingNone(ss, size);
    } else {
      FrontRead(src, ss, k - 1, size);
      hide Decode;
      PrefixStep(ss, k - 1);
      PrefixOfBlock(ss, k);
      var ip, s := |BlockBytes(ss[..k - 1])|, ss[k - 1];
      AtPrefix(src, BlockBytes(ss[..k - 1]), SequenceBytes(s));
      ReadsSequence(src, ip, s);
      hide LiteralsOf, Extend;
      var p := Parse(src, ip);
      assert src[p.lit..p.lit + p.litLen] == s.lit;
      ParseInInput(src, p.next);
      RunStep(src, p, Expand(ss[..k - 1]));
      LegalStep(src, p, |Expand(ss[..k - 1])|, size);
      FittingMore(ss, k, size);
    }
  }

  /** The first `k` matches start at least 12 bytes and end at least 5 bytes before `size`. */
  ghost predicate Fitting(ss: seq<Sequence>, k: nat, size: nat)
    requires k <= |ss|
  {
    forall j :: 0 <= j < k ==> FittingAt(ss, j, size)
  }

  ghost predicate FittingAt(ss: seq<Sequence>, j: nat, size: nat)
    requires j < |ss|
  {
    var start := |Expand(ss[..j])| + |ss[j].lit|;
    start + 12 <= size && start + ss[j].code + 4 + 5 <= size
  }

  lemma FittingNone(ss: seq<Sequence>, size: nat)
    ensures Fitting(ss, 0, size)
  {
  }

  lemma FittingMore(ss: seq<Sequence>, k: nat, size: nat)
    requires 0 < k <= |ss|
    ensures Fitting(ss, k, size) <==> Fitting(ss, k - 1, size) && FittingAt(ss, k - 1, size)
  {
    hide FittingAt;
  }

  // ---------------------------------------------------------------- legal blocks

  /** The last literals stand at `ip`; the low four bits of their token are not looked at. */
  ghost predicate EndsWith(src: seq<byte>, ip: nat, last: seq<byte>) {
    && ip < |src| && src[ip] / 16 == LastBytes(last)[0] / 16
    && src[ip + 1..] == LastBytes(last)[1..]
  }

  /** The bytes of the sequences, then the last literals. */
  ghost predicate IsWritten(src: seq<byte>, ss: seq<Sequence>, last: seq<byte>) {
    Valid(ss) && BlockBytes(ss) <= src && EndsWith(src, |BlockBytes(ss)|, last)
  }

  /** The last match starts at least 12 bytes before the end, and at least five literals follow it. */
  predicate EndsWell(ss: seq<Sequence>, last: seq<byte>) {
    ss == [] || (|last| >= 5 && |last| + ss[|ss| - 1].code + 4 >= 12)
  }

  /** What is written decodes to what it stands for, and is legal exactly if it ends well. */
  lemma WrittenIs(src: seq<byte>, ss: seq<Sequence>, last: seq<byte>)
    requires IsWritten(src, ss, last)
    ensures Decode(src) == Good(Expand(ss) + last)
    ensures LegalBlock(src) <==> EndsWell(ss, last)
  {
    hide BlockBytes, LastBytes, Parse, Run, Legal, Expand, Fitting, Valid, Decode, LegalBlock, EndsWith, EndsWell;
    var size := |Expand(ss) + last|;
    FrontRead(src, ss, |ss|, size);
    assert ss[..|ss|] == ss;
    EndRead(src, |BlockBytes(ss)|, Expand(ss), last, size);
    LegalOf(src, Expand(ss) + last);
    LastDecides(ss, last);
  }

  lemma BlockIsWritten(ss: seq<Sequence>, last: seq<byte>)
    requires Valid(ss)
    ensures IsWritten(Block(ss, last), ss, last)
  {
    hide BlockBytes, Extension, Valid;
  }

  lemma LegalOf(src: seq<byte>, out: seq<byte>)
    requires Decode(src) == Good(out) && InInput(src, Parse(src, 0))
    ensures LegalBlock(src) <==> Legal(src, Parse(src, 0), 0, |out|)
  {
    hide Decode, Parse, Legal;
  }

  lemma EndRead(src: seq<byte>, ip: nat, out: seq<byte>, last: seq<byte>, size: nat)
    requires EndsWith(src, ip, last)
    ensures InInput(src, Parse(src, ip)) && Run(src, Parse(src, ip), out) == Good(out + last)
    ensures Legal(src, Parse(src, ip), |out|, size) <==> size == |out| + |last|
  {
    hide Parse, EndsWith;
    EndParse(src, ip, last);
    assert src[|src| - |last|..|src|] == last;
  }

  lemma EndParse(src: seq<byte>, ip: nat, last: seq<byte>)
    requires EndsWith(src, ip, last)
    ensures |last| <= |src| && Parse(src, ip) == Final(|src| - |last|, |last|) && src[|src| - |last|..] == last
  {
    hide LengthAt, Extension;
    var e := Extension(|last|);
    assert LastBytes(last)[1..] == e + last;
    assert Placed(src, ip + 1, e + last);
    AtSplit(src, ip + 1, e, last);
    ReadsExtension(src, ip + 1, |last|);
  }

  lemma LastDecides(ss: seq<Sequence>, last: seq<byte>)
    requires Valid(ss)
    ensures Fitting(ss, |ss|, |Expand(ss)| + |last|) <==> EndsWell(ss, last)
  {
    hide BlockBytes, Expand, FittingAt;
    if ss != [] {
      var n := |ss| - 1;
      var size := |Expand(ss)| + |last|;
      LastFitting(ss, last);
      forall j | 0 <= j < n && FittingAt(ss, n, size)
        ensures FittingAt(ss, j, size)
      {
        EarlierFitting(ss, j, n, size);
      }
    }
  }

  lemma LastFitting(ss: seq<Sequence>, last: seq<byte>)
    requires Valid(ss) && ss != []
    ensures FittingAt(ss, |ss| - 1, |Expand(ss)| + |last|) <==> |last| >= 5 && |last| + ss[|ss| - 1].code + 4 >= 12
  {
    hide BlockBytes, Expand, Extend, SequenceBytes, Valid, ValidAt;
    var n := |ss| - 1;
    PrefixStep(ss, n);
    assert ss[..n + 1] == ss;
  }

  lemma EarlierFitting(ss: seq<Sequence>, j: nat, k: nat, size: nat)
    requires Valid(ss) && j < k < |ss| && FittingAt(ss, k, size)
    ensures FittingAt(ss, j, size)
  {
    hide BlockBytes, Expand;
    PrefixStep(ss, j);
    hide Extend;
    Shorter(ss, j + 1, k);
  }

  lemma {:induction false} Shorter(ss: seq<Sequence>, j: nat, k: nat)
    requires Valid(ss) && j <= k <= |ss|
    ensures |Expand(ss[..j])| <= |Expand(ss[..k])|
    decreases k - j
  {
    hide BlockBytes, Expand;
    if j < k {
      PrefixStep(ss, k - 1);
      Shorter(ss, j, k - 1);
    }
  }

  // ---------------------------------------------------------------- every legal block

  lemma {:induction false} LengthRead(src: seq<byte>, ip: nat)
    requires ip <= |src|
    ensures var r := ReadLength(src, ip); r.Length? ==> src[ip..r.next] == LengthBytes(r.value)
    decreases |src| - ip
  {
    var r := ReadLength(src, ip);
    if r.Length? {
      if src[ip] == 255 {
        LengthRead(src, ip + 1);
        assert src[ip..r.next] == [255] + src[ip + 1..r.next];
      } else {
        assert src[ip..r.next] == [src[ip]];
      }
    }
  }

  lemma ExtensionRead(src: seq<byte>, ip: nat, nibble: nat)
    requires ip <= |src| && nibble <= 15
    ensures var r := LengthAt(src, ip, nibble);
      r.Length? ==> src[ip..r.next] == Extension(r.value) && nibble == Nibble(r.value)
  {
    LengthRead(src, ip);
    hide ReadLength, LengthBytes;
  }

  lemma OffsetRead(src: seq<byte>, p: nat)
    requires p + 2 <= |src|
    ensures ReadLE16(src, p) <= 65535 && src[p..p + 2] == OffsetBytes(ReadLE16(src, p))
  {
    var lo: int, hi: int := src[p], src[p + 1];
    assert (lo + 256 * hi) / 256 == hi && (lo + 256 * hi) % 256 == lo;
  }

  lemma SequenceRead(src: seq<byte>, ip: nat)
    requires ip <= |src| && Parse(src, ip).Match?
    ensures var p := Parse(src, ip);
      && ip < p.lit && p.lit + p.litLen + 2 <= p.next <= |src| && p.offset <= 65535 && p.length >= 4
      && src[ip..p.next] == SequenceBytes(Sequence(src[p.lit..p.lit + p.litLen], p.offset, p.length - 4))
  {
    hide LengthAt, Extension, OffsetBytes, ReadLE16, Token;
    var p := Parse(src, ip);
    var token: byte := src[ip];
    ExtensionRead(src, ip + 1, token / 16);
    var end := p.lit + p.litLen;
    OffsetRead(src, end);
    ExtensionRead(src, end + 2, token % 16);
    TokenRead(token, p.litLen, p.length - 4);
    hide Parse;
    SequenceCut(src, ip, p.lit, end, p.next);
  }

  lemma TokenRead(token: byte, literals: nat, code: nat)
    requires Nibble(literals) == token / 16 && Nibble(code) == token % 16
    ensures token == Token(literals, code)
  {
    hide Nibble;
  }

  lemma SequenceCut(src: seq<byte>, ip: nat, lit: nat, end: nat, next: nat)
    requires ip < lit <= end && end + 2 <= next <= |src|
    ensures src[ip..next]
      == [src[ip]] + (src[ip + 1..lit] + (src[lit..end] + (src[end..end + 2] + src[end + 2..next])))
  {
    assert src[end..next] == src[end..end + 2] + src[end + 2..next];
    assert src[lit..next] == src[lit..end] + src[end..next];
    assert src[ip + 1..next] == src[ip + 1..lit] + src[lit..next];
    assert src[ip..next] == [src[ip]] + src[ip + 1..next];
  }

  lemma LastRead(src: seq<byte>, ip: nat)
    requires ip <= |src| && Parse(src, ip).Final?
    ensures var p := Parse(src, ip);
      && ip < p.lit && p.lit + p.litLen == |src|
      && EndsWith(src, ip, src[p.lit..])
  {
    hide LengthAt, Extension;
    var p := Parse(src, ip);
    var token: byte := src[ip];
    ExtensionRead(src, ip + 1, token / 16);
    hide Parse;
    assert src[ip..] == [src[ip]] + (src[ip + 1..p.lit] + src[p.lit..]);
  }

  lemma {:induction false} WrittenFrom(src: seq<byte>, ip: nat, ss: seq<Sequence>, size: nat) returns (all: seq<Sequence>)
    requires Valid(ss) && ip <= |src| && src[..ip] == BlockBytes(ss)
    requires InInput(src, Parse(src, ip)) && Legal(src, Parse(src, ip), |Expand(ss)|, size)
    ensures Valid(all) && BlockBytes(all) <= src && Parse(src, |BlockBytes(all)|).Final?
    decreases |src| - ip
  {
    hide BlockBytes, Expand, Valid, Parse, Legal, Extend, Need, SequenceBytes;
    var p := Parse(src, ip);
    if p.Match? {
      SequenceRead(src, ip);
      ParseInInput(src, p.next);
      LegalStep(src, p, |Expand(ss)|, size);
      var s := Sequence(src[p.lit..p.lit + p.litLen], p.offset, p.length - 4);
      Snoc(ss, s);
      assert src[..p.next] == src[..ip] + src[ip..p.next];
      all := WrittenFrom(src, p.next, ss + [s], size);
    } else {
      NotMalformed(src, p, |Expand(ss)|, size);
      all := ss;
    }
  }

  lemma NotMalformed(src: seq<byte>, p: Piece, pos: nat, size: nat)
    requires InInput(src, p) && Legal(src, p, pos, size)
    ensures !p.Malformed?
  {
  }

  lemma LegalIsWritten(src: seq<byte>) returns (ss: seq<Sequence>, last: seq<byte>)
    requires LegalBlock(src)
    ensures IsWritten(src, ss, last)
  {
    hide BlockBytes, Expand, Valid, Parse, Legal, EndsWith;
    EmptyList();
    ParseInInput(src, 0);
    NothingValid();
    ss := WrittenFrom(src, 0, [], |Decode(src).bytes|);
    var p := Parse(src, |BlockBytes(ss)|);
    LastRead(src, |BlockBytes(ss)|);
    last := src[p.lit..];
  }

  /** The legal blocks are the written lists that end well, but for the four bits of the last token that
      are not looked at. */
  lemma LegalBlocksAre(src: seq<byte>)
    ensures LegalBlock(src) <==> exists ss, last :: IsWritten(src, ss, last) && EndsWell(ss, last)
  {
    hide IsWritten, EndsWell, LegalBlock;
    if LegalBlock(src) {
      var ss, last := LegalIsWritten(src);
      WrittenIs(src, ss, last);
    }
    if ss, last :| IsWritten(src, ss, last) && EndsWell(ss, last) {
      WrittenIs(src, ss, last);
    }
  }

  lemma NothingValid()
    ensures Valid([])
  {
  }

  // ---------------------------------------------------------------- what does not decode

  /** An offset that reaches before the start of the output is refused. */
  lemma TooFarBack(ss: seq<Sequence>, s: Sequence, tail: seq<byte>)
    requires Valid(ss) && s.offset <= 65535 && |Expand(ss)| + |s.lit| < s.offset
    ensures Decode(BlockBytes(ss) + SequenceBytes(s) + tail) == Bad
  {
    hide BlockBytes, Parse, Legal, Expand, Fitting, SequenceBytes, LiteralsOf;
    var src := BlockBytes(ss) + SequenceBytes(s) + tail;
    assert src == BlockBytes(ss) + (SequenceBytes(s) + tail);
    FrontRead(src, ss, |ss|, 0);
    assert ss[..|ss|] == ss;
    AtPrefix(src, BlockBytes(ss), SequenceBytes(s));
    ReadsSequence(src, |BlockBytes(ss)|, s);
  }

  /** A block cut off before its last literals end is refused. */
  lemma CutOff(ss: seq<Sequence>, last: seq<byte>, n: nat)
    requires Valid(ss) && |BlockBytes(ss)| <= n < |Block(ss, last)|
    ensures Decode(Block(ss, last)[..n]) == Bad
  {
    hide BlockBytes, Legal, Expand, Fitting, LastBytes, Parse;
    var src := Block(ss, last)[..n];
    FrontRead(src, ss, |ss|, 0);
    assert ss[..|ss|] == ss;
    var ip := |BlockBytes(ss)|;
    CutRead(src, ip, last);
  }

  lemma CutRead(src: seq<byte>, ip: nat, last: seq<byte>)
    requires ip <= |src| < ip + |LastBytes(last)| && src[ip..] == LastBytes(last)[..|src| - ip]
    ensures Parse(src, ip) == Malformed
  {
    hide LengthBytes, ReadLength;
    if ip < |src| {
      var t := LastBytes(last)[0];
      assert src[ip] == src[ip..][0] == t;
      if |last| >= 15 {
        var e := LengthBytes(|last| - 15);
        assert LastBytes(last)[1..] == e + last;
        assert src[ip + 1..] == (e + last)[..|src| - ip - 1];
        CutLength(src, ip + 1, |last| - 15, last);
      }
    }
  }

  lemma {:induction false} CutLength(src: seq<byte>, ip: nat, n: nat, after: seq<byte>)
    requires ip <= |src| < ip + |LengthBytes(n) + after| && src[ip..] == (LengthBytes(n) + after)[..|src| - ip]
    ensures var r := ReadLength(src, ip);
      if |src| - ip < |LengthBytes(n)| then r == Truncated else r == Length(n, ip + |LengthBytes(n)|)
    decreases n
  {
    if ip < |src| {
      assert src[ip] == src[ip..][0] == LengthBytes(n)[0];
      if n >= 255 {
        var e := LengthBytes(n - 255);
        assert (LengthBytes(n) + after)[1..] == e + after;
        assert src[ip + 1..] == src[ip..][1..] == (e + after)[..|src| - ip - 1];
        CutLength(src, ip + 1, n - 255, after);
      }
    }
  }
}
