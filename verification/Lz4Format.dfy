/** The LZ4 block format: a bytewise reading of a compressed block, independent of how the
    optimised decoder walks it, and the canonical writing of one. */
module Lz4Format {
  import Bits

  type byte = Bits.byte

  const MINMATCH := 4
  const LASTLITERALS := 5
  const MFLIMIT := 12
  const RUN_MASK := 15
  const ML_MASK := 15
  const DISTANCE_MAX := 65535

  // ---------------------------------------------------------------- meaning of a match

  /** Appends `n` bytes to `out`, each equal to the byte `offset` places before it.
      The format forbids offset 0; the decoder's copy helpers then produce zeros. */
  function Extend(out: seq<byte>, offset: nat, n: nat): (r: seq<byte>)
    requires offset <= |out|
    ensures |r| == |out| + n
    ensures out <= r
    decreases n
  {
    if n == 0 then out
    else Extend(out + [if offset == 0 then 0 else out[|out| - offset]], offset, n - 1)
  }

  /** `r` continues `out` with period `offset`: the array-friendly reading of Extend. */
  ghost predicate Periodic(out: seq<byte>, offset: nat, r: seq<byte>)
    requires offset <= |out|
  {
    && out <= r
    && forall i :: |out| <= i < |r| ==> r[i] == if offset == 0 then 0 else r[i - offset]
  }

  lemma {:induction false} PeriodicIsExtend(out: seq<byte>, offset: nat, r: seq<byte>)
    requires offset <= |out| && Periodic(out, offset, r)
    ensures r == Extend(out, offset, |r| - |out|)
    decreases |r| - |out|
  {
    if |r| == |out| {
      assert r == out;
    } else {
      var b: byte := if offset == 0 then 0 else out[|out| - offset];
      assert r[|out|] == b;
      assert out + [b] <= r;
      PeriodicIsExtend(out + [b], offset, r);
    }
  }

  // ---------------------------------------------------------------- reading a block

  datatype LengthField = Truncated | Length(value: nat, next: nat)

  /** Sums extension bytes up to and including the first one below 255. */
  function ReadLength(src: seq<byte>, ip: nat): (r: LengthField)
    requires ip <= |src|
    ensures r.Length? ==> ip < r.next <= |src|
    decreases |src| - ip
  {
    if ip == |src| then Truncated
    else if src[ip] != 255 then Length(src[ip], ip + 1)
    else match ReadLength(src, ip + 1)
      case Truncated => Truncated
      case Length(l, n) => Length(255 + l, n)
  }

  /** A length whose first 4 bits are in the token. */
  function LengthAt(src: seq<byte>, ip: nat, nibble: nat): (r: LengthField)
    requires ip <= |src|
    ensures r.Length? ==> ip <= r.next <= |src|
  {
    if nibble < 15 then Length(nibble, ip)
    else match ReadLength(src, ip)
      case Truncated => Truncated
      case Length(l, n) => Length(15 + l, n)
  }

  /** One sequence of the block, read from the input at some position. Literals are given by
      their place in the input; `next` is where the following token stands. */
  datatype Piece =
    | Malformed
    | Final(lit: nat, litLen: nat)
    | Match(lit: nat, litLen: nat, offset: nat, length: nat, next: nat)

  function ReadLE16(src: seq<byte>, ip: nat): nat
    requires ip + 2 <= |src|
  {
    var lo: int, hi: int := src[ip], src[ip + 1];
    lo + 256 * hi
  }

  function MatchAt(src: seq<byte>, nibble: nat, offset: nat, ip: nat, lit: nat, litLen: nat): Piece
    requires ip <= |src|
  {
    match LengthAt(src, ip, nibble)
    case Truncated => Malformed
    case Length(ml, next) => Match(lit, litLen, offset, ml + MINMATCH, next)
  }

  /** The rest of a sequence whose literals start at `lit`: a block ends exactly where its
      last literals end. */
  function LiteralsAt(src: seq<byte>, nibble: nat, lit: nat, litLen: nat): Piece
  {
    var end := lit + litLen;
    if end == |src| then Final(lit, litLen)
    else if end + 2 > |src| then Malformed
    else MatchAt(src, nibble, ReadLE16(src, end), end + 2, lit, litLen)
  }

  function AfterToken(src: seq<byte>, token: byte, ip: nat): Piece
    requires ip <= |src|
  {
    match LengthAt(src, ip, token / 16)
    case Truncated => Malformed
    case Length(ll, lit) => LiteralsAt(src, token % 16, lit, ll)
  }

  function Parse(src: seq<byte>, ip: nat): Piece
    requires ip <= |src|
  {
    if ip == |src| then Malformed else AfterToken(src, src[ip], ip + 1)
  }

  predicate InInput(src: seq<byte>, p: Piece)
  {
    match p
    case Malformed => true
    case Final(lit, ll) => lit + ll == |src|
    case Match(lit, ll, _, _, next) => lit + ll <= |src| && next <= |src|
  }

  lemma ParseInInput(src: seq<byte>, ip: nat)
    requires ip <= |src|
    ensures InInput(src, Parse(src, ip))
    ensures Parse(src, ip).Final? ==> ip < Parse(src, ip).lit
    ensures Parse(src, ip).Match? ==> ip + 3 <= Parse(src, ip).next
  {
  }

  datatype Decoded = Bad | Good(bytes: seq<byte>)

  /** The bytewise meaning of the input from piece `p` on, after `out` has been produced. */
  function Run(src: seq<byte>, p: Piece, out: seq<byte>): (r: Decoded)
    requires InInput(src, p)
    ensures r.Good? ==> out <= r.bytes
    decreases if p.Match? then |src| - p.next + 1 else 0
  {
    match p
    case Malformed => Bad
    case Final(lit, ll) => Good(out + src[lit..lit + ll])
    case Match(lit, ll, offset, length, next) =>
      var out1 := out + src[lit..lit + ll];
      if offset > |out1| then Bad
      else
        ParseInInput(src, next);
        Run(src, Parse(src, next), Extend(out1, offset, length))
  }

  /** The block format's parsing restrictions, for a block of decoded size `size`: offsets are
      nonzero and in range, the last match starts at least 12 bytes before the end, and the
      last 5 bytes are literals. */
  predicate Legal(src: seq<byte>, p: Piece, pos: nat, size: nat)
    requires InInput(src, p)
    decreases if p.Match? then |src| - p.next + 1 else 0
  {
    match p
    case Malformed => false
    case Final(lit, ll) => pos + ll == size
    case Match(lit, ll, offset, length, next) =>
      ParseInInput(src, next);
      && 1 <= offset <= pos + ll
      && pos + ll + MFLIMIT <= size
      && pos + ll + length + LASTLITERALS <= size
      && Legal(src, Parse(src, next), pos + ll + length, size)
  }

  function Decode(src: seq<byte>): Decoded
  {
    ParseInInput(src, 0);
    Run(src, Parse(src, 0), [])
  }

  predicate LegalBlock(src: seq<byte>)
  {
    ParseInInput(src, 0);
    Decode(src).Good? && Legal(src, Parse(src, 0), 0, |Decode(src).bytes|)
  }

  /** A legal reading decodes, and to exactly the announced size. */
  lemma {:induction false} LegalRuns(src: seq<byte>, p: Piece, out: seq<byte>, size: nat)
    requires InInput(src, p) && Legal(src, p, |out|, size)
    ensures Run(src, p, out).Good? && |Run(src, p, out).bytes| == size
    decreases if p.Match? then |src| - p.next + 1 else 0
  {
    if p.Match? {
      ParseInInput(src, p.next);
      var out1 := out + src[p.lit..p.lit + p.litLen];
      LegalRuns(src, Parse(src, p.next), Extend(out1, p.offset, p.length), size);
    }
  }

  /** At least a token and the last five literals follow any match of a legal block. */
  lemma {:induction false} LegalTail(src: seq<byte>, ip: nat, pos: nat, size: nat)
    requires ip <= |src| && InInput(src, Parse(src, ip))
    requires Legal(src, Parse(src, ip), pos, size) && pos + LASTLITERALS <= size
    ensures ip + 1 + LASTLITERALS <= |src|
    decreases |src| - ip
  {
    var p := Parse(src, ip);
    ParseInInput(src, ip);
    if p.Match? {
      ParseInInput(src, p.next);
      LegalTail(src, p.next, pos + p.litLen + p.length, size);
    }
  }

  /** Literals may be consumed ahead of the match that follows them. */
  lemma LiteralsFirst(src: seq<byte>, p: Piece, out: seq<byte>, lit: nat, size: nat)
    requires p.Match? && InInput(src, p) && lit <= |src|
    ensures var q := p.(lit := lit, litLen := 0);
            var out1 := out + src[p.lit..p.lit + p.litLen];
            && InInput(src, q)
            && Run(src, q, out1) == Run(src, p, out)
            && Legal(src, q, |out1|, size) == Legal(src, p, |out|, size)
  {
    hide Parse, Extend;
    var out1 := out + src[p.lit..p.lit + p.litLen];
    assert out1 + src[lit..lit] == out1;
  }

  /** One sequence is one step of the reading, whichever way the step is taken. */
  lemma MatchStep(src: seq<byte>, m: Piece, lit: seq<byte>, out: seq<byte>, size: nat)
    requires m.Match? && InInput(src, m) && src[m.lit..m.lit + m.litLen] == lit
    requires m.offset <= |out| + m.litLen
    ensures InInput(src, Parse(src, m.next))
    ensures var r := Extend(out + lit, m.offset, m.length);
            && Run(src, m, out) == Run(src, Parse(src, m.next), r)
            && (Legal(src, m, |out|, size) <==>
                && 1 <= m.offset
                && |out| + m.litLen + MFLIMIT <= size
                && |out| + m.litLen + m.length + LASTLITERALS <= size
                && Legal(src, Parse(src, m.next), |r|, size))
  {
    hide Parse, Extend, Run, Legal;
    ParseInInput(src, m.next);
    assert |lit| == m.litLen;
    RunStep(src, m, out);
    LegalStep(src, m, |out|, size);
  }

  lemma RunStep(src: seq<byte>, m: Piece, out: seq<byte>)
    requires m.Match? && InInput(src, m) && m.offset <= |out| + m.litLen && InInput(src, Parse(src, m.next))
    ensures Run(src, m, out)
      == Run(src, Parse(src, m.next), Extend(out + src[m.lit..m.lit + m.litLen], m.offset, m.length))
  {
    hide Parse, Extend;
  }

  lemma LegalStep(src: seq<byte>, m: Piece, pos: nat, size: nat)
    requires m.Match? && InInput(src, m) && InInput(src, Parse(src, m.next))
    ensures Legal(src, m, pos, size) <==>
      && 1 <= m.offset <= pos + m.litLen
      && pos + m.litLen + MFLIMIT <= size
      && pos + m.litLen + m.length + LASTLITERALS <= size
      && Legal(src, Parse(src, m.next), pos + m.litLen + m.length, size)
  {
    hide Parse;
  }
}
