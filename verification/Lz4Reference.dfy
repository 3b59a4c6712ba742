/** LZ4_decompress_unsafe_generic without dictionary: the plain decoder kept beside the optimised
    one. It does not know where its input ends and presumes a well-formed block. */
module Lz4Reference {
  import opened Lz4Format
  import opened Lz4Copy
  import opened Lz4Decode

  method ReadLongLength(src: seq<byte>, start: nat) returns (l: nat, ip: nat)
    requires start <= |src| && ReadLength(src, start).Length?
    ensures ReadLength(src, start) == Length(l, ip)
  {
    ip, l := start, 0;
    var b := 255;
    while b == 255
      invariant start <= ip <= |src|
      invariant b == 255 ==> ReadLength(src, start) == Plus(l, ReadLength(src, ip))
      invariant b != 255 ==> ReadLength(src, start) == Length(l, ip)
      decreases |src| - ip, b
    {
      b := src[ip];
      ip := ip + 1;
      l := l + b;
    }
  }

  /** Token and literal length. */
  method LiteralLength(src: seq<byte>, start: nat) returns (token: byte, ip: nat, ll: nat)
    requires start < |src| && !Parse(src, start).Malformed?
    ensures start < ip <= |src| && Parse(src, start) == LiteralsAt(src, token % 16, ip, ll)
    ensures ip + ll <= |src|
  {
    token := src[start];
    ip := start + 1;
    ll := token / 16;
    if ll == 15 {
      var more;
      more, ip := ReadLongLength(src, ip);
      ll := ll + more;
    }
  }

  // ---------------------------------------------------------------- what the loop keeps

  /** The rest of the block uses no offset 0. */
  predicate Offsets(src: seq<byte>, p: Piece)
    requires InInput(src, p)
    decreases if p.Match? then |src| - p.next + 1 else 0
  {
    if !p.Match? then true
    else
      ParseInInput(src, p.next);
      p.offset >= 1 && Offsets(src, Parse(src, p.next))
  }

  /** The block decodes, whether or not it meets the parsing restrictions. */
  predicate WellFormed(src: seq<byte>)
  {
    ParseInInput(src, 0);
    Decode(src).Good? && Offsets(src, Parse(src, 0))
  }

  /** Reading `p` on top of `out` gives the meaning of the block, and the rest is legal exactly when
      the block is. */
  ghost predicate Follows(src: seq<byte>, p: Piece, out: seq<byte>, g: Goal)
  {
    && InInput(src, p) && Offsets(src, p)
    && g.meaning.Good? && Run(src, p, out) == g.meaning
    && (g.legal <==> Legal(src, p, |out|, g.Size()))
  }

  lemma FollowsPiece(src: seq<byte>, p: Piece, out: seq<byte>, g: Goal)
    requires Follows(src, p, out, g)
    ensures !p.Malformed?
    ensures p.Final? ==> g.legal && g.meaning == Good(out + src[p.lit..p.lit + p.litLen])
    ensures p.Match? ==>
      && 1 <= p.offset <= |out| + p.litLen && p.next < |src|
      && |out| + p.litLen + p.length <= g.Size()
    ensures p.Match? && g.legal ==>
      && |out| + p.litLen + MFLIMIT <= g.Size()
      && |out| + p.litLen + p.length + LASTLITERALS <= g.Size()
  {
    if p.Match? {
      ParseInInput(src, p.next);
      RunStep(src, p, out);
      GoodIsNotMalformed(src, Parse(src, p.next), Extend(out + src[p.lit..p.lit + p.litLen], p.offset, p.length));
    }
  }

  lemma GoodIsNotMalformed(src: seq<byte>, p: Piece, out: seq<byte>)
    requires InInput(src, p) && Run(src, p, out).Good?
    ensures !p.Malformed? && |out| <= |Run(src, p, out).bytes|
  {
  }

  lemma FollowsLiterals(src: seq<byte>, token: byte, offset: nat, ip: nat, lit: nat,
      litLen: nat, out: seq<byte>, g: Goal)
    requires ip <= |src| && lit + litLen <= |src|
    requires Follows(src, MatchAt(src, token % 16, offset, ip, lit, litLen), out, g)
    ensures Follows(src, MatchAt(src, token % 16, offset, ip, 0, 0), out + src[lit..lit + litLen], g)
  {
    hide Run, Legal;
    var p := MatchAt(src, token % 16, offset, ip, lit, litLen);
    FollowsPiece(src, p, out, g);
    LiteralsFirst(src, p, out, 0, g.Size());
  }

  lemma FollowsMatch(src: seq<byte>, offset: nat, length: nat, ip: nat, out: seq<byte>, g: Goal)
    requires ip <= |src| && 1 <= offset <= |out|
    requires Follows(src, Match(0, 0, offset, length, ip), out, g)
    requires |out| + MFLIMIT <= g.Size() && |out| + length + LASTLITERALS <= g.Size()
    ensures Follows(src, Parse(src, ip), Extend(out, offset, length), g)
  {
    MatchStep(src, Match(0, 0, offset, length, ip), [], out, g.Size());
    assert out + [] == out;
  }

  // ---------------------------------------------------------------- the decoder

  /** One literal run: returns the position of the match, or the end of the block. */
  method Literals(src: seq<byte>, dst: array<byte>, oend: nat, start: nat, startOp: nat, ghost g: Goal)
    returns (ok: bool, token: byte, ip: nat, op: nat)
    requires start < |src| && startOp <= oend <= dst.Length && oend == g.Size()
    requires Follows(src, Parse(src, start), dst[..startOp], g)
    modifies dst
    ensures ok && start < ip <= |src| && startOp <= op <= oend
    ensures forall i :: oend <= i < dst.Length ==> dst[i] == old(dst[i])
    ensures op == oend ==> ip == |src| && g.legal && g.meaning == Good(dst[..op])
    ensures op < oend < op + MFLIMIT ==> !g.legal
    ensures op < oend ==> ip + 2 <= |src|
    ensures op < oend ==> Follows(src, MatchAt(src, token % 16, ReadLE16(src, ip), ip + 2, 0, 0), dst[..op], g)
  {
    hide Run, Legal, Follows, AfterToken, ReadLE16, Parse;
    op := startOp;
    ghost var out := dst[..op];
    FollowsPiece(src, Parse(src, start), out, g);
    var ll;
    token, ip, ll := LiteralLength(src, start);
    ghost var p := LiteralsAt(src, token % 16, ip, ll);
    ghost var lit := ip;
    FinalSize(src, p, out, g);
    if oend - op < ll {
      return false, token, ip, op;
    }
    CopyIn(src, ip, dst, op, ll);
    ok, op, ip := true, op + ll, ip + ll;
    assert dst[..op] == out + src[lit..lit + ll];
    if p.Match? {
      FollowsLiterals(src, token, ReadLE16(src, ip), ip + 2, lit, ll, out, g);
    }
  }

  lemma FinalSize(src: seq<byte>, p: Piece, out: seq<byte>, g: Goal)
    requires Follows(src, p, out, g)
    ensures p.Final? ==> |out| + p.litLen == g.Size()
  {
  }

  /** One match, copied byte by byte. */
  method MatchBytes(dst: array<byte>, op: nat, offset: nat, ml: nat)
    requires 1 <= offset <= op && op + ml <= dst.Length
    modifies dst
    ensures dst[..op + ml] == Extend(old(dst[..op]), offset, ml)
    ensures forall i :: op + ml <= i < dst.Length ==> dst[i] == old(dst[i])
  {
    ghost var before := dst[..op];
    var u := 0;
    while u < ml
      invariant 0 <= u <= ml
      invariant forall i :: 0 <= i < op ==> dst[i] == before[i]
      invariant forall i :: op <= i < op + u ==> dst[i] == dst[i - offset]
      invariant forall i :: op + u <= i < dst.Length ==> dst[i] == old(dst[i])
    {
      dst[op + u] := dst[op - offset + u];
      u := u + 1;
    }
    PeriodicIsExtend(before, offset, dst[..op + ml]);
  }

  /** Match length. */
  method MatchLength(src: seq<byte>, token: byte, ghost offset: nat, start: nat) returns (ml: nat, ip: nat)
    requires start <= |src| && !MatchAt(src, token % 16, offset, start, 0, 0).Malformed?
    ensures MatchAt(src, token % 16, offset, start, 0, 0) == Match(0, 0, offset, ml, ip)
    ensures start <= ip && ml >= MINMATCH
  {
    ml, ip := token % 16, start;
    if ml == 15 {
      var more;
      more, ip := ReadLongLength(src, ip);
      ml := ml + more;
    }
    ml := ml + MINMATCH;
  }

  /** Offset, length and copy of one match. */
  method MatchRun(src: seq<byte>, dst: array<byte>, oend: nat, token: byte, start: nat, startOp: nat, ghost g: Goal)
    returns (ok: bool, ip: nat, op: nat)
    requires start + 2 <= |src| && startOp + MFLIMIT <= oend <= dst.Length && oend == g.Size()
    requires Follows(src, MatchAt(src, token % 16, ReadLE16(src, start), start + 2, 0, 0), dst[..startOp], g)
    modifies dst
    ensures if ok then start < ip < |src| && op + LASTLITERALS <= oend && Follows(src, Parse(src, ip), dst[..op], g)
            else !g.legal
    ensures forall i :: oend <= i < dst.Length ==> dst[i] == old(dst[i])
  {
    hide Run, Legal, Follows, Parse, ReadLE16, MatchAt;
    op := startOp;
    var offset := ReadLE16(src, start);
    ghost var out := dst[..op];
    FollowsPiece(src, MatchAt(src, token % 16, offset, start + 2, 0, 0), out, g);
    var ml;
    ml, ip := MatchLength(src, token, offset, start + 2);
    if oend - op < ml || offset > op {
      return false, ip, op;
    }
    MatchBytes(dst, op, offset, ml);
    op := op + ml;
    if oend - op < LASTLITERALS {
      return false, ip, op;
    }
    FollowsMatch(src, offset, ml, ip, out, g);
    return true, ip, op;
  }

  /** LZ4_decompress_unsafe_generic, told the size of a block that decodes: it succeeds exactly on
      the blocks that meet the parsing restrictions. */
  method DecompressUnsafeGeneric(src: seq<byte>, dst: array<byte>, decompressedSize: nat) returns (r: int)
    requires WellFormed(src) && decompressedSize == |Decode(src).bytes| <= dst.Length
    modifies dst
    ensures r == if LegalBlock(src) then |src| else -1
    ensures LegalBlock(src) ==> dst[..decompressedSize] == Decode(src).bytes
    ensures forall i :: decompressedSize <= i < dst.Length ==> dst[i] == old(dst[i])
  {
    hide Run, Legal, Follows, Parse, ReadLE16, MatchAt, LegalBlock, Decode, WellFormed;
    var ip: nat, op: nat, oend := 0, 0, decompressedSize;
    ghost var g := Goal(Decode(src), LegalBlock(src), true);
    Begins(src);
    assert dst[..0] == [];
    while true
      invariant ip < |src| && op <= oend
      invariant Follows(src, Parse(src, ip), dst[..op], g)
      invariant forall i :: oend <= i < dst.Length ==> dst[i] == old(dst[i])
      decreases |src| - ip
    {
      var ok, token;
      ok, token, ip, op := Literals(src, dst, oend, ip, op, g);
      if !ok {
        return -1;
      }
      if oend - op < MFLIMIT {
        if op == oend {
          break;
        }
        return -1;
      }
      ok, ip, op := MatchRun(src, dst, oend, token, ip, op, g);
      if !ok {
        return -1;
      }
    }
    return ip;
  }

  lemma Begins(src: seq<byte>)
    requires WellFormed(src)
    ensures src != [] && Decode(src).Good?
    ensures Follows(src, Parse(src, 0), [], Goal(Decode(src), LegalBlock(src), true))
  {
    ParseInInput(src, 0);
  }

  /** Legal blocks are well formed. */
  lemma LegalIsWellFormed(src: seq<byte>)
    requires LegalBlock(src)
    ensures WellFormed(src)
  {
    ParseInInput(src, 0);
    LegalOffsets(src, Parse(src, 0), 0, |Decode(src).bytes|);
  }

  lemma {:induction false} LegalOffsets(src: seq<byte>, p: Piece, pos: nat, size: nat)
    requires InInput(src, p) && Legal(src, p, pos, size)
    ensures Offsets(src, p)
    decreases if p.Match? then |src| - p.next + 1 else 0
  {
    if p.Match? {
      ParseInInput(src, p.next);
      LegalOffsets(src, Parse(src, p.next), pos + p.litLen + p.length, size);
    }
  }
}
