/** The optimised decoder LZ4_decompress_generic without dictionary: a fast loop that runs while
    64 bytes of output are left, and a safe loop the fast loop may enter at several places. */
module Lz4Decode {
  import opened Lz4Format
  import opened Lz4Copy

  const FASTLOOP_SAFE_DISTANCE := 64
  const MATCH_SAFEGUARD_DISTANCE := 12

  /** Reads an extended length; fails when a byte at or past `limit` would be needed. */
  method ReadVariableLength(src: seq<byte>, start: nat, limit: int)
    returns (ok: bool, length: nat, ip: nat)
    requires start <= |src| && limit <= |src|
    ensures ok <==> ReadLength(src, start).Length? && ReadLength(src, start).next <= limit
    ensures ok ==> ReadLength(src, start) == Length(length, ip)
    ensures start <= ip <= |src|
  {
    ip, length := start, 0;
    if ip >= limit {
      return false, 0, ip;
    }
    var s := src[ip];
    ip := ip + 1;
    length := length + s;
    while s == 255
      invariant start < ip <= limit
      invariant s != 255 ==> ReadLength(src, start) == Length(length, ip)
      invariant s == 255 ==> ReadLength(src, start) == Plus(length, ReadLength(src, ip))
      decreases |src| - ip, s
    {
      if ip >= limit {
        return false, 0, ip;
      }
      s := src[ip];
      ip := ip + 1;
      length := length + s;
    }
    return true, length, ip;
  }

  ghost function Plus(n: nat, f: LengthField): LengthField {
    match f
    case Truncated => Truncated
    case Length(v, next) => Length(n + v, next)
  }

  // ---------------------------------------------------------------- what the loops keep

  /** Places where the safe loop is entered or the fast loop is left. */
  datatype Stage = Token | EarlyLiterals | LiteralCopy | CopyMatch | MatchCopy

  /** The registers of the decoder. */
  datatype Cursor = Cursor(ip: nat, op: nat, token: byte, length: nat, offset: nat)

  /** What is still to be read, given the stage and the registers. */
  ghost function Pending(src: seq<byte>, stage: Stage, c: Cursor): Piece
    requires c.ip <= |src|
  {
    match stage
    case Token => Parse(src, c.ip)
    case EarlyLiterals => AfterToken(src, c.token, c.ip)
    case LiteralCopy => LiteralsAt(src, c.token % 16, c.ip, c.length)
    case CopyMatch => MatchAt(src, c.token % 16, c.offset, c.ip, 0, 0)
    case MatchCopy => Match(0, 0, c.offset, c.length, c.ip)
  }

  /** What the whole input means, whether it is a legal block, and whether the decoder must
      follow its meaning even if it is not (partial decoding leaves stale bytes for matches
      with offset 0). The loops carry this along without looking into it. */
  datatype Goal = Goal(meaning: Decoded, legal: bool, strict: bool) {
    ghost function Size(): nat {
      if meaning.Good? then |meaning.bytes| else 0
    }
  }

  /** Reading `p` on top of `out` gives the meaning of the whole block, and if the block is
      legal then so is the rest. */
  ghost predicate Tracks(src: seq<byte>, p: Piece, out: seq<byte>, g: Goal)
  {
    && InInput(src, p)
    && (g.strict || g.legal ==> Run(src, p, out) == g.meaning)
    && (g.legal ==> Legal(src, p, |out|, g.Size()))
  }

  ghost predicate Registers(src: seq<byte>, stage: Stage, c: Cursor, oend: nat, partial: bool)
  {
    && c.ip <= |src| && c.op <= oend
    && match stage
       case Token => c.ip < |src|
       case EarlyLiterals => c.length == c.token / 16
       case LiteralCopy => true
       case CopyMatch => c.ip < |src| && c.length == c.token % 16 && (partial || c.op + 12 <= oend)
       case MatchCopy => c.ip < |src| && c.length >= MINMATCH && (partial || c.op + 12 <= oend)
  }

  /** Decoding may refuse only blocks that are not legal or, in full mode, do not fit. */
  ghost predicate MayRefuse(g: Goal, oend: nat, partial: bool) {
    g.legal ==> !partial && oend < g.Size()
  }

  /** A result: the whole meaning in full mode, the longest prefix that fits in partial mode. */
  ghost predicate IsResult(g: Goal, out: seq<byte>, oend: nat, partial: bool) {
    && (!partial && g.strict ==> g.meaning == Good(out))
    && (g.legal ==> g.meaning.Good? && out <= g.meaning.bytes
                    && |out| == if g.Size() < oend then g.Size() else oend)
  }

  /** What legality says about the sequence being read. */
  lemma LegalPiece(src: seq<byte>, p: Piece, out: seq<byte>, g: Goal)
    requires Tracks(src, p, out, g) && g.legal
    ensures p.Match? ==>
      && 1 <= p.offset <= |out| + p.litLen
      && |out| + p.litLen + MFLIMIT <= g.Size()
      && |out| + p.litLen + p.length + LASTLITERALS <= g.Size()
      && p.next + 1 + LASTLITERALS <= |src|
    ensures p.Final? ==> |out| + p.litLen == g.Size()
    ensures !p.Malformed?
  {
    if p.Match? {
      ParseInInput(src, p.next);
      LegalTail(src, p.next, |out| + p.litLen + p.length, g.Size());
    }
  }

  /** After the literals. */
  lemma TakeLiterals(src: seq<byte>, token: byte, offset: nat, ip: nat, lit: nat,
      litLen: nat, out: seq<byte>, g: Goal)
    requires ip <= |src| && lit + litLen <= |src|
    requires Tracks(src, MatchAt(src, token % 16, offset, ip, lit, litLen), out, g)
    ensures Tracks(src, MatchAt(src, token % 16, offset, ip, 0, 0), out + src[lit..lit + litLen], g)
  {
    hide Run, Legal;
    var p := MatchAt(src, token % 16, offset, ip, lit, litLen);
    if p.Match? {
      LiteralsFirst(src, p, out, 0, g.Size());
    } else {
      StillMalformed(src, out, out + src[lit..lit + litLen], g);
    }
  }

  lemma StillMalformed(src: seq<byte>, out: seq<byte>, more: seq<byte>, g: Goal)
    requires Tracks(src, Malformed, out, g)
    ensures Tracks(src, Malformed, more, g)
  {
  }

  /** After the match. */
  lemma TakeMatch(src: seq<byte>, offset: nat, length: nat, ip: nat, out: seq<byte>, g: Goal)
    requires ip <= |src| && offset <= |out|
    requires Tracks(src, Match(0, 0, offset, length, ip), out, g)
    ensures Tracks(src, Parse(src, ip), Extend(out, offset, length), g)
  {
    MatchStep(src, Match(0, 0, offset, length, ip), [], out, g.Size());
    assert out + [] == out;
  }

  /** What has been produced is a prefix of the result. */
  lemma ProducedPrefix(src: seq<byte>, p: Piece, out: seq<byte>, g: Goal)
    requires Tracks(src, p, out, g) && g.legal
    ensures g.meaning.Good? && out <= g.meaning.bytes
  {
    LegalRuns(src, p, out, g.Size());
  }

  /** In a legal block the bytes that extend a literal length stop at least 15 bytes before the
      end of the input. */
  lemma ExtensionRoom(src: seq<byte>, token: byte, ip: nat, out: seq<byte>, g: Goal)
    requires ip <= |src| && g.legal && token / 16 == 15
    requires Tracks(src, AfterToken(src, token, ip), out, g)
    ensures ReadLength(src, ip).Length? && ReadLength(src, ip).next + RUN_MASK <= |src|
  {
    LegalPiece(src, AfterToken(src, token, ip), out, g);
  }

  /** Those that extend a match length stop at least 6 bytes before it. */
  lemma MatchExtensionRoom(src: seq<byte>, offset: nat, ip: nat, out: seq<byte>, g: Goal)
    requires ip <= |src| && g.legal && Tracks(src, MatchAt(src, ML_MASK, offset, ip, 0, 0), out, g)
    ensures ReadLength(src, ip).Length? && ReadLength(src, ip).next + 1 + LASTLITERALS <= |src|
  {
    LegalPiece(src, MatchAt(src, ML_MASK, offset, ip, 0, 0), out, g);
  }

  // ---------------------------------------------------------------- fast loop

  datatype Outcome = Refused | Goto(stage: Stage) | Finished

  /** Token and literal length of one round of the fast loop. */
  method FastToken(src: seq<byte>, oend: nat, start: Cursor, ghost out: seq<byte>, ghost g: Goal)
    returns (o: Outcome, c: Cursor)
    requires Registers(src, Token, start, oend, false)
    requires Tracks(src, Parse(src, start.ip), out, g)
    ensures o in {Refused, Goto(EarlyLiterals), Goto(LiteralCopy)}
    ensures o.Refused? ==> !g.legal
    ensures o.Goto? ==> Registers(src, o.stage, c, oend, false) && Tracks(src, Pending(src, o.stage, c), out, g)
    ensures o.Goto? ==> c.op == start.op && c.ip > start.ip
    ensures o == Goto(LiteralCopy) && c.token / 16 != RUN_MASK ==> c.ip + 17 <= |src| && c.length < RUN_MASK
    ensures o == Goto(LiteralCopy) && c.token / 16 == RUN_MASK ==> c.length >= RUN_MASK
  {
    hide Run, Legal, LiteralsAt;
    var ip := start.ip;
    var token := src[ip];
    ip := ip + 1;
    var length := token / 16;
    c := Cursor(ip, start.op, token, length, 0);
    if ip > |src| - (16 + 1) {
      return Goto(EarlyLiterals), c;
    }
    if length == RUN_MASK {
      if g.legal {
        ExtensionRoom(src, token, ip, out, g);
      }
      var ok, addl, ip1 := ReadVariableLength(src, ip, |src| - RUN_MASK);
      if !ok {
        return Refused, c.(ip := ip1);
      }
      c := Cursor(ip1, start.op, token, length + addl, 0);
    }
    return Goto(LiteralCopy), c;
  }

  /** Literals of one round of the fast loop: left to the safe loop when a long run comes close
      to the end of either buffer; otherwise written, up to the offset that follows. */
  method FastLiterals(src: seq<byte>, dst: array<byte>, oend: nat, start: Cursor, ghost g: Goal)
    returns (o: Outcome, c: Cursor)
    requires Registers(src, LiteralCopy, start, oend, false)
    requires start.op + FASTLOOP_SAFE_DISTANCE <= oend <= dst.Length
    requires if start.token / 16 != RUN_MASK then start.ip + 17 <= |src| && start.length < RUN_MASK
             else start.length >= RUN_MASK
    requires Tracks(src, Pending(src, LiteralCopy, start), dst[..start.op], g)
    modifies dst
    ensures o in {Goto(LiteralCopy), Goto(CopyMatch)}
    ensures Registers(src, o.stage, c, oend, false)
    ensures Tracks(src, Pending(src, o.stage, c), dst[..c.op], g)
    ensures o == Goto(CopyMatch) ==> c.op + 32 <= oend && c.ip > start.ip
    ensures forall i :: oend <= i < dst.Length ==> dst[i] == old(dst[i])
  {
    hide Run, Legal, Tracks, MatchAt;
    var ip, op, length := start.ip, start.op, start.length;
    ghost var out := dst[..op];
    if start.token / 16 == RUN_MASK {
      var cpy := op + length;
      if cpy > oend - 32 || ip + length > |src| - 32 {
        return Goto(LiteralCopy), start;
      }
      CopyIn32(src, ip, dst, op, cpy);
    } else {
      CopyIn(src, ip, dst, op, 16);
    }
    ghost var lit := ip;
    ip, op := ip + length, op + length;
    assert dst[..op] == out + src[lit..lit + length];
    var offset := ReadLE16(src, ip);
    ip := ip + 2;
    c := Cursor(ip, op, start.token, start.token % 16, offset);
    TakeLiterals(src, start.token, offset, ip, lit, length, out, g);
    return Goto(CopyMatch), c;
  }

  /** LZ4_wildCopy32 from the input. */
  method CopyIn32(src: seq<byte>, s: nat, dst: array<byte>, d: nat, e: nat)
    requires d < e && e + 31 <= dst.Length && s + (e - d) + 31 <= |src|
    modifies dst
    ensures forall i :: 0 <= i < d ==> dst[i] == old(dst[i])
    ensures forall i :: d <= i < e ==> dst[i] == src[s + i - d]
    ensures forall i :: e + 31 <= i < dst.Length ==> dst[i] == old(dst[i])
  {
    var dd, ss := d, s;
    while dd < e
      invariant ss - s == dd - d && d <= dd < e + 32
      invariant forall i :: 0 <= i < d ==> dst[i] == old(dst[i])
      invariant forall i :: d <= i < dd ==> dst[i] == src[s + i - d]
      invariant forall i :: dd <= i < dst.Length ==> dst[i] == old(dst[i])
    {
      CopyIn(src, ss, dst, dd, 16);
      CopyIn(src, ss + 16, dst, dd + 16, 16);
      dd, ss := dd + 32, ss + 32;
    }
  }

  /** Length and copy of one match of the fast loop. */
  method FastMatch(src: seq<byte>, dst: array<byte>, oend: nat, start: Cursor, ghost g: Goal)
    returns (o: Outcome, c: Cursor)
    requires Registers(src, CopyMatch, start, oend, false)
    requires start.op + 32 <= oend <= dst.Length
    requires Tracks(src, Pending(src, CopyMatch, start), dst[..start.op], g)
    modifies dst
    ensures o.Refused? ==> !g.legal
    ensures o in {Refused, Goto(Token), Goto(MatchCopy)}
    ensures o.Goto? ==> Registers(src, o.stage, c, oend, false)
    ensures o.Goto? ==> Tracks(src, Pending(src, o.stage, c), dst[..c.op], g)
    ensures o.Goto? && o.stage == Token ==> c.ip >= start.ip && c.op + FASTLOOP_SAFE_DISTANCE <= oend
    ensures forall i :: oend <= i < dst.Length ==> dst[i] == old(dst[i])
  {
    hide Run, Legal, Tracks;
    var ip, op, length, offset := start.ip, start.op, start.length, start.offset;
    ghost var out := dst[..op];
    ghost var p := Pending(src, CopyMatch, start);
    c := start;
    if g.legal {
      LegalPiece(src, p, out, g);
    }
    if length == ML_MASK {
      if g.legal {
        MatchExtensionRoom(src, start.offset, ip, out, g);
      }
      var ok, addl, ip1 := ReadVariableLength(src, ip, |src| - (1 + LASTLITERALS));
      if !ok {
        return Refused, c.(ip := ip1);
      }
      ip, length := ip1, length + addl;
    }
    length := length + MINMATCH;
    c := Cursor(ip, op, start.token, length, offset);
    assert p == Match(0, 0, offset, length, ip);
    if op + length >= oend - FASTLOOP_SAFE_DISTANCE {
      return Goto(MatchCopy), c;
    }
    if start.length != ML_MASK && op >= offset && offset >= 8 {
      CopyEighteen(dst, op, offset, length);
    } else {
      if op < offset {
        return Refused, c;
      }
      CopyMatchFast(dst, op, offset, length);
    }
    TakeMatch(src, offset, length, ip, out, g);
    op := op + length;
    c := Cursor(ip, op, start.token, length, offset);
    return Goto(Token), c;
  }

  method FastLoop(src: seq<byte>, dst: array<byte>, oend: nat, ghost g: Goal)
    returns (o: Outcome, c: Cursor)
    requires src != [] && FASTLOOP_SAFE_DISTANCE <= oend <= dst.Length
    requires Tracks(src, Parse(src, 0), [], g)
    modifies dst
    ensures o in {Refused, Goto(EarlyLiterals), Goto(LiteralCopy), Goto(MatchCopy)}
    ensures o.Refused? ==> !g.legal
    ensures o.Goto? ==> Registers(src, o.stage, c, oend, false)
    ensures o.Goto? ==> Tracks(src, Pending(src, o.stage, c), dst[..c.op], g)
    ensures forall i :: oend <= i < dst.Length ==> dst[i] == old(dst[i])
  {
    hide Run, Legal, Tracks, Parse, AfterToken, LiteralsAt, MatchAt;
    c := Cursor(0, 0, 0, 0, 0);
    o := Goto(Token);
    assert dst[..0] == [];
    while true
      invariant o == Goto(Token) && Registers(src, Token, c, oend, false)
      invariant c.op + FASTLOOP_SAFE_DISTANCE <= oend
      invariant Tracks(src, Parse(src, c.ip), dst[..c.op], g)
      invariant forall i :: oend <= i < dst.Length ==> dst[i] == old(dst[i])
      decreases |src| - c.ip
    {
      o, c := FastToken(src, oend, c, dst[..c.op], g);
      if o != Goto(LiteralCopy) {
        return;
      }
      o, c := FastLiterals(src, dst, oend, c, g);
      if o != Goto(CopyMatch) {
        return;
      }
      o, c := FastMatch(src, dst, oend, c, g);
      if o != Goto(Token) {
        return;
      }
    }
  }

  // ---------------------------------------------------------------- safe loop

  /** Token; and, with room on both sides, the literals of the shortcut. */
  method SafeToken(src: seq<byte>, dst: array<byte>, oend: nat, start: Cursor, partial: bool, ghost g: Goal)
    returns (o: Outcome, c: Cursor)
    requires Registers(src, Token, start, oend, partial) && oend <= dst.Length
    requires Tracks(src, Parse(src, start.ip), dst[..start.op], g)
    modifies dst
    ensures o in {Goto(EarlyLiterals), Goto(CopyMatch)}
    ensures Registers(src, o.stage, c, oend, partial) && c.ip > start.ip
    ensures o == Goto(CopyMatch) ==> c.op + 18 <= oend
    ensures Tracks(src, Pending(src, o.stage, c), dst[..c.op], g)
    ensures forall i :: oend <= i < dst.Length ==> dst[i] == old(dst[i])
  {
    hide Run, Legal, Tracks, MatchAt;
    var ip, op := start.ip, start.op;
    ghost var out := dst[..op];
    var token := src[ip];
    ip := ip + 1;
    var length := token / 16;
    c := Cursor(ip, op, token, length, 0);
    if length == RUN_MASK || ip >= |src| - 16 || op > oend - 32 {
      return Goto(EarlyLiterals), c;
    }
    CopyIn(src, ip, dst, op, 16);
    ghost var lit := ip;
    op, ip := op + length, ip + length;
    assert dst[..op] == out + src[lit..lit + length];
    var offset := ReadLE16(src, ip);
    ip := ip + 2;
    TakeLiterals(src, token, offset, ip, lit, length, out, g);
    c := Cursor(ip, op, token, token % 16, offset);
    return Goto(CopyMatch), c;
  }

  /** The match of the shortcut, if it is short and does not overlap an 8-byte chunk. */
  method SafeShortcut(src: seq<byte>, dst: array<byte>, oend: nat, start: Cursor, partial: bool, ghost g: Goal)
    returns (o: Outcome, c: Cursor)
    requires Registers(src, CopyMatch, start, oend, partial)
    requires start.op + 18 <= oend <= dst.Length
    requires Tracks(src, Pending(src, CopyMatch, start), dst[..start.op], g)
    modifies dst
    ensures o in {Goto(Token), Goto(CopyMatch)} && c.ip == start.ip
    ensures Registers(src, o.stage, c, oend, partial)
    ensures Tracks(src, Pending(src, o.stage, c), dst[..c.op], g)
    ensures forall i :: oend <= i < dst.Length ==> dst[i] == old(dst[i])
  {
    hide Run, Legal;
    var ip, op, offset := start.ip, start.op, start.offset;
    if start.length != ML_MASK && offset >= 8 && op >= offset {
      ghost var out := dst[..op];
      var length := start.length + MINMATCH;
      CopyEighteen(dst, op, offset, length);
      TakeMatch(src, offset, length, ip, out, g);
      c := Cursor(ip, op + length, start.token, length, offset);
      return Goto(Token), c;
    }
    return Goto(CopyMatch), start;
  }

  /** Rest of a literal length. */
  method SafeLiteralLength(src: seq<byte>, oend: nat, start: Cursor, partial: bool, ghost out: seq<byte>, ghost g: Goal)
    returns (o: Outcome, c: Cursor)
    requires Registers(src, EarlyLiterals, start, oend, partial)
    requires Tracks(src, Pending(src, EarlyLiterals, start), out, g)
    ensures o == Refused || o == Goto(LiteralCopy)
    ensures o.Refused? ==> !g.legal
    ensures o.Goto? ==> Registers(src, LiteralCopy, c, oend, partial)
    ensures o.Goto? ==> Tracks(src, Pending(src, LiteralCopy, c), out, g)
    ensures o.Goto? ==> c.ip >= start.ip && c.op == start.op
  {
    hide Run, Legal;
    var ip, length := start.ip, start.length;
    c := start;
    if length == RUN_MASK {
      if g.legal {
        ExtensionRoom(src, start.token, ip, out, g);
      }
      var ok, addl, ip1 := ReadVariableLength(src, ip, |src| - RUN_MASK);
      if !ok {
        return Refused, c.(ip := ip1);
      }
      ip, length := ip1, length + addl;
      c := Cursor(ip, start.op, start.token, length, start.offset);
    }
    return Goto(LiteralCopy), c;
  }

  /** Literals of the safe loop. Close to the end of either buffer they must be the last ones,
      or in partial mode are cut to what is there and what fits. */
  method SafeLiteralCopy(src: seq<byte>, dst: array<byte>, oend: nat, start: Cursor, partial: bool, ghost g: Goal)
    returns (o: Outcome, c: Cursor)
    requires Registers(src, LiteralCopy, start, oend, partial) && oend <= dst.Length
    requires Tracks(src, Pending(src, LiteralCopy, start), dst[..start.op], g)
    modifies dst
    ensures o in {Refused, Goto(CopyMatch), Finished}
    ensures o.Refused? ==> MayRefuse(g, oend, partial)
    ensures o.Finished? ==> c.op <= oend && IsResult(g, dst[..c.op], oend, partial)
    ensures o.Goto? ==> Registers(src, CopyMatch, c, oend, partial)
    ensures o.Goto? ==> Tracks(src, Pending(src, CopyMatch, c), dst[..c.op], g)
    ensures o.Goto? ==> c.ip > start.ip
    ensures forall i :: oend <= i < dst.Length ==> dst[i] == old(dst[i])
  {
    hide Run, Legal, Tracks, IsResult;
    var ip, op, length := start.ip, start.op, start.length;
    ghost var out := dst[..op];
    ghost var lit, ll := ip, length;
    ghost var p := LiteralsAt(src, start.token % 16, lit, ll);
    var cpy := op + length;
    if g.legal {
      LegalPiece(src, p, out, g);
    }
    if cpy > oend - MFLIMIT || ip + length > |src| - (2 + 1 + LASTLITERALS) {
      if partial {
        if ip + length > |src| {
          length := |src| - ip;
          cpy := op + length;
        }
        if cpy > oend {
          cpy := oend;
          length := oend - op;
        }
      } else {
        if ip + length != |src| || cpy > oend {
          return Refused, start;
        }
      }
      CopyIn(src, ip, dst, op, length);
      assert dst[..op + length] == out + src[lit..lit + length];
      ip, op := ip + length, op + length;
      c := Cursor(ip, op, start.token, length, 0);
      if !partial || cpy == oend || ip >= |src| - 2 {
        LastLiterals(src, p, out, lit, length, oend, partial, g);
        return Finished, c;
      }
    } else {
      WildCopyIn(src, ip, dst, op, cpy, 8);
      assert dst[..cpy] == out + src[lit..lit + length];
      ip, op := ip + length, cpy;
    }
    var offset := ReadLE16(src, ip);
    ip := ip + 2;
    c := Cursor(ip, op, start.token, start.token % 16, offset);
    TakeLiterals(src, start.token, offset, ip, lit, length, out, g);
    return Goto(CopyMatch), c;
  }

  /** Literals that end the decoding. */
  lemma LastLiterals(src: seq<byte>, p: Piece, out: seq<byte>, lit: nat, length: nat,
      oend: nat, partial: bool, g: Goal)
    requires Tracks(src, p, out, g) && lit + length <= |src| && |out| + length <= oend
    requires !partial ==> p == Final(lit, length)
    requires p.Final? ==> p.lit == lit && (length == p.litLen || (length < p.litLen && |out| + length == oend))
    requires g.legal && p.Match? ==> p.lit == lit && length <= p.litLen && |out| + length == oend
    ensures IsResult(g, out + src[lit..lit + length], oend, partial)
  {
    if g.legal {
      LegalPiece(src, p, out, g);
      LegalRuns(src, p, out, g.Size());
      assert src[lit..lit + length] == src[lit..lit + p.litLen][..length];
    }
  }

  /** Rest of a match length. */
  method SafeMatchLength(src: seq<byte>, oend: nat, start: Cursor, partial: bool, ghost out: seq<byte>, ghost g: Goal)
    returns (o: Outcome, c: Cursor)
    requires Registers(src, CopyMatch, start, oend, partial)
    requires Tracks(src, Pending(src, CopyMatch, start), out, g)
    ensures o == Refused || o == Goto(MatchCopy)
    ensures o.Refused? ==> !g.legal
    ensures o.Goto? ==> Registers(src, MatchCopy, c, oend, partial)
    ensures o.Goto? ==> Tracks(src, Pending(src, MatchCopy, c), out, g)
    ensures o.Goto? ==> c.ip >= start.ip && c.op == start.op
  {
    hide Run, Legal;
    var ip, length := start.ip, start.length;
    c := start;
    if g.legal {
      LegalPiece(src, Pending(src, CopyMatch, start), out, g);
    }
    if length == ML_MASK {
      if g.legal {
        MatchExtensionRoom(src, start.offset, ip, out, g);
      }
      var ok, addl, ip1 := ReadVariableLength(src, ip, |src| - (1 + LASTLITERALS));
      if !ok {
        return Refused, c.(ip := ip1);
      }
      ip, length := ip1, length + addl;
    }
    length := length + MINMATCH;
    c := Cursor(ip, start.op, start.token, length, start.offset);
    return Goto(MatchCopy), c;
  }

  method SafeMatchCopy(src: seq<byte>, dst: array<byte>, oend: nat, start: Cursor, partial: bool, ghost g: Goal)
    returns (o: Outcome, c: Cursor)
    requires Registers(src, MatchCopy, start, oend, partial) && oend <= dst.Length
    requires Tracks(src, Pending(src, MatchCopy, start), dst[..start.op], g)
    requires partial ==> !g.strict
    modifies dst
    ensures o in {Refused, Goto(Token), Finished}
    ensures o.Refused? ==> MayRefuse(g, oend, partial)
    ensures o.Finished? ==> c.op <= oend && IsResult(g, dst[..c.op], oend, partial)
    ensures o.Goto? ==> Registers(src, Token, c, oend, partial)
    ensures o.Goto? ==> Tracks(src, Pending(src, Token, c), dst[..c.op], g)
    ensures o.Goto? ==> c.ip >= start.ip
    ensures forall i :: oend <= i < dst.Length ==> dst[i] == old(dst[i])
  {
    hide Run, Legal;
    var ip, op, length, offset := start.ip, start.op, start.length, start.offset;
    ghost var out := dst[..op];
    ghost var p := Match(0, 0, offset, length, ip);
    c := start;
    if g.legal {
      LegalPiece(src, p, out, g);
    }
    if op < offset {
      return Refused, c;
    }
    TakeMatch(src, offset, length, ip, out, g);
    ghost var out1 := Extend(out, offset, length);
    var cpy := op + length;
    if partial && cpy > oend - MATCH_SAFEGUARD_DISTANCE {
      var mlen := if length < oend - op then length else oend - op;
      CopyMatchPartial(dst, op, offset, mlen);
      op := op + mlen;
      c := Cursor(ip, op, start.token, length, offset);
      if op == oend {
        if g.legal {
          ExtendPrefix(out, offset, mlen, length);
          ProducedPrefix(src, Parse(src, ip), out1, g);
        }
        return Finished, c;
      }
      if !g.legal {
        NothingOwed(src, ip, dst[..op], g);
      }
      return Goto(Token), c;
    }
    var ok := CopyMatchSafe(dst, op, offset, length, oend);
    if !ok {
      return Refused, c;
    }
    op := cpy;
    c := Cursor(ip, op, start.token, length, offset);
    return Goto(Token), c;
  }

  lemma {:induction false} ExtendPrefix(out: seq<byte>, offset: nat, n: nat, m: nat)
    requires offset <= |out| && n <= m
    ensures Extend(out, offset, n) <= Extend(out, offset, m)
    decreases n
  {
    if n > 0 {
      ExtendPrefix(out + [if offset == 0 then 0 else out[|out| - offset]], offset, n - 1, m - 1);
    }
  }

  lemma NothingOwed(src: seq<byte>, ip: nat, out: seq<byte>, g: Goal)
    requires ip <= |src| && !g.legal && !g.strict
    ensures Tracks(src, Parse(src, ip), out, g)
  {
    ParseInInput(src, ip);
  }

  /** Up to the match of one round of the safe loop. */
  method SafeLiterals(src: seq<byte>, dst: array<byte>, oend: nat, entry: Stage, start: Cursor, partial: bool,
      ghost g: Goal)
    returns (o: Outcome, c: Cursor)
    requires Registers(src, entry, start, oend, partial) && oend <= dst.Length
    requires Tracks(src, Pending(src, entry, start), dst[..start.op], g)
    requires entry in {Token, EarlyLiterals, LiteralCopy}
    modifies dst
    ensures o in {Refused, Goto(Token), Goto(CopyMatch), Finished}
    ensures o.Refused? ==> MayRefuse(g, oend, partial)
    ensures o.Finished? ==> c.op <= oend && IsResult(g, dst[..c.op], oend, partial)
    ensures o.Goto? ==> Registers(src, o.stage, c, oend, partial)
    ensures o.Goto? ==> Tracks(src, Pending(src, o.stage, c), dst[..c.op], g)
    ensures o.Goto? ==> c.ip > start.ip
    ensures forall i :: oend <= i < dst.Length ==> dst[i] == old(dst[i])
  {
    hide Run, Legal, Tracks, IsResult, Parse, AfterToken, LiteralsAt, MatchAt;
    o, c := Goto(entry), start;
    if o == Goto(Token) {
      o, c := SafeToken(src, dst, oend, c, partial, g);
      if o == Goto(CopyMatch) {
        o, c := SafeShortcut(src, dst, oend, c, partial, g);
        return;
      }
    }
    if o == Goto(EarlyLiterals) {
      o, c := SafeLiteralLength(src, oend, c, partial, dst[..c.op], g);
    }
    if o == Goto(LiteralCopy) {
      o, c := SafeLiteralCopy(src, dst, oend, c, partial, g);
    }
  }

  /** The safe loop, entered at a token or at one of the labels the fast loop jumps to. */
  method SafeLoop(src: seq<byte>, dst: array<byte>, oend: nat, entry: Stage, start: Cursor, partial: bool,
      ghost g: Goal)
    returns (o: Outcome, c: Cursor)
    requires Registers(src, entry, start, oend, partial) && oend <= dst.Length
    requires Tracks(src, Pending(src, entry, start), dst[..start.op], g)
    requires partial ==> !g.strict
    modifies dst
    ensures o in {Refused, Finished}
    ensures o.Refused? ==> MayRefuse(g, oend, partial)
    ensures o.Finished? ==> c.op <= oend && IsResult(g, dst[..c.op], oend, partial)
    ensures forall i :: oend <= i < dst.Length ==> dst[i] == old(dst[i])
  {
    hide Run, Legal, Tracks, Pending, IsResult, Parse, AfterToken, LiteralsAt, MatchAt;
    o, c := Goto(entry), start;
    while true
      invariant o.Goto? && Registers(src, o.stage, c, oend, partial)
      invariant Tracks(src, Pending(src, o.stage, c), dst[..c.op], g)
      invariant forall i :: oend <= i < dst.Length ==> dst[i] == old(dst[i])
      decreases |src| - c.ip, if o == Goto(Token) then 0 else 1
    {
      if o.stage in {Token, EarlyLiterals, LiteralCopy} {
        o, c := SafeLiterals(src, dst, oend, o.stage, c, partial, g);
      }
      if o == Goto(CopyMatch) {
        o, c := SafeMatchLength(src, oend, c, partial, dst[..c.op], g);
      }
      if o == Goto(MatchCopy) {
        o, c := SafeMatchCopy(src, dst, oend, c, partial, g);
      }
      if !o.Goto? {
        return;
      }
    }
  }

  lemma NoToken(src: seq<byte>)
    requires src == []
    ensures !LegalBlock(src)
  {
  }

  /** LZ4_decompress_generic: the decoded size, or a negative number. */
  method DecompressGeneric(src: seq<byte>, dst: array<byte>, outputSize: int, partial: bool, ghost g: Goal)
    returns (r: int)
    requires outputSize <= dst.Length
    requires g == Goal(Decode(src), LegalBlock(src), !partial)
    modifies dst
    ensures r <= (if outputSize < 0 then -1 else outputSize)
    ensures r < 0 && outputSize > 0 ==> MayRefuse(g, outputSize, partial)
    ensures r >= 0 && outputSize > 0 ==> IsResult(g, dst[..r], outputSize, partial)
    ensures outputSize == 0 ==> r == if partial || src == [0] then 0 else -1
    ensures forall i :: 0 <= i < dst.Length && outputSize <= i ==> dst[i] == old(dst[i])
  {
    hide Run, Legal;
    if outputSize < 0 {
      return -1;
    }
    if outputSize == 0 {
      if partial {
        return 0;
      }
      return if |src| == 1 && src[0] == 0 then 0 else -1;
    }
    if |src| == 0 {
      NoToken(src);
      return -1;
    }
    var o, c := Goto(Token), Cursor(0, 0, 0, 0, 0);
    assert dst[..0] == [];
    if outputSize >= FASTLOOP_SAFE_DISTANCE {
      o, c := FastLoop(src, dst, outputSize, g);
      if o.Refused? {
        return -(c.ip as int) - 1;
      }
    }
    o, c := SafeLoop(src, dst, outputSize, o.stage, c, partial, g);
    return if o.Refused? then -(c.ip as int) - 1 else c.op;
  }
}
