/** The entry points of the codec. */
module Lz4Api {
  import opened Lz4Format
  import opened Lz4Write
  import opened Lz4Emit
  import opened Lz4Compress
  import opened Lz4Greedy
  import opened Lz4Decode
  import opened Lz4Reference

  const ACCELERATION_DEFAULT := 1
  const ACCELERATION_MAX := 65537

  /** One hash function for each table type. */
  datatype Hashes = Hashes(hash4: seq<byte> -> nat, hash5: seq<byte> -> nat) {
    ghost predicate Valid() {
      && (forall s :: hash4(s) < TABLE_SIZE)
      && (forall s :: hash5(s) < TABLE_SIZE)
    }

    /** Inputs below 64 KB use 16-bit table entries. */
    function For(size: nat): Hashing {
      if size < LIMIT_64K then Hashing(ByU16, hash4) else Hashing(ByU32, hash5)
    }
  }

  lemma EmptyBlock()
    ensures Compressed([], [0], 0)
  {
    assert Parse([0], 0) == Final(1, 0);
  }

  method CompressGeneric(ctx: Stream, src: seq<byte>, dst: array<byte>, dstCapacity: int, d: Directive,
      hashes: Hashes, acceleration: nat)
    returns (result: nat, consumed: nat, ghost ss: seq<Sequence>)
    requires hashes.Valid() && acceleration >= 1
    requires ctx.hashTable.Length == TABLE_SIZE && ctx.currentOffset == 0
    requires forall h :: 0 <= h < TABLE_SIZE ==> ctx.hashTable[h] == 0
    requires (if d.NotLimited? then CompressBound(|src|) else dstCapacity) <= dst.Length
    modifies ctx, ctx.hashTable, dst
    ensures |src| > MAX_INPUT_SIZE ==> result == 0
    ensures var cap := if d.NotLimited? then CompressBound(|src|) else dstCapacity;
      && (result == 0 ==> d.LimitedOutput? || cap < 1 || |src| > MAX_INPUT_SIZE)
      && (result > 0 ==> result <= cap && Compressed(src, dst[..result], consumed))
      && (result > 0 && consumed < |src| ==> result + 1 >= cap)
      && (forall i :: 0 <= i < dst.Length && cap <= i ==> dst[i] == old(dst[i]))
    ensures result > 0 && !d.FillOutput? ==> consumed == |src|
    ensures result > 0 ==> WithinBound(result, consumed)
    ensures result > 0 && src == [] ==> dst[..result] == [0]
    ensures var cap, hs := if d.NotLimited? then CompressBound(|src|) else dstCapacity, hashes.For(|src|);
      && (|src| <= MAX_INPUT_SIZE && d.LimitedOutput? ==> (result > 0 <==> AllFit(src, Greedy(src, hs, acceleration), cap)))
      && (result > 0 ==> Written(src, hs, acceleration, d, cap, dst[..result], consumed, ss))
  {
    hide Decode, LegalBlock, Greedy, AllFit, Written;
    result, consumed, ss := 0, 0, [];
    if |src| > MAX_INPUT_SIZE {
      return;
    }
    if |src| == 0 {
      EmptyWritten(hashes.For(0), acceleration, d, if d.NotLimited? then CompressBound(0) else dstCapacity);
      if !d.NotLimited? && dstCapacity <= 0 {
        return;
      }
      dst[0] := 0;
      EmptyBlock();
      assert dst[..1] == [0];
      return 1, 0, [];
    }
    result, consumed, ss := CompressGenericValidated(ctx, src, dst, dstCapacity, d, hashes.For(|src|), acceleration);
  }

  lemma EmptyWritten(hs: Hashing, acceleration: nat, d: Directive, cap: int)
    requires acceleration >= 1
    ensures AllFit([], Greedy([], hs, acceleration), cap) <==> cap >= 1
    ensures d.FillOutput? ==> cap >= 1 ==> Written([], hs, acceleration, d, cap, [0], 0, [])
    ensures !d.FillOutput? ==> Written([], hs, acceleration, d, cap, [0], 0, [])
  {
  }

  /** The acceleration that is used: at least 1, at most 65537. */
  function Clamped(acceleration: int): nat {
    if acceleration < 1 then 1 else if acceleration > 65537 then 65537 else acceleration
  }

  /** The block an input is written as when the output is not limited. */
  ghost function GreedyBlock(src: seq<byte>, hs: Hashing, acceleration: nat): seq<byte>
    requires acceleration >= 1
  {
    var g := Greedy(src, hs, acceleration);
    if |Expand(g)| <= |src| then Block(g, src[|Expand(g)|..]) else []
  }

  /** Outside fillOutput mode the whole input is written, as that block. */
  lemma WrittenWhole(src: seq<byte>, hs: Hashing, acceleration: nat, d: Directive, cap: int, block: seq<byte>,
      consumed: nat, ss: seq<Sequence>)
    requires acceleration >= 1 && !d.FillOutput? && Written(src, hs, acceleration, d, cap, block, consumed, ss)
    ensures block == GreedyBlock(src, hs, acceleration)
  {
    hide Greedy, Block, Expand;
    assert src[|Expand(ss)|..|src|] == src[|Expand(ss)|..];
  }

  /** Equal bytes are written as one match, in a block of known size. */
  lemma EqualBlock(src: seq<byte>, hs: Hashing, acceleration: nat, cap: int)
    requires acceleration >= 1 && hs.Valid() && |src| >= 13
    ensures AllEqual(src) ==>
      && |GreedyBlock(src, hs, acceleration)| == EqualSize(|src|)
      && (AllFit(src, Greedy(src, hs, acceleration), cap) <==> EqualSize(|src|) <= cap)
      && (|src| <= MAX_INPUT_SIZE ==> EqualSize(|src|) <= CompressBound(|src|))
  {
    hide Greedy, AllFit, Block, Expand;
    if AllEqual(src) {
      EqualGreedy(src, hs, acceleration);
      EqualSized(src, src[0], cap);
    }
  }

  /** LZ4_compress_fast_extState: with room for the worst case nothing is checked, otherwise
      the output limit is. */
  method CompressFastExtState(ctx: Stream, src: seq<byte>, dst: array<byte>, maxOutputSize: int, acceleration: int,
      hashes: Hashes)
    returns (result: nat)
    requires hashes.Valid() && maxOutputSize <= dst.Length && ctx.hashTable.Length == TABLE_SIZE
    modifies ctx, ctx.hashTable, dst
    ensures result > 0 ==> result <= maxOutputSize && result <= CompressBound(|src|)
    ensures result > 0 ==> Compressed(src, dst[..result], |src|) && WithinBound(result, |src|)
    ensures |src| <= MAX_INPUT_SIZE && CompressBound(|src|) <= maxOutputSize ==> result > 0
    ensures |src| > MAX_INPUT_SIZE ==> result == 0
    ensures result > 0 && src == [] ==> dst[..result] == [0]
    ensures var hs := if |src| < 65547 then Hashing(ByU16, hashes.hash4) else Hashing(ByU32, hashes.hash5);
      var a := Clamped(acceleration);
      && (|src| <= MAX_INPUT_SIZE ==>
           (result > 0 <==> maxOutputSize >= CompressBound(|src|) || AllFit(src, Greedy(src, hs, a), maxOutputSize)))
      && (result > 0 ==> dst[..result] == GreedyBlock(src, hs, a))
    ensures 13 <= |src| <= MAX_INPUT_SIZE && AllEqual(src) ==>
      result == if EqualSize(|src|) <= maxOutputSize then EqualSize(|src|) else 0
    ensures forall i :: 0 <= i < dst.Length && maxOutputSize <= i ==> dst[i] == old(dst[i])
  {
    hide Decode, LegalBlock, Greedy, AllFit, Written, GreedyBlock, AllEqual;
    ctx.Init();
    if |src| >= 13 {
      EqualBlock(src, hashes.For(|src|), Clamped(acceleration), maxOutputSize);
    }
    var a: int := if acceleration < 1 then ACCELERATION_DEFAULT
                  else if acceleration > ACCELERATION_MAX then ACCELERATION_MAX else acceleration;
    var consumed;
    ghost var ss;
    if maxOutputSize >= CompressBound(|src|) {
      result, consumed, ss := CompressGeneric(ctx, src, dst, 0, NotLimited, hashes, a);
      if result > 0 {
        WrittenWhole(src, hashes.For(|src|), a, NotLimited, CompressBound(|src|), dst[..result], consumed, ss);
      }
    } else {
      result, consumed, ss := CompressGeneric(ctx, src, dst, maxOutputSize, LimitedOutput, hashes, a);
      if result > 0 {
        WrittenWhole(src, hashes.For(|src|), a, LimitedOutput, maxOutputSize, dst[..result], consumed, ss);
      }
    }
  }

  method CompressDefault(src: seq<byte>, dst: array<byte>, dstCapacity: int, hashes: Hashes) returns (result: nat)
    requires hashes.Valid() && dstCapacity <= dst.Length
    modifies dst
    ensures result > 0 ==> result <= dstCapacity && result <= CompressBound(|src|)
    ensures result > 0 ==> Compressed(src, dst[..result], |src|) && WithinBound(result, |src|)
    ensures |src| <= MAX_INPUT_SIZE && CompressBound(|src|) <= dstCapacity ==> result > 0
    ensures |src| > MAX_INPUT_SIZE ==> result == 0
    ensures var hs := if |src| < 65547 then Hashing(ByU16, hashes.hash4) else Hashing(ByU32, hashes.hash5);
      && (|src| <= MAX_INPUT_SIZE ==>
           (result > 0 <==> dstCapacity >= CompressBound(|src|) || AllFit(src, Greedy(src, hs, 1), dstCapacity)))
      && (result > 0 ==> dst[..result] == GreedyBlock(src, hs, 1))
    ensures 13 <= |src| <= MAX_INPUT_SIZE && AllEqual(src) ==>
      result == if EqualSize(|src|) <= dstCapacity then EqualSize(|src|) else 0
    ensures forall i :: 0 <= i < dst.Length && dstCapacity <= i ==> dst[i] == old(dst[i])
  {
    var ctx := new Stream();
    result := CompressFastExtState(ctx, src, dst, dstCapacity, 1, hashes);
  }

  /** LZ4_compress_destSize: all of the input, or so much that at most one byte of the target size is
      left over. */
  method CompressDestSize(src: seq<byte>, dst: array<byte>, targetDstSize: int, acceleration: nat, hashes: Hashes)
    returns (result: nat, consumed: nat, ghost ss: seq<Sequence>)
    requires hashes.Valid() && targetDstSize <= dst.Length && acceleration >= 1
    modifies dst
    ensures result == 0 <==> targetDstSize < 1 || |src| > MAX_INPUT_SIZE
    ensures result > 0 ==> result <= targetDstSize && consumed <= |src|
    ensures result > 0 ==> Compressed(src, dst[..result], consumed)
    ensures CompressBound(|src|) <= targetDstSize && result > 0 ==> consumed == |src|
    ensures result > 0 && consumed < |src| ==> targetDstSize - 1 <= result
    ensures result > 0 ==> WithinBound(result, consumed)
    ensures result > 0 ==>
      if targetDstSize >= CompressBound(|src|)
      then dst[..result] == GreedyBlock(src, hashes.For(|src|), Clamped(acceleration))
      else Written(src, hashes.For(|src|), acceleration, FillOutput, targetDstSize, dst[..result], consumed, ss)
    ensures forall i :: 0 <= i < dst.Length && targetDstSize <= i ==> dst[i] == old(dst[i])
  {
    hide Decode, LegalBlock, Greedy, AllFit, Written, GreedyBlock;
    ss := [];
    var ctx := new Stream();
    if targetDstSize >= CompressBound(|src|) {
      consumed := |src|;
      result := CompressFastExtState(ctx, src, dst, targetDstSize, acceleration, hashes);
    } else {
      result, consumed, ss := CompressGeneric(ctx, src, dst, targetDstSize, FillOutput, hashes, acceleration);
    }
  }

  /** LZ4_decompress_safe: whatever it accepts is what the input means; whatever is a legal
      block that fits, it accepts. */
  method DecompressSafe(src: seq<byte>, dst: array<byte>, maxDecompressedSize: int) returns (r: int)
    requires maxDecompressedSize <= dst.Length
    modifies dst
    ensures r < 0 || r <= maxDecompressedSize
    ensures r >= 0 ==> Decode(src) == Good(dst[..r])
    ensures maxDecompressedSize == 0 ==> (r >= 0 <==> src == [0])
    ensures LegalBlock(src) && |Decode(src).bytes| <= maxDecompressedSize && (maxDecompressedSize > 0 || src == [0])
      ==> r == |Decode(src).bytes|
    ensures forall i :: 0 <= i < dst.Length && maxDecompressedSize <= i ==> dst[i] == old(dst[i])
  {
    hide Run, Legal;
    ghost var g := Goal(Decode(src), LegalBlock(src), true);
    r := DecompressGeneric(src, dst, maxDecompressedSize, false, g);
    if maxDecompressedSize == 0 && r == 0 {
      EmptyBlock();
      assert dst[..0] == [];
    }
  }

  /** Blocks that stand for nothing: one token without literals. Only [0] among them is accepted
      into an empty buffer. */
  lemma EmptyBlocks(src: seq<byte>)
    ensures LegalBlock(src) && Decode(src) == Good([]) <==> |src| == 1 && src[0] < 16
  {
    ParseInInput(src, 0);
    var p := Parse(src, 0);
    if LegalBlock(src) && Decode(src) == Good([]) {
      assert p.Final? && p.litLen == 0;
    }
    if |src| == 1 && src[0] < 16 {
      assert p == Final(1, 0);
    }
  }

  lemma EmptyBlockRefused()
    ensures LegalBlock([1]) && Decode([1]) == Good([]) && [1] != [0 as byte]
  {
    EmptyBlocks([1]);
  }

  /** LZ4_decompress_safe_partial: of a legal block, exactly the prefix that was asked for and
      fits. */
  method DecompressSafePartial(src: seq<byte>, dst: array<byte>, targetOutputSize: int, dstCapacity: int)
    returns (r: int)
    requires dstCapacity <= dst.Length
    modifies dst
    ensures var cap := if targetOutputSize < dstCapacity then targetOutputSize else dstCapacity;
      && (r < 0 || r <= cap)
      && (LegalBlock(src) && cap >= 0 ==>
           var full := Decode(src).bytes;
           && r == (if |full| < cap then |full| else cap)
           && dst[..r] == full[..r])
      && (forall i :: 0 <= i < dst.Length && cap <= i ==> dst[i] == old(dst[i]))
  {
    hide Run, Legal;
    var cap := if targetOutputSize < dstCapacity then targetOutputSize else dstCapacity;
    r := DecompressGeneric(src, dst, cap, true, Goal(Decode(src), LegalBlock(src), false));
  }

  /** The codec's law: whatever is compressed, at any acceleration and with any hash functions, the
      optimised decoder, the reference decoder and the partial decoder give back, the last one up
      to the size it is asked for. */
  method CompressThenDecompress(src: seq<byte>, acceleration: int, target: nat, hashes: Hashes)
    returns (decoded: int, safe: array<byte>, reference: array<byte>, partial: seq<byte>)
    requires hashes.Valid() && |src| <= MAX_INPUT_SIZE
    ensures decoded == |src| && safe[..] == src && reference[..] == src
    ensures partial == if target < |src| then src[..target] else src
  {
    hide Decode, LegalBlock;
    var ctx := new Stream();
    var dst := new byte[CompressBound(|src|)];
    var size := CompressFastExtState(ctx, src, dst, dst.Length, acceleration, hashes);
    var block := dst[..size];
    safe := new byte[|src|];
    decoded := DecompressSafe(block, safe, |src|);
    assert safe[..] == safe[..|src|];
    reference := new byte[|src|];
    LegalIsWellFormed(block);
    var r := DecompressUnsafeGeneric(block, reference, |src|);
    assert reference[..] == reference[..|src|];
    var part := new byte[|src|];
    r := DecompressSafePartial(block, part, target, |src|);
    partial := part[..r];
  }

  /** The optimised and the plain decoder on any legal block, at any capacity that holds it (save for
      the empty buffer, into which only [0] is decoded). */
  method DecodersAgree(block: seq<byte>, capacity: nat)
    returns (size: int, consumed: int, safe: array<byte>, reference: array<byte>)
    requires LegalBlock(block) && |Decode(block).bytes| <= capacity
    ensures safe.Length == capacity && consumed == |block| && reference[..] == Decode(block).bytes
    ensures capacity > 0 || block == [0] ==> 0 <= size <= capacity && safe[..size] == reference[..]
    ensures capacity == 0 && block != [0] ==> size < 0
  {
    LegalIsWellFormed(block);
    assert Decode(block).Good?;
    hide Decode, LegalBlock;
    safe := new byte[capacity];
    size := DecompressSafe(block, safe, capacity);
    var n := |Decode(block).bytes|;
    reference := new byte[n];
    consumed := DecompressUnsafeGeneric(block, reference, n);
    assert reference[..] == reference[..n];
  }

  /** Input to as much output as is allowed, and back: what is left out of the input would have made
      the output too long, so at least about as many bytes are consumed as there is room for. */
  method FillThenDecompress(src: seq<byte>, targetDstSize: nat, hashes: Hashes)
    returns (consumed: nat, back: array<byte>)
    requires hashes.Valid() && 1 <= targetDstSize && 0 < |src| <= MAX_INPUT_SIZE
    ensures consumed <= |src| && back[..] == src[..consumed]
    ensures CompressBound(|src|) <= targetDstSize ==> consumed == |src|
    ensures consumed < |src| ==> WithinBound(targetDstSize - 1, consumed)
  {
    hide Decode, LegalBlock;
    var dst := new byte[targetDstSize];
    var size;
    ghost var ss;
    size, consumed, ss := CompressDestSize(src, dst, targetDstSize, 1, hashes);
    back := new byte[consumed];
    if consumed > 0 {
      var r := DecompressSafe(dst[..size], back, consumed);
      assert back[..] == back[..consumed];
    }
  }
}
