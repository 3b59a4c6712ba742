/** store_save_compressed and store_load_compressed: a file is two 32-bit little-endian sizes and
    one LZ4 block. */
module Lz4Store {
  import opened Lz4Format
  import opened Lz4Compress
  import opened Lz4Greedy
  import opened Lz4Api

  const MAX_FILE_SIZE := 524288000

  datatype Loaded = Rejected | Text(bytes: seq<byte>)

  function LE32(v: nat): (r: seq<byte>)
    ensures |r| == 4
  {
    [v % 256, v / 256 % 256, v / 65536 % 256, v / 16777216 % 256]
  }

  function ReadLE32(s: seq<byte>, at: nat): nat
    requires at + 4 <= |s|
  {
    var a: int, b: int, c: int, d: int := s[at], s[at + 1], s[at + 2], s[at + 3];
    a + 256 * b + 65536 * c + 16777216 * d
  }

  lemma LE32RoundTrip(v: nat, before: seq<byte>, after: seq<byte>)
    requires v < 0x1_0000_0000
    ensures ReadLE32(before + LE32(v) + after, |before|) == v
  {
    var s := before + LE32(v) + after;
    var n := |before|;
    assert s[n] == v % 256 && s[n + 1] == v / 256 % 256;
    assert s[n + 2] == v / 65536 % 256 && s[n + 3] == v / 16777216 % 256;
    assert v / 256 / 256 == v / 65536 && v / 65536 / 256 == v / 16777216;
  }

  /** The low byte comes first. */
  lemma LowByteFirst()
    ensures LE32(0x04030201) == [1, 2, 3, 4] && ReadLE32([1, 2, 3, 4], 0) == 0x04030201
  {
    var v: nat := 0x04030201;
    assert v % 256 == 1 && v / 256 % 256 == 2 && v / 65536 % 256 == 3 && v / 16777216 % 256 == 4;
  }

  /** The (int) cast of a size. */
  function IntOf(n: nat): int {
    var low := n % 0x1_0000_0000;
    if low < 0x8000_0000 then low else low - 0x1_0000_0000
  }

  /** What the saved file holds: the bytes left by the size cast. */
  function Kept(raw: seq<byte>): seq<byte> {
    raw[..|raw| % 0x1_0000_0000]
  }

  ghost predicate IsSaved(file: seq<byte>, raw: seq<byte>, block: seq<byte>) {
    && file == LE32(|raw| % 0x1_0000_0000) + LE32(|block|) + block
    && 0 < |block| <= CompressBound(|Kept(raw)|)
    && Compressed(Kept(raw), block, |Kept(raw)|)
  }

  lemma CastSize(raw: seq<byte>)
    ensures |Kept(raw)| == |raw| % 0x1_0000_0000 < 0x1_0000_0000
    ensures 0 <= IntOf(|raw|) <= MAX_INPUT_SIZE <==> |Kept(raw)| <= MAX_INPUT_SIZE
    ensures |Kept(raw)| <= MAX_INPUT_SIZE ==> IntOf(|raw|) == |Kept(raw)|
    ensures |raw| < 0x1_0000_0000 <==> Kept(raw) == raw
  {
  }

  /** A text of 4 GB and one byte: the cast leaves one byte, which is saved without complaint. */
  lemma CastLosesText(b: byte)
    ensures var raw := seq(0x1_0000_0001, _ => b);
      |Kept(raw)| == 1 && Kept(raw) != raw && 0 < IntOf(|raw|) <= MAX_INPUT_SIZE
  {
    CastSize(seq(0x1_0000_0001, _ => b));
  }

  /** Fails on empty input and on a cast size beyond LZ4_MAX_INPUT_SIZE. */
  method SaveCompressed(raw: seq<byte>, hashes: Hashes) returns (ok: bool, file: seq<byte>, ghost block: seq<byte>)
    requires hashes.Valid()
    ensures ok <==> |raw| > 0 && |Kept(raw)| <= MAX_INPUT_SIZE
    ensures ok ==> IsSaved(file, raw, block)
    ensures ok && 13 <= |raw| <= MAX_INPUT_SIZE && AllEqual(raw) ==> |file| == 8 + EqualSize(|raw|)
  {
    hide Compressed, Kept, IntOf, LE32, AllEqual;
    CastSize(raw);
    file, block := [], [];
    if |raw| == 0 {
      return false, file, block;
    }
    var size := IntOf(|raw|);
    if size < 0 || size > MAX_INPUT_SIZE {
      return false, file, block;
    }
    var maxDstSize := CompressBound(size);
    var buf := new byte[maxDstSize];
    var compressedSize := CompressDefault(Kept(raw), buf, maxDstSize, hashes);
    if compressedSize <= 0 {
      return false, file, block;
    }
    block := buf[..compressedSize];
    file := LE32(|raw| % 0x1_0000_0000) + LE32(compressedSize) + buf[..compressedSize];
    return true, file, block;
  }

  /** The header announces sizes within the limit, and the block is all there. */
  predicate HeaderPasses(file: seq<byte>) {
    && |file| >= 8
    && ReadLE32(file, 0) <= MAX_FILE_SIZE && 0 < ReadLE32(file, 4) <= MAX_FILE_SIZE
    && 8 + ReadLE32(file, 4) <= |file|
  }

  function BlockOf(file: seq<byte>): seq<byte>
    requires HeaderPasses(file)
  {
    file[8..8 + ReadLE32(file, 4)]
  }

  /** Rejects short files, sizes over 500 MB and blocks that do not decode. Bytes past the decoded
      ones are whatever the buffer held. */
  method LoadCompressed(file: seq<byte>) returns (r: Loaded)
    ensures r.Text? ==> HeaderPasses(file) && |r.bytes| == ReadLE32(file, 0)
    ensures r.Text? ==> Decode(BlockOf(file)).Good? && Decode(BlockOf(file)).bytes <= r.bytes
    ensures HeaderPasses(file) && LegalBlock(BlockOf(file)) && r.Rejected? ==>
      |Decode(BlockOf(file)).bytes| > ReadLE32(file, 0) || (ReadLE32(file, 0) == 0 && BlockOf(file) != [0])
  {
    hide Decode, LegalBlock, ReadLE32;
    if |file| < 8 {
      return Rejected;
    }
    var rawSize, compressedSize := ReadLE32(file, 0), ReadLE32(file, 4);
    if rawSize > MAX_FILE_SIZE || compressedSize > MAX_FILE_SIZE || compressedSize == 0 {
      return Rejected;
    }
    var rawBuf := new byte[rawSize + 1];
    if 8 + compressedSize > |file| {
      return Rejected;
    }
    var result := DecompressSafe(BlockOf(file), rawBuf, rawSize);
    if result < 0 {
      return Rejected;
    }
    rawBuf[rawSize] := 0;
    assert rawBuf[..result] <= rawBuf[..rawSize];
    return Text(rawBuf[..rawSize]);
  }

  /** Saving and loading gives the text back exactly when both header sizes pass the 500 MB test
      and nothing was lost in the size cast. */
  method SaveThenLoad(raw: seq<byte>, hashes: Hashes) returns (saved: bool, r: Loaded, ghost block: seq<byte>)
    requires hashes.Valid()
    ensures saved <==> |raw| > 0 && |Kept(raw)| <= MAX_INPUT_SIZE
    ensures saved ==> 0 < |block| <= CompressBound(|Kept(raw)|)
    ensures saved ==> (r == Text(raw) <==> |raw| <= 524288000 && |block| <= 524288000)
  {
    hide Kept, LE32, ReadLE32, Decode, LegalBlock;
    CastSize(raw);
    var file;
    saved, file, block := SaveCompressed(raw, hashes);
    if !saved {
      return saved, Rejected, block;
    }
    r := LoadCompressed(file);
    Framing(|Kept(raw)|, block);
  }

  lemma Framing(size: nat, block: seq<byte>)
    requires size < 0x1_0000_0000 && |block| < 0x1_0000_0000
    ensures var file := LE32(size) + LE32(|block|) + block;
      ReadLE32(file, 0) == size && ReadLE32(file, 4) == |block| && file[8..8 + |block|] == block
  {
    var file := LE32(size) + LE32(|block|) + block;
    assert file == [] + LE32(size) + (LE32(|block|) + block);
    LE32RoundTrip(size, [], LE32(|block|) + block);
    LE32RoundTrip(|block|, LE32(size), block);
  }
}
