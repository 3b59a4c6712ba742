/** The bucket of an event in the duplicate filter: FNV-1a over the node id and the memory of the
    clock structure. */
module ClockHash {
  import opened Bits
  import opened VectorClock

  const BUCKETS := 65536
  const FNV_OFFSET := 2166136261
  const FNV_PRIME := 16777619
  const UINT32 := 0x1_0000_0000

  /** The memory of a clock structure: the node count, the padding up to the first word, and all
      32 words, used or not. */
  datatype Raw = Raw(nodeCount: nat, padding: nat, words: seq<nat>) {
    ghost predicate Valid() {
      |words| == MAX_NODES && nodeCount <= MAX_NODES
    }

    function Clock(): Clock
      requires Valid()
    {
      words[..nodeCount]
    }
  }

  /** The low `n` bytes, least significant first. */
  function LittleEndian(v: nat, n: nat): seq<byte> {
    if n == 0 then [] else [v % 256] + LittleEndian(v / 256, n - 1)
  }

  function WordBytes(words: seq<nat>): seq<byte> {
    if words == [] then [] else LittleEndian(words[0], 8) + WordBytes(words[1..])
  }

  function Memory(vc: Raw): seq<byte> {
    LittleEndian(vc.nodeCount, 4) + (LittleEndian(vc.padding, 4) + WordBytes(vc.words))
  }

  function StringBytes(s: string): seq<byte> {
    if s == "" then [] else [s[0] as int % 256] + StringBytes(s[1..])
  }

  /** One byte of FNV-1a, in 32 bits. */
  function Step(h: nat, b: byte): nat {
    Xor(h, b) * FNV_PRIME % UINT32
  }

  function Fold(h: nat, bytes: seq<byte>): nat
    decreases |bytes|
  {
    if bytes == [] then h else Fold(Step(h, bytes[0]), bytes[1..])
  }

  function Bucket(nodeId: string, vc: Raw): (b: nat)
    ensures b < BUCKETS
  {
    Fold(Fold(FNV_OFFSET, StringBytes(nodeId)), Memory(vc)) % BUCKETS
  }

  /** calculate_hash: both loops. */
  method CalculateHash(nodeId: string, vc: Raw) returns (idx: nat)
    ensures idx == Bucket(nodeId, vc)
  {
    hide Step, Memory;
    var hash: nat := FNV_OFFSET;
    var p := 0;
    assert nodeId[0..] == nodeId;
    while p < |nodeId|
      invariant 0 <= p <= |nodeId|
      invariant Fold(FNV_OFFSET, StringBytes(nodeId)) == Fold(hash, StringBytes(nodeId[p..]))
    {
      assert StringBytes(nodeId[p..]) == [nodeId[p] as int % 256] + StringBytes(nodeId[p + 1..]) by {
        assert nodeId[p..][1..] == nodeId[p + 1..];
      }
      hash := Step(hash, nodeId[p] as int % 256);
      p := p + 1;
    }
    var bytes := Memory(vc);
    assert bytes[0..] == bytes;
    ghost var start := hash;
    for i := 0 to |bytes|
      invariant Fold(start, bytes) == Fold(hash, bytes[i..])
    {
      assert bytes[i..][1..] == bytes[i + 1..];
      hash := Step(hash, bytes[i]);
    }
    return hash % BUCKETS;
  }

  // ---------------------------------------------------------------- one byte decides

  /** The bucket part of a step depends on the bucket part of the state only. */
  lemma StepLow(h: nat, b: byte)
    ensures Xor(h % BUCKETS, b) < BUCKETS
    ensures Step(h, b) % BUCKETS == Xor(h % BUCKETS, b) * 403 % BUCKETS
  {
    hide Xor;
    assert Pow2(16) == BUCKETS by {
      assert Pow2(4) == 16 && Pow2(8) == 256 by { assert Pow2(6) == 64; }
      assert Pow2(12) == 4096 by { assert Pow2(10) == 1024; }
      assert Pow2(14) == 16384;
    }
    hide Pow2;
    XorSplit(h % BUCKETS, b, 16, h / BUCKETS, 0);
    LowProduct(Xor(h % BUCKETS, b), Xor(h / BUCKETS, 0));
  }

  lemma LowProduct(u: nat, v: nat)
    ensures (u + BUCKETS * v) * FNV_PRIME % UINT32 % BUCKETS == u * 403 % BUCKETS
  {
    var n := (u + BUCKETS * v) * FNV_PRIME;
    Shifted(u * 403, 256 * u + FNV_PRIME * v);
    Shifted(n % UINT32, BUCKETS * (n / UINT32));
  }

  lemma Shifted(x: int, k: int)
    ensures (x + BUCKETS * k) % BUCKETS == x % BUCKETS
  {
  }

  /** 403 is odd: multiplication by it loses nothing. */
  lemma OddFactor(u: nat, w: nat)
    requires u < BUCKETS && w < BUCKETS && u * 403 % BUCKETS == w * 403 % BUCKETS
    ensures u == w
  {
    var q := u * 403 / BUCKETS - w * 403 / BUCKETS;
    assert u * 403 - w * 403 == BUCKETS * q;
    assert (u - w) * 7077889 == BUCKETS * q * 17563;
    assert u - w == BUCKETS * (q * 17563 - 108 * (u - w));
  }

  /** Equal buckets after a step come from equal inputs to it. */
  lemma StepInjective(g: nat, h: nat, b: byte, c: byte)
    requires Step(g, b) % BUCKETS == Step(h, c) % BUCKETS
    ensures Xor(g % BUCKETS, b) == Xor(h % BUCKETS, c)
  {
    hide Xor, Step;
    StepLow(g, b);
    StepLow(h, c);
    OddFactor(Xor(g % BUCKETS, b), Xor(h % BUCKETS, c));
  }

  lemma {:induction false} FoldConcat(h: nat, s: seq<byte>, t: seq<byte>)
    ensures Fold(h, s + t) == Fold(Fold(h, s), t)
    decreases |s|
  {
    hide Step;
    if s == [] {
      assert s + t == t;
    } else {
      assert (s + t)[1..] == s[1..] + t;
      FoldConcat(Step(h, s[0]), s[1..], t);
    }
  }

  /** The same bytes keep different buckets apart. */
  lemma {:induction false} FoldKeepsApart(g: nat, h: nat, s: seq<byte>)
    requires g % BUCKETS != h % BUCKETS
    ensures Fold(g, s) % BUCKETS != Fold(h, s) % BUCKETS
    decreases |s|
  {
    hide Step, Xor;
    if s != [] {
      XorCancels(g % BUCKETS, s[0]);
      XorCancels(h % BUCKETS, s[0]);
      if Step(g, s[0]) % BUCKETS == Step(h, s[0]) % BUCKETS {
        StepInjective(g, h, s[0], s[0]);
      }
      FoldKeepsApart(Step(g, s[0]), Step(h, s[0]), s[1..]);
    }
  }

  /** Two strings of bytes that differ in exactly one byte never share a bucket. */
  lemma OneByteApart(h: nat, p: seq<byte>, b: byte, c: byte, q: seq<byte>)
    requires b != c
    ensures Fold(h, p + ([b] + q)) % BUCKETS != Fold(h, p + ([c] + q)) % BUCKETS
  {
    hide Step, Xor, Fold;
    var g := Fold(h, p);
    FoldConcat(h, p, [b] + q);
    FoldConcat(h, p, [c] + q);
    FoldHead(g, b, q);
    FoldHead(g, c, q);
    XorCommutes(g % BUCKETS, b);
    XorCommutes(g % BUCKETS, c);
    XorCancels(b, g % BUCKETS);
    XorCancels(c, g % BUCKETS);
    if Step(g, b) % BUCKETS == Step(g, c) % BUCKETS {
      StepInjective(g, g, b, c);
    }
    FoldKeepsApart(Step(g, b), Step(g, c), q);
  }

  lemma FoldHead(h: nat, b: byte, q: seq<byte>)
    ensures Fold(h, [b] + q) == Fold(Step(h, b), q)
  {
    hide Step;
    assert ([b] + q)[1..] == q;
  }

  /** The node count is enough to change the bucket, whatever the node id and the words. */
  lemma NodeCountDecides(nodeId: string, n: nat, m: nat, padding: nat, words: seq<nat>)
    requires n < 256 && m < 256 && n != m
    ensures Bucket(nodeId, Raw(n, padding, words)) != Bucket(nodeId, Raw(m, padding, words))
  {
    hide Fold, WordBytes;
    var rest := LittleEndian(padding, 4) + WordBytes(words);
    CountBytes(n, rest);
    CountBytes(m, rest);
    OneByteApart(Fold(FNV_OFFSET, StringBytes(nodeId)), [], n, m, LittleEndian(0, 3) + rest);
  }

  lemma CountBytes(n: nat, rest: seq<byte>)
    requires n < 256
    ensures LittleEndian(n, 4) + rest == [] + ([n as byte] + (LittleEndian(0, 3) + rest))
  {
    assert LittleEndian(n, 4) == [n as byte] + LittleEndian(0, 3);
  }

  // ---------------------------------------------------------------- what is hashed

  /** The published value of 32-bit FNV-1a for the one-letter string "a". */
  lemma FnvOfA()
    ensures Fold(FNV_OFFSET, StringBytes("a")) == 0xE40C292C
  {
    hide Xor, StringBytes, Step, Fold;
    StepOfA();
    BytesOfA();
    FoldHead(FNV_OFFSET, 97, []);
    FoldNone(Step(FNV_OFFSET, 97));
    assert [97 as byte] + [] == [97];
  }

  lemma StepOfA()
    ensures Step(FNV_OFFSET, 97) == 0xE40C292C
  {
    XorOfA();
    hide Xor;
  }

  lemma BytesOfA()
    ensures StringBytes("a") == [97]
  {
    assert "a"[1..] == "";
  }

  lemma FoldNone(h: nat)
    ensures Fold(h, []) == h
  {
  }

  lemma XorOfA()
    ensures Xor(2166136261, 97) == 0x811C9DA4
  {
    hide Xor;
    XorStep(2166136261, 97);
    XorStep(1083068130, 48);
    XorStep(541534065, 24);
    XorStep(270767032, 12);
    XorStep(135383516, 6);
    XorStep(67691758, 3);
    XorStep(33845879, 1);
    XorNone(16922939);
  }

  lemma {:induction false} XorNone(a: nat)
    ensures Xor(a, 0) == a
    decreases a
  {
    if a != 0 {
      XorNone(a / 2);
    }
  }

  /** The number whose bytes these are, least significant first. */
  function LittleValue(bytes: seq<byte>): nat {
    if bytes == [] then 0 else bytes[0] + 256 * LittleValue(bytes[1..])
  }

  function Pow256(n: nat): nat {
    if n == 0 then 1 else 256 * Pow256(n - 1)
  }

  lemma {:induction false} LittleEndianIs(v: nat, n: nat)
    ensures |LittleEndian(v, n)| == n
    ensures v < Pow256(n) ==> LittleValue(LittleEndian(v, n)) == v
    decreases n
  {
    if n > 0 {
      LittleEndianIs(v / 256, n - 1);
      assert LittleEndian(v, n)[1..] == LittleEndian(v / 256, n - 1);
    }
  }

  lemma {:induction false} WordBytesAt(words: seq<nat>, i: nat)
    requires i < |words|
    ensures |WordBytes(words)| == 8 * |words|
    ensures WordBytes(words)[8 * i..8 * i + 8] == LittleEndian(words[i], 8)
    decreases |words|
  {
    LittleEndianIs(words[0], 8);
    var rest := WordBytes(words[1..]);
    if i > 0 {
      WordBytesAt(words[1..], i - 1);
      assert WordBytes(words)[8 * i..8 * i + 8] == rest[8 * (i - 1)..8 * (i - 1) + 8];
    } else {
      WordBytesSize(words[1..]);
      assert WordBytes(words)[..8] == LittleEndian(words[0], 8);
    }
  }

  lemma {:induction false} WordBytesSize(words: seq<nat>)
    ensures |WordBytes(words)| == 8 * |words|
    decreases |words|
  {
    if words != [] {
      LittleEndianIs(words[0], 8);
      WordBytesSize(words[1..]);
    }
  }

  /** The memory that is hashed: 264 bytes, the node count in the first four, every word in eight of
      its own. */
  lemma MemoryIs(vc: Raw, i: nat)
    requires vc.Valid() && i < MAX_NODES
    ensures |Memory(vc)| == 264
    ensures LittleValue(Memory(vc)[..4]) == vc.nodeCount
    ensures vc.words[i] < WORD ==> LittleValue(Memory(vc)[8 + 8 * i..16 + 8 * i]) == vc.words[i]
  {
    hide WordBytes, LittleEndian, LittleValue;
    LittleEndianIs(vc.nodeCount, 4);
    LittleEndianIs(vc.padding, 4);
    LittleEndianIs(vc.words[i], 8);
    WordBytesAt(vc.words, i);
    PowersOf256();
    hide Pow256;
    var m, w := Memory(vc), WordBytes(vc.words);
    assert m[..4] == LittleEndian(vc.nodeCount, 4);
    assert m[8 + 8 * i..16 + 8 * i] == w[8 * i..8 * i + 8];
  }

  lemma PowersOf256()
    ensures Pow256(4) == 0x1_0000_0000 && Pow256(8) == 0x1_0000_0000_0000_0000
  {
    assert Pow256(2) == 65536;
    assert Pow256(6) == 65536 * Pow256(4);
  }
}
