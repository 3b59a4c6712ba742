/** LZ4_count: how many bytes two positions of the input have in common, eight at a time. */
module Lz4Count {
  import opened Bits
  import opened Lz4Format

  /** The specification: the longest common run, cut at `limit`. */
  function Common(src: seq<byte>, p: nat, m: nat, limit: nat): (k: nat)
    requires m <= p && limit <= |src|
    ensures p + k <= limit || k == 0
    decreases limit - p
  {
    if p < limit && src[p] == src[m] then 1 + Common(src, p + 1, m + 1, limit) else 0
  }

  /** The `k` bytes at `p` equal the `k` bytes at `m`. */
  ghost predicate Agree(src: seq<byte>, p: nat, m: nat, k: nat)
    requires m <= p
  {
    p + k <= |src| && forall i :: p <= i < p + k ==> src[i] == src[i - (p - m)]
  }

  lemma {:induction false} CommonIsLongest(src: seq<byte>, p: nat, m: nat, limit: nat)
    requires m <= p <= limit <= |src|
    ensures var k := Common(src, p, m, limit);
      && p + k <= limit && Agree(src, p, m, k)
      && (p + k < limit ==> src[p + k] != src[m + k])
    decreases limit - p
  {
    if p < limit && src[p] == src[m] {
      CommonIsLongest(src, p + 1, m + 1, limit);
    }
  }

  /** A run known to be common can be taken off the front. */
  lemma {:induction false} CommonSkip(src: seq<byte>, p: nat, m: nat, limit: nat, k: nat)
    requires m <= p && p + k <= limit <= |src| && Agree(src, p, m, k)
    ensures Common(src, p, m, limit) == k + Common(src, p + k, m + k, limit)
    decreases k
  {
    if k > 0 {
      assert src[p] == src[p - (p - m)];
      CommonSkip(src, p + 1, m + 1, limit, k - 1);
    }
  }

  // ---------------------------------------------------------------- words

  /** The `n`-byte little-endian word at `p`. */
  function Word(src: seq<byte>, p: nat, n: nat): nat
    requires p + n <= |src|
    decreases n
  {
    if n == 0 then 0 else src[p] + 256 * Word(src, p + 1, n - 1)
  }

  /** Number of trailing zero bits. */
  function Ctz(v: nat): nat
    requires v > 0
  {
    if v % 2 == 1 then 0 else 1 + Ctz(v / 2)
  }

  /** LZ4_NbCommonBytes on a little-endian machine. */
  function NbCommonBytes(diff: nat): nat
    requires diff > 0
  {
    Ctz(diff) / 8
  }

  lemma {:induction false} CtzShift(k: nat, v: nat)
    requires v > 0
    ensures Pow2(k) * v > 0 && Ctz(Pow2(k) * v) == k + Ctz(v)
    decreases k
  {
    hide Ctz;
    if k == 0 {
      assert Pow2(0) * v == v;
    } else {
      CtzShift(k - 1, v);
      Doubled(k, v);
      CtzHalf(Pow2(k - 1) * v);
    }
  }

  lemma CtzHalf(v: nat)
    requires v > 0
    ensures Ctz(2 * v) == 1 + Ctz(v)
  {
  }

  lemma CtzStep(u: nat, v: nat, k: nat)
    requires k > 0
    requires u % 2 == v % 2 ==> Xor(u / 2, v / 2) > 0 && Ctz(Xor(u / 2, v / 2)) < k - 1
    ensures Xor(u, v) > 0 && Ctz(Xor(u, v)) < k
  {
    hide Xor;
    XorStep(u, v);
    assert u % 2 == v % 2 ==> Xor(u, v) / 2 == Xor(u / 2, v / 2);
  }

  /** Different low bits put the first difference among them. */
  lemma {:induction false} CtzDiffer(x: nat, y: nat, k: nat, a: nat, b: nat)
    requires x < Pow2(k) && y < Pow2(k) && x != y
    ensures var d := Xor(x + Pow2(k) * a, y + Pow2(k) * b);
      d > 0 && Ctz(d) < k
    decreases k
  {
    hide Xor, Ctz;
    Halves(x, k, a);
    Halves(y, k, b);
    if x % 2 == y % 2 {
      CtzDiffer(x / 2, y / 2, k - 1, a, b);
    }
    CtzStep(x + Pow2(k) * a, y + Pow2(k) * b, k);
  }

  /** One byte more at the bottom of two words. */
  lemma ByteStep(x: byte, y: byte, a: nat, b: nat)
    requires x != y || a != b
    ensures var d := Xor(x + 256 * a, y + 256 * b);
      && d > 0
      && (x != y ==> NbCommonBytes(d) == 0)
      && (x == y ==> Xor(a, b) > 0 && NbCommonBytes(d) == 1 + NbCommonBytes(Xor(a, b)))
  {
    hide Xor, Ctz;
    assert Pow2(8) == 256 by { assert Pow2(3) == 8; assert Pow2(6) == 64; }
    hide Pow2;
    if x == y {
      XorZero(a, b);
      XorZero(x, y);
      XorSplit(x, y, 8, a, b);
      CtzShift(8, Xor(a, b));
    } else {
      CtzDiffer(x, y, 8, a, b);
    }
  }

  /** The first differing byte of two words is found from the lowest set bit of their
      exclusive or. */
  lemma {:induction false} FirstDifference(src: seq<byte>, p: nat, m: nat, n: nat)
    requires m <= p && p + n <= |src| && Word(src, p, n) != Word(src, m, n)
    ensures var d := Xor(Word(src, m, n), Word(src, p, n));
      && d > 0 && NbCommonBytes(d) < n
      && Agree(src, p, m, NbCommonBytes(d))
      && src[p + NbCommonBytes(d)] != src[m + NbCommonBytes(d)]
    decreases n
  {
    hide Xor, NbCommonBytes;
    var a, b := Word(src, m + 1, n - 1), Word(src, p + 1, n - 1);
    ByteStep(src[m], src[p], a, b);
    if src[m] == src[p] {
      FirstDifference(src, p + 1, m + 1, n - 1);
    }
  }

  lemma SameWordStep(x: byte, y: byte, a: nat, b: nat)
    ensures x + 256 * a == y + 256 * b <==> x == y && a == b
  {
  }

  lemma {:induction false} SameWord(src: seq<byte>, p: nat, m: nat, n: nat)
    requires m <= p && p + n <= |src|
    ensures Word(src, p, n) == Word(src, m, n) <==> Agree(src, p, m, n)
    decreases n
  {
    if n > 0 {
      SameWord(src, p + 1, m + 1, n - 1);
      SameWordStep(src[p], src[m], Word(src, p + 1, n - 1), Word(src, m + 1, n - 1));
      assert Agree(src, p, m, n) <==> src[p] == src[p - (p - m)] && Agree(src, p + 1, m + 1, n - 1);
    }
  }

  /** Counting stops inside a word that differs. */
  lemma StopsInWord(src: seq<byte>, p: nat, m: nat, limit: nat, n: nat)
    requires m <= p && p + n <= limit <= |src| && Word(src, p, n) != Word(src, m, n)
    ensures Xor(Word(src, m, n), Word(src, p, n)) > 0
    ensures Common(src, p, m, limit) == NbCommonBytes(Xor(Word(src, m, n), Word(src, p, n)))
  {
    FirstDifference(src, p, m, n);
    CommonSkip(src, p, m, limit, NbCommonBytes(Xor(Word(src, m, n), Word(src, p, n))));
  }

  /** Comparing one word. */
  lemma OneWord(src: seq<byte>, p: nat, m: nat, limit: nat, n: nat)
    requires m <= p && p + n <= limit <= |src|
    ensures Word(src, p, n) == Word(src, m, n) ==>
      Common(src, p, m, limit) == n + Common(src, p + n, m + n, limit)
    ensures Word(src, p, n) != Word(src, m, n) ==> Common(src, p, m, limit) < n
  {
    SameWord(src, p, m, n);
    if Word(src, p, n) == Word(src, m, n) {
      CommonSkip(src, p, m, limit, n);
    } else {
      CommonIsLongest(src, p, m, limit);
    }
  }

  lemma CommonFits(src: seq<byte>, p: nat, m: nat, limit: nat)
    requires m <= p <= limit <= |src|
    ensures Common(src, p, m, limit) <= limit - p
    ensures p == limit ==> Common(src, p, m, limit) == 0
  {
  }

  method Count(src: seq<byte>, start: nat, startMatch: nat, limit: nat) returns (k: nat)
    requires startMatch <= start <= limit <= |src|
    ensures k == Common(src, start, startMatch, limit)
  {
    var pIn, pMatch := start, startMatch;
    if pIn < limit - 7 {
      var diff := Xor(Word(src, pMatch, 8), Word(src, pIn, 8));
      XorZero(Word(src, pMatch, 8), Word(src, pIn, 8));
      OneWord(src, pIn, pMatch, limit, 8);
      if diff == 0 {
        pIn, pMatch := pIn + 8, pMatch + 8;
      } else {
        StopsInWord(src, pIn, pMatch, limit, 8);
        return NbCommonBytes(diff);
      }
    }
    while pIn < limit - 7
      invariant pIn - pMatch == start - startMatch && start <= pIn <= limit
      invariant Common(src, start, startMatch, limit) == pIn - start + Common(src, pIn, pMatch, limit)
      decreases limit - pIn
    {
      var diff := Xor(Word(src, pMatch, 8), Word(src, pIn, 8));
      XorZero(Word(src, pMatch, 8), Word(src, pIn, 8));
      OneWord(src, pIn, pMatch, limit, 8);
      if diff == 0 {
        pIn, pMatch := pIn + 8, pMatch + 8;
        continue;
      }
      StopsInWord(src, pIn, pMatch, limit, 8);
      pIn := pIn + NbCommonBytes(diff);
      return pIn - start;
    }
    k := CountTail(src, pIn, pMatch, limit);
    return pIn - start + k;
  }

  /** Fewer than 8 bytes are left: 4, then 2, then 1. */
  method CountTail(src: seq<byte>, start: nat, startMatch: nat, limit: nat) returns (k: nat)
    requires startMatch <= start <= limit <= |src| && limit < start + 8
    ensures k == Common(src, start, startMatch, limit)
  {
    var pIn, pMatch := start, startMatch;
    CommonFits(src, pIn, pMatch, limit);
    if pIn < limit - 3 {
      OneWord(src, pIn, pMatch, limit, 4);
      if Word(src, pMatch, 4) == Word(src, pIn, 4) {
        pIn, pMatch := pIn + 4, pMatch + 4;
      }
    }
    CommonFits(src, pIn, pMatch, limit);
    assert Common(src, start, startMatch, limit) == pIn - start + Common(src, pIn, pMatch, limit);
    assert Common(src, pIn, pMatch, limit) < 4;
    if pIn < limit - 1 {
      OneWord(src, pIn, pMatch, limit, 2);
      if Word(src, pMatch, 2) == Word(src, pIn, 2) {
        pIn, pMatch := pIn + 2, pMatch + 2;
      }
    }
    CommonFits(src, pIn, pMatch, limit);
    assert Common(src, start, startMatch, limit) == pIn - start + Common(src, pIn, pMatch, limit);
    assert Common(src, pIn, pMatch, limit) < 2;
    if pIn < limit && src[pMatch] == src[pIn] {
      pIn := pIn + 1;
    }
    return pIn - start;
  }
}
