/** The Internet checksum of contiki/tools/tunslip.c: 16-bit addition with
    end-around carry over the big-endian words of a buffer. */
module Checksum {
  import opened Bytes

  const ONES: u16 := 0xFFFF

  function Word(hi: byte, lo: byte): u16 {
    hi * 256 + lo
  }

  function Swap(x: u16): u16 {
    x % 256 * 256 + x / 256
  }

  /** Sum of the big-endian words of `p`; a last odd byte is padded with zero. */
  function WordSum(p: seq<byte>): nat {
    if p == [] then 0
    else if |p| == 1 then Word(p[0], 0)
    else Word(p[0], p[1]) + WordSum(p[2..])
  }

  /** The representative of `n` modulo 65535 that ones' complement addition
      yields: zero for zero, otherwise between 1 and 65535. */
  function Norm(n: nat): u16 {
    if n == 0 then 0 else 1 + (n - 1) % 65535
  }

  /** What `ip4sum` computes. */
  function Sum(s: u16, p: seq<byte>): u16 {
    Norm(s + WordSum(p))
  }

  /** One addition of the loop: wrap at 16 bits, then add the carry back in. */
  method AddWithCarry(sum: u16, t: u16) returns (r: u16)
    ensures r == Norm(sum + t)
  {
    var wrapped := (sum + t) % 0x1_0000;
    if wrapped < t {
      r := wrapped + 1;
    } else {
      r := wrapped;
    }
  }

  method Ip4Sum(start: u16, p: seq<byte>) returns (sum: u16)
    ensures sum == Sum(start, p)
  {
    sum := start;
    var i := 0;
    if start == 0 {
      assert Norm(0) == 0;
    }
    assert Norm(start) == start;
    assert p[0..] == p;
    while i < |p| - 1
      invariant i <= |p|
      invariant Norm(sum + WordSum(p[i..])) == Sum(start, p)
    {
      var t := Word(p[i], p[i + 1]);
      ghost var rest := p[i + 2 ..];
      assert p[i..][2..] == rest;
      NormAdd(sum + t, WordSum(rest));
      sum := AddWithCarry(sum, t);
      i := i + 2;
    }
    if i < |p| {
      sum := AddWithCarry(sum, Word(p[i], 0));
    } else {
      NormOfWord(sum);
    }
  }

  // --------------------------------------------------------------- arithmetic

  lemma NormOfWord(x: u16)
    ensures Norm(x) == x
  {
  }

  lemma NormUnique(x: u16, n: nat)
    requires (x == 0 <==> n == 0) && x % 65535 == n % 65535
    ensures x == Norm(n)
  {
  }

  lemma NormCongruent(n: nat)
    ensures Norm(n) % 65535 == n % 65535
    ensures Norm(n) == 0 <==> n == 0
  {
  }

  lemma SameResidue(a: nat, b: nat, k: int)
    requires a == b + 65535 * k
    ensures a % 65535 == b % 65535
  {
  }

  lemma ModPlus(a: nat, b: nat, c: nat)
    requires a % 65535 == b % 65535
    ensures (a + c) % 65535 == (b + c) % 65535
  {
    SameResidue(a + c, b + c, a / 65535 - b / 65535);
  }

  lemma NormAdd(a: nat, b: nat)
    ensures Norm(Norm(a) + b) == Norm(a + b)
  {
    NormCongruent(a);
    ModPlus(Norm(a), a, b);
    NormCongruent(Norm(a) + b);
    NormUnique(Norm(Norm(a) + b), a + b);
  }

  /** Swapping the bytes of a word multiplies it by 256 modulo 65535. */
  lemma SwapMultiplies(x: u16)
    ensures 256 * x == Swap(x) + 65535 * (x / 256)
    ensures Swap(x) == 0 <==> x == 0
  {
    assert x == x / 256 * 256 + x % 256;
  }

  /** Of two sums, one 256 times the other up to multiples of 65535. */
  lemma NormSwap(n: nat, n': nat, k: int)
    requires 256 * n == n' + 65535 * k && (n' == 0 <==> n == 0)
    ensures Norm(n') == Swap(Norm(n))
  {
    var x := Norm(n);
    SwapMultiplies(x);
    if n > 0 {
      var q := (n - 1) / 65535;
      assert n == x + 65535 * q;
      assert n' == Swap(x) + 65535 * (x / 256 + 256 * q - k);
      SameResidue(n', Swap(x), x / 256 + 256 * q - k);
    }
    NormUnique(Swap(x), n');
  }

  lemma NormSwapFrom(s: u16, n: nat, n': nat, k: int)
    requires 256 * n == n' + 65535 * k && (n' == 0 <==> n == 0)
    ensures Norm(Swap(s) + n') == Swap(Norm(s + n))
  {
    SwapMultiplies(s);
    NormSwap(s + n, Swap(s) + n', k + s / 256);
  }

  // ----------------------------------------------------------- word sums

  lemma {:induction false} WordSumConcat(a: seq<byte>, b: seq<byte>)
    requires |a| % 2 == 0
    ensures WordSum(a + b) == WordSum(a) + WordSum(b)
    decreases |a|
  {
    if a == [] {
      assert a + b == b;
    } else {
      assert (a + b)[2..] == a[2..] + b;
      WordSumConcat(a[2..], b);
    }
  }

  /** Storing a word at an even offset changes the sum by the difference. */
  lemma {:induction false} WordSumStore(p: seq<byte>, i: nat, hi: byte, lo: byte)
    requires i % 2 == 0 && i + 1 < |p|
    ensures WordSum(p[i := hi][i + 1 := lo]) == WordSum(p) - Word(p[i], p[i + 1]) + Word(hi, lo)
    decreases |p|
  {
    var q := p[i := hi][i + 1 := lo];
    if i == 0 {
      assert q[2..] == p[2..];
    } else {
      assert q[2..] == p[2..][i - 2 := hi][i - 1 := lo];
      WordSumStore(p[2..], i - 2, hi, lo);
    }
  }

  lemma {:induction false} WordSumZero(p: seq<byte>)
    ensures WordSum(p) == 0 <==> forall i :: 0 <= i < |p| ==> p[i] == 0
    decreases |p|
  {
    if |p| >= 2 {
      WordSumZero(p[2..]);
      assert forall i :: 2 <= i < |p| ==> p[i] == p[2..][i - 2];
    }
  }

  /** Byte by byte, the other byte order of a buffer of whole words. */
  function SwapBytes(p: seq<byte>): (r: seq<byte>)
    requires |p| % 2 == 0
    ensures |r| == |p|
    decreases |p|
  {
    if p == [] then [] else [p[1], p[0]] + SwapBytes(p[2..])
  }

  lemma {:induction false} WordSumSwapped(p: seq<byte>) returns (k: nat)
    requires |p| % 2 == 0
    ensures 256 * WordSum(p) == WordSum(SwapBytes(p)) + 65535 * k
    ensures WordSum(SwapBytes(p)) == 0 <==> WordSum(p) == 0
    decreases |p|
  {
    k := 0;
    if p != [] {
      assert SwapBytes(p)[2..] == SwapBytes(p[2..]);
      var j := WordSumSwapped(p[2..]);
      k := j + p[0];
    }
  }

  /** The words of a buffer, in order. */
  function Words(p: seq<byte>): seq<u16>
    decreases |p|
  {
    if p == [] then []
    else if |p| == 1 then [Word(p[0], 0)]
    else [Word(p[0], p[1])] + Words(p[2..])
  }

  function Total(ws: seq<u16>): nat {
    if ws == [] then 0 else ws[0] + Total(ws[1..])
  }

  lemma {:induction false} TotalOfWords(p: seq<byte>)
    ensures WordSum(p) == Total(Words(p))
    decreases |p|
  {
    if |p| >= 2 {
      TotalOfWords(p[2..]);
    }
  }

  lemma {:induction false} TotalRemove(b: seq<u16>, k: nat)
    requires k < |b|
    ensures Total(b) == b[k] + Total(b[.. k] + b[k + 1 ..])
    decreases |b|
  {
    if k == 0 {
      assert b[.. 0] + b[1..] == b[1..];
    } else {
      TotalRemove(b[1..], k - 1);
      assert (b[.. k] + b[k + 1 ..])[1..] == b[1..][.. k - 1] + b[1..][k ..];
    }
  }

  lemma {:induction false} TotalPermuted(a: seq<u16>, b: seq<u16>)
    requires multiset(a) == multiset(b)
    ensures Total(a) == Total(b)
    decreases |a|
  {
    if a == [] {
      assert |multiset(b)| == 0;
    } else {
      var k := FirstMoved(a, b);
      TotalPermuted(a[1..], b[.. k] + b[k + 1 ..]);
      TotalRemove(b, k);
    }
  }

  lemma FirstMoved(a: seq<u16>, b: seq<u16>) returns (k: nat)
    requires a != [] && multiset(a) == multiset(b)
    ensures k < |b| && b[k] == a[0] && multiset(a[1..]) == multiset(b[.. k] + b[k + 1 ..])
  {
    var x := a[0];
    assert a == [x] + a[1..];
    assert x in multiset(b);
    k :| 0 <= k < |b| && b[k] == x;
    assert b == b[.. k] + [x] + b[k + 1 ..];
    assert multiset(b[.. k] + b[k + 1 ..]) == multiset(b) - multiset{x};
    assert multiset(a[1..]) == multiset(a) - multiset{x};
  }

  // ------------------------------------------------------------ main theorems

  /** The value of the checksum is pinned down by its residue modulo 65535 and
      by when it is zero. */
  lemma SumCharacterised(s: u16, p: seq<byte>)
    ensures Sum(s, p) % 65535 == (s + WordSum(p)) % 65535
    ensures Sum(s, p) == 0 <==> s == 0 && forall i :: 0 <= i < |p| ==> p[i] == 0
  {
    NormCongruent(s + WordSum(p));
    WordSumZero(p);
  }

  /** A buffer may be summed in pieces, all but the last of even length. */
  lemma SumComposes(s: u16, a: seq<byte>, b: seq<byte>)
    requires |a| % 2 == 0
    ensures Sum(s, a + b) == Sum(Sum(s, a), b)
  {
    hide WordSum, Norm;
    WordSumConcat(a, b);
    NormAdd(s + WordSum(a), WordSum(b));
  }

  lemma SumOfPermutedWords(s: u16, p: seq<byte>, q: seq<byte>)
    requires multiset(Words(p)) == multiset(Words(q))
    ensures Sum(s, p) == Sum(s, q)
  {
    hide WordSum, Norm, Words, Total;
    TotalOfWords(p);
    TotalOfWords(q);
    TotalPermuted(Words(p), Words(q));
  }

  /** Byte-order independence. */
  lemma SumOfSwappedBytes(s: u16, p: seq<byte>)
    requires |p| % 2 == 0
    ensures Sum(Swap(s), SwapBytes(p)) == Swap(Sum(s, p))
  {
    hide WordSum, Norm, Swap, SwapBytes;
    var k := WordSumSwapped(p);
    NormSwapFrom(s, WordSum(p), WordSum(SwapBytes(p)), k);
  }

  // ------------------------------------------------------------- byte by byte

  /** What the byte at position `i` of a buffer adds to the sum. */
  function Weight(i: nat): nat {
    if i % 2 == 0 then 256 else 1
  }

  /** A byte at an even place counts 256 times and one at an odd place once, up to
      the last one, with a partner or without. */
  lemma {:induction false} SumByWeights(p: seq<byte>, i: nat, b: byte)
    requires i < |p|
    ensures WordSum(p[i := b]) == WordSum(p) + Weight(i) * (b - p[i])
    decreases |p|
  {
    var q := p[i := b];
    if i >= 2 {
      assert q[2..] == p[2..][i - 2 := b];
      SumByWeights(p[2..], i - 2, b);
    } else if |p| >= 2 {
      assert q[2..] == p[2..];
    }
  }

  /** A last odd byte is padded with a zero behind it. */
  lemma {:induction false} OddBytePadded(s: u16, p: seq<byte>)
    requires |p| % 2 == 1
    ensures WordSum(p) == WordSum(p + [0]) && Sum(s, p) == Sum(s, p + [0])
    decreases |p|
  {
    if |p| > 1 {
      assert (p + [0])[2..] == p[2..] + [0];
      OddBytePadded(s, p[2..]);
    } else {
      assert (p + [0])[2..] == [];
    }
  }
}
