/** The Internet checksum of icmp.go: the one's-complement sum of big-endian
    16-bit words (section 1 of RFC 1071), as `checkSum` computes it. */
module Checksum {

  /** One octet of a packet buffer (Go's `byte`). */
  type byte = x: int | 0 <= x < 256

  /** 2^16, the modulus of a 16-bit word. */
  const WordModulus: nat := 0x1_0000

  /** `n` zero bytes. */
  function Zeros(n: nat): (z: seq<byte>)
    ensures |z| == n
    ensures forall k :: 0 <= k < n ==> z[k] == 0
  {
    seq(n, _ => 0)
  }

  /** The big-endian 16-bit word made of two bytes. */
  function Word(hi: byte, lo: byte): (w: nat)
    ensures w < WordModulus
  {
    hi * 256 + lo
  }

  /** The bytes that `checkSum` sums: the buffer, with one zero byte appended
      when its length is odd. */
  function Padded(s: seq<byte>): (r: seq<byte>)
    ensures |r| % 2 == 0 && |s| <= |r| <= |s| + 1
    ensures r[..|s|] == s
    ensures forall k :: |s| <= k < |r| ==> r[k] == 0
  {
    if |s| % 2 == 1 then s + [0] else s
  }

  /** The sum of the big-endian words of an even-length buffer, accumulated
      from the front as the summing loop does. */
  function WordSum(s: seq<byte>): nat
    requires |s| % 2 == 0
  {
    if |s| == 0 then 0 else WordSum(s[..|s| - 2]) + Word(s[|s| - 2], s[|s| - 1])
  }

  /** The two carry folds of `checkSum` followed by `uint16(^sum)`: Go's `^` on
      an `int` is `-x - 1`, and the conversion keeps the low 16 bits. The second
      fold does not mask; the conversion does. */
  function FoldTwice(sum: nat): (r: nat)
    ensures r < WordModulus
  {
    var s1 := sum / WordModulus + sum % WordModulus;
    var s2 := s1 + s1 / WordModulus;
    (-s2 - 1) % WordModulus
  }

  /** What `checkSum` returns for a buffer. */
  function CheckSumOf(msg: seq<byte>): (r: nat)
    ensures r < WordModulus
  {
    FoldTwice(WordSum(Padded(msg)))
  }

  /** The 16-bit one's-complement sum of RFC 1071: end-around carries are
      added back until the value fits in 16 bits. The result keeps the value
      modulo 2^16 - 1 and is zero only for a zero sum. */
  function OnesFold(x: nat): (r: nat)
    ensures r < WordModulus
    ensures r % 0xFFFF == x % 0xFFFF
    ensures r == 0 <==> x == 0
    decreases x
  {
    if x < WordModulus then x
    else
      FoldStep(x);
      OnesFold(x / WordModulus + x % WordModulus)
  }

  /** One end-around carry shrinks a value that does not fit in 16 bits,
      keeps it nonzero and keeps it modulo 2^16 - 1. */
  lemma FoldStep(x: nat)
    requires x >= WordModulus
    ensures 0 < x / WordModulus + x % WordModulus < x
    ensures (x / WordModulus + x % WordModulus) % 0xFFFF == x % 0xFFFF
  {
    var q, r := x / WordModulus, x % WordModulus;
    assert x == WordModulus * q + r;
    assert q >= 1;
    assert x - (q + r) == 0xFFFF * q;
    ModMultiple(q + r, q);
  }

  lemma ModMultiple(a: nat, q: nat)
    ensures (a + 0xFFFF * q) % 0xFFFF == a % 0xFFFF
  {
    var m := 0xFFFF;
    assert a + m * q == m * (a / m + q) + a % m;
  }

  /** The Internet checksum of RFC 1071, section 1: the one's complement of
      the one's-complement sum of the (zero-padded) buffer's words. */
  function InternetChecksum(msg: seq<byte>): (r: nat)
    ensures r < WordModulus
  {
    0xFFFF - OnesFold(WordSum(Padded(msg)))
  }

  /** The loop of `checkSum`: sum the words of the (padded) buffer, fold the
      carry twice and complement. */
  method CheckSum(msg: seq<byte>) returns (answer: nat)
    ensures answer == CheckSumOf(msg)
  {
    var m := msg;
    if |m| % 2 == 1 {
      m := m + [0];
    }
    assert m == Padded(msg);
    var sum := 0;
    var n := 0;
    while n < |m| - 1
      invariant 0 <= n <= |m| && n % 2 == 0
      invariant sum == WordSum(m[..n])
    {
      assert m[..n + 2][..n] == m[..n];
      assert WordSum(m[..n + 2]) == WordSum(m[..n]) + Word(m[n], m[n + 1]);
      sum := sum + m[n] * 256 + m[n + 1];
      n := n + 2;
    }
    assert m[..n] == m;
    ghost var total := sum;
    sum := sum / WordModulus + sum % WordModulus;
    sum := sum + sum / WordModulus;
    answer := (-sum - 1) % WordModulus;
    assert answer == FoldTwice(total);
  }

  /** Each word is at most 0xFFFF, so a buffer of `n` bytes sums to at most
      `n / 2` times that. */
  lemma {:induction false} WordSumBound(s: seq<byte>)
    requires |s| % 2 == 0
    ensures WordSum(s) <= |s| / 2 * 0xFFFF
  {
    if |s| > 0 {
      WordSumBound(s[..|s| - 2]);
    }
  }

  /** Go's `uint16(^x)` for a value below 2^17: the low 16 bits of `-x - 1`. */
  lemma ComplementLow16(x: int)
    requires 0 <= x < 2 * WordModulus
    ensures (-x - 1) % WordModulus
         == if x < WordModulus then 0xFFFF - x else 2 * WordModulus - 1 - x
  {
    if x < WordModulus {
      assert -x - 1 == WordModulus * -1 + (0xFFFF - x);
    } else {
      assert -x - 1 == WordModulus * -2 + (2 * WordModulus - 1 - x);
    }
  }

  /** The second fold and the truncating complement, on a value that the
      first fold left below 2^17 - 1. */
  lemma SecondFold(s1: nat)
    requires s1 < 2 * WordModulus - 1
    ensures (-(s1 + s1 / WordModulus) - 1) % WordModulus == 0xFFFF - OnesFold(s1)
  {
    if s1 < WordModulus {
      assert s1 / WordModulus == 0;
      ComplementLow16(s1);
    } else {
      assert s1 / WordModulus == 1 && s1 % WordModulus == s1 - WordModulus;
      assert OnesFold(s1) == s1 - WordModulus + 1;
      ComplementLow16(s1 + 1);
    }
  }

  /** Below 2^32, folding the carry twice and truncating to 16 bits gives the
      complement of the fully folded one's-complement sum. */
  lemma FoldTwiceAgrees(sum: nat)
    requires sum < 0x1_0000_0000
    ensures FoldTwice(sum) == 0xFFFF - OnesFold(sum)
  {
    var q, r := sum / WordModulus, sum % WordModulus;
    assert sum == WordModulus * q + r;
    assert q < WordModulus;
    var s1 := q + r;
    if sum < WordModulus {
      assert s1 == sum;
    } else {
      FoldStep(sum);
    }
    assert OnesFold(sum) == OnesFold(s1);
    SecondFold(s1);
  }

  /** Two folds are not enough in general: on a sum of 2^33 - 1, `checkSum`'s
      result differs from the one's complement of RFC 1071. */
  lemma FoldTwiceNeedsBound()
    ensures FoldTwice(0x1_FFFF_FFFF) != 0xFFFF - OnesFold(0x1_FFFF_FFFF)
  {
    assert OnesFold(0x1_FFFF_FFFF) == OnesFold(0x2_FFFE);
    assert OnesFold(0x2_FFFE) == OnesFold(0x1);
  }

  /** With a 64-bit Go `int` (whose accumulator this model's unbounded sum
      stands for), `checkSum` computes the Internet checksum of RFC 1071 for
      every buffer of at most 131074 bytes (every IPv4 datagram fits),
      because such a buffer's word sum stays below 2^32. */
  lemma CheckSumIsInternetChecksum(msg: seq<byte>)
    requires |msg| <= 131074
    ensures CheckSumOf(msg) == InternetChecksum(msg)
  {
    WordSumBound(Padded(msg));
    FoldTwiceAgrees(WordSum(Padded(msg)));
  }

  /** Appending two zero bytes adds a zero word to the sum. */
  lemma {:induction false} WordSumZeros(s: seq<byte>, k: nat)
    requires |s| % 2 == 0
    ensures WordSum(s + Zeros(2 * k)) == WordSum(s)
  {
    if k > 0 {
      var t := s + Zeros(2 * k);
      assert t[..|t| - 2] == s + Zeros(2 * (k - 1));
      WordSumZeros(s, k - 1);
    } else {
      assert s + Zeros(0) == s;
    }
  }

  /** Trailing zero bytes never change the word sum of the padded buffer. */
  lemma PaddedSumIgnoresZeros(s: seq<byte>, n: nat)
    ensures WordSum(Padded(s + Zeros(n))) == WordSum(Padded(s))
  {
    var p := Padded(s);
    var q := Padded(s + Zeros(n));
    var extra := |q| - |p|;
    assert extra % 2 == 0 && extra >= 0;
    assert q == p + Zeros(extra);
    WordSumZeros(p, extra / 2);
  }

  /** Trailing zero bytes never change the checksum; in particular an odd
      buffer has the checksum of the same buffer with one zero byte appended. */
  lemma TrailingZerosNeutral(s: seq<byte>, n: nat)
    ensures CheckSumOf(s + Zeros(n)) == CheckSumOf(s)
  {
    PaddedSumIgnoresZeros(s, n);
  }

  /** Trailing zero bytes never change the RFC 1071 checksum either. */
  lemma InternetChecksumIgnoresZeros(s: seq<byte>, n: nat)
    ensures InternetChecksum(s + Zeros(n)) == InternetChecksum(s)
  {
    PaddedSumIgnoresZeros(s, n);
  }

  /** The odd-length rule of `checkSum`: the buffer is summed as if one zero
      byte were appended. */
  lemma OddLengthPadsWithZero(s: seq<byte>)
    requires |s| % 2 == 1
    ensures CheckSumOf(s) == CheckSumOf(s + [0])
  {
    assert s + [0] == s + Zeros(1);
    TrailingZerosNeutral(s, 1);
  }

  /** Replacing the word at an even offset changes the sum by the difference
      of the two words. */
  lemma {:induction false} WordSumUpdate(s: seq<byte>, i: nat, hi: byte, lo: byte)
    requires |s| % 2 == 0 && i % 2 == 0 && i + 1 < |s|
    ensures WordSum(s[i := hi][i + 1 := lo]) + Word(s[i], s[i + 1]) == WordSum(s) + Word(hi, lo)
  {
    var t := s[i := hi][i + 1 := lo];
    if i + 2 == |s| {
      assert t[..|t| - 2] == s[..|s| - 2];
    } else {
      assert t[..|t| - 2] == s[..|s| - 2][i := hi][i + 1 := lo];
      WordSumUpdate(s[..|s| - 2], i, hi, lo);
    }
  }

  /** A word sum below 2^32 plus its Internet checksum folds to 0xFFFF, so
      its two-fold checksum is zero: the check rule of RFC 1071. */
  lemma ChecksumOfCheckedSum(sum: nat)
    requires sum < 0x1_0000_0000
    ensures FoldTwice(sum + (0xFFFF - OnesFold(sum))) == 0
  {
    var f := 0xFFFF;
    var r := OnesFold(sum);
    var t := sum + (f - r);
    assert sum == f * (sum / f) + sum % f;
    assert r == f * (r / f) + r % f;
    var k := sum / f - r / f + 1;
    assert t == f * k;
    assert t > 0 by {
      if sum == 0 {
        assert r == 0;
      }
    }
    assert k > 0;
    assert t < 0x1_0000_0000 by {
      if r < f {
        assert sum / f <= 65536;
      }
    }
    ModMultiple(0, k);
    assert t % f == 0;
    var ft := OnesFold(t);
    assert ft == f * (ft / f) + ft % f;
    assert ft == f;
    FoldTwiceAgrees(t);
  }
}
