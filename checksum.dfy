/** The Internet checksum of RFC 1071: the 16-bit one's-complement of the
    one's-complement sum of a buffer's 16-bit words.

    The C code reads the words in host byte order. This model sums them in
    network (big-endian) order; `HostOrderSameBytes` proves that a
    little-endian host stores exactly the same two checksum bytes
    (RFC 1071 section 2(B), byte-order independence). */
module InternetChecksum {
  import opened IcmpWire

  /** The modulus of one's-complement 16-bit arithmetic. */
  const M: nat := 0xFFFF

  /** The buffer read as big-endian 16-bit words and added up; an odd
      trailing byte is the high byte of a word padded with a zero byte. */
  function SumWords(s: seq<Byte>): nat
  {
    if |s| == 0 then 0
    else if |s| == 1 then Be16(s[0], 0)
    else Be16(s[0], s[1]) + SumWords(s[2..])
  }

  /** The sum as the C loop forms it on a little-endian host: each word is
      read with its first byte low, and the trailing byte is added alone. */
  function SumWordsHost(s: seq<Byte>): (total: nat)
    ensures total <= M * ((|s| + 1) / 2)
  {
    if |s| == 0 then 0
    else if |s| == 1 then s[0]
    else Be16(s[1], s[0]) + SumWordsHost(s[2..])
  }

  /** The end-around-carry sum in closed form: the unique value in 0..0xFFFF
      that is congruent to `total` modulo 0xFFFF and is 0 only for a zero total. */
  function OnesComplementSum(total: nat): (f: nat)
    ensures f <= 0xFFFF
    ensures f == 0 <==> total == 0
    ensures f % M == total % M
  {
    if total == 0 then 0 else (total - 1) % M + 1
  }

  /** The checksum of `s`: the complement of its folded word sum, in 16 bits. */
  function ChecksumOf(s: seq<Byte>): (c: nat)
    ensures c <= 0xFFFF
  {
    M - OnesComplementSum(SumWords(s))
  }

  /** Any value with the three properties of `OnesComplementSum` is that value. */
  lemma OnesComplementSumUnique(total: nat, f: nat)
    requires f <= 0xFFFF
    requires f == 0 <==> total == 0
    requires f % M == total % M
    ensures f == OnesComplementSum(total)
  {
    if total != 0 {
      var g := OnesComplementSum(total);
      assert 1 <= f && 1 <= g;
      assert (f - 1) % M == f - 1 && (g - 1) % M == g - 1;
      assert f % M == (if f == M then 0 else f);
      assert g % M == (if g == M then 0 else g);
    }
  }

  /** One carry fold `(sum & 0xFFFF) + (sum >> 16)` on a sum that has a carry:
      it gets smaller, stays positive and keeps its residue modulo 0xFFFF. */
  lemma FoldStep(sum: nat)
    requires sum >= 0x1_0000
    ensures 0 < sum % 0x1_0000 + sum / 0x1_0000 < sum
    ensures (sum % 0x1_0000 + sum / 0x1_0000) % M == sum % M
  {
    var hi, lo := sum / 0x1_0000, sum % 0x1_0000;
    assert sum == hi * 0x1_0000 + lo;
    assert sum == (lo + hi) + M * hi;
    ModMultiple(lo + hi, hi);
  }

  /** A sum plus the complement of its folded value is a positive multiple of 0xFFFF. */
  lemma ResidueCancels(total: nat)
    ensures total + (M - OnesComplementSum(total)) > 0
    ensures (total + (M - OnesComplementSum(total))) % M == 0
  {
    var f := OnesComplementSum(total);
    var q := total / M;
    assert total == M * q + total % M;
    assert f % M == total % M;
    assert f == M * (f / M) + f % M;
    assert total + (M - f) == M * (q - f / M + 1);
    ModMultiple(0, q - f / M + 1);
  }

  lemma ModMultiple(a: int, k: int)
    ensures (a + M * k) % M == a % M
  {
  }

  /** The C function `checksum(data, length)`: the word-summing loop, the
      trailing byte, the carry-folding loop and the truncated complement. */
  method Checksum(data: array<Byte>, length: int) returns (cs: nat)
    requires length <= data.Length
    ensures cs <= 0xFFFF
    ensures cs == ChecksumOf(data[..if length < 0 then 0 else length])
  {
    ghost var n := if length < 0 then 0 else length;
    var ptr := 0;
    var len := length;
    var sum: nat := 0;
    while len > 1
      invariant 0 <= ptr <= n
      invariant ptr + (if len < 0 then 0 else len) == n
      invariant sum + SumWords(data[ptr..n]) == SumWords(data[..n])
    {
      assert data[ptr..n][2..] == data[ptr + 2..n];
      sum := sum + Be16(data[ptr], data[ptr + 1]);
      ptr := ptr + 2;
      len := len - 2;
    }
    if len == 1 {
      sum := sum + Be16(data[ptr], 0);
    }
    assert sum == SumWords(data[..n]);
    ghost var total := sum;
    while sum >= 0x1_0000
      invariant sum == 0 <==> total == 0
      invariant sum % M == total % M
    {
      FoldStep(sum);
      sum := sum % 0x1_0000 + sum / 0x1_0000;
    }
    OnesComplementSumUnique(total, sum);
    cs := M - sum;  // `~sum` as an `unsigned short`: the folded sum has no bits above bit 15
  }

  /** For an odd length the last byte is added on its own, as the high byte of
      a padded word, after all the whole words. */
  lemma {:induction false} SumWordsOddTail(s: seq<Byte>)
    requires |s| % 2 == 1
    ensures SumWords(s) == SumWords(s[..|s| - 1]) + Be16(s[|s| - 1], 0)
  {
    if |s| > 1 {
      SumWordsOddTail(s[2..]);
      assert s[2..][..|s| - 3] == s[..|s| - 1][2..];
    }
  }

  /** For an even length only whole words are added: appending a word adds its value. */
  lemma {:induction false} SumWordsAppendWord(s: seq<Byte>, hi: Byte, lo: Byte)
    requires |s| % 2 == 0
    ensures SumWords(s + [hi, lo]) == SumWords(s) + Be16(hi, lo)
  {
    if |s| == 0 {
      assert (s + [hi, lo])[2..] == [];
    } else {
      SumWordsAppendWord(s[2..], hi, lo);
      assert (s + [hi, lo])[2..] == s[2..] + [hi, lo];
    }
  }

  /** The sum never exceeds 0xFFFF per (possibly padded) word. With a 64-bit
      `unsigned long` (LP64) the accumulator cannot wrap for any C `int`
      length; the only call, over 64 bytes, sums to at most 32 * 0xFFFF,
      which fits in 32 bits as well. */
  lemma {:induction false} SumWordsBound(s: seq<Byte>)
    ensures SumWords(s) <= M * ((|s| + 1) / 2)
  {
    if |s| >= 2 {
      SumWordsBound(s[2..]);
      assert (|s| + 1) / 2 == (|s[2..]| + 1) / 2 + 1;
    }
  }

  /** Replacing the word at an even offset changes the sum by the difference of the words. */
  lemma {:induction false} SumWordsUpdate(s: seq<Byte>, k: nat, hi: Byte, lo: Byte)
    requires k % 2 == 0 && k + 1 < |s|
    ensures SumWords(s[k := hi][k + 1 := lo]) + Be16(s[k], s[k + 1]) == SumWords(s) + Be16(hi, lo)
  {
    var t := s[k := hi][k + 1 := lo];
    if k == 0 {
      assert t[2..] == s[2..];
    } else {
      SumWordsUpdate(s[2..], k - 2, hi, lo);
      assert t[2..] == s[2..][k - 2 := hi][k - 1 := lo];
    }
  }

  /** The RFC 1071 section 1 verification rule: with the checksum of a buffer
      written big-endian into a zeroed, word-aligned field, the checksum of the
      result is 0. */
  lemma ChecksumVerifies(s: seq<Byte>, k: nat)
    requires k % 2 == 0 && k + 1 < |s|
    requires s[k] == 0 && s[k + 1] == 0
    ensures ChecksumOf(s[k := HighByte(ChecksumOf(s))][k + 1 := LowByte(ChecksumOf(s))]) == 0
  {
    var c := ChecksumOf(s);
    var t := s[k := HighByte(c)][k + 1 := LowByte(c)];
    WriteWord(s, k, c);
    VerifiesFromSum(t, SumWords(s), c);
  }

  /** A buffer whose word sum is a sum plus that sum's checksum has checksum 0. */
  lemma VerifiesFromSum(t: seq<Byte>, total: nat, c: nat)
    requires c == M - OnesComplementSum(total)
    requires SumWords(t) == total + c
    ensures ChecksumOf(t) == 0
  {
    ComplementFoldsToM(total, c);
  }

  /** Writing a word into a zeroed, word-aligned field adds its value to the sum. */
  lemma WriteWord(s: seq<Byte>, k: nat, w: nat)
    requires k % 2 == 0 && k + 1 < |s|
    requires s[k] == 0 && s[k + 1] == 0
    requires w <= 0xFFFF
    ensures SumWords(s[k := HighByte(w)][k + 1 := LowByte(w)]) == SumWords(s) + w
  {
    SumWordsUpdate(s, k, HighByte(w), LowByte(w));
    Be16Split(w);
  }

  /** Adding the complement of its folded value to a sum folds to 0xFFFF. */
  lemma ComplementFoldsToM(total: nat, c: nat)
    requires c == M - OnesComplementSum(total)
    ensures OnesComplementSum(total + c) == M
  {
    ResidueCancels(total);
    OnesComplementSumUnique(total + c, M);
  }

  /** The checksum of a buffer with a known word sum. */
  lemma ChecksumOfSum(s: seq<Byte>, total: nat)
    requires SumWords(s) == total
    ensures ChecksumOf(s) == M - OnesComplementSum(total)
  {
  }

  /** The word sum is 0 exactly when every byte is 0. */
  lemma {:induction false} SumWordsZeroIff(s: seq<Byte>)
    ensures SumWords(s) == 0 <==> forall i :: 0 <= i < |s| ==> s[i] == 0
  {
    if |s| >= 2 {
      SumWordsZeroIff(s[2..]);
      assert forall i :: 2 <= i < |s| ==> s[i] == s[2..][i - 2];
    }
  }

  lemma Be16Split(w: nat)
    requires w <= 0xFFFF
    ensures Be16(HighByte(w), LowByte(w)) == w
  {
  }

  /** Prepending whole words adds their values. */
  lemma SumWordsPrefix(hi: Byte, lo: Byte, s: seq<Byte>)
    ensures SumWords([hi, lo] + s) == Be16(hi, lo) + SumWords(s)
  {
    assert ([hi, lo] + s)[2..] == s;
  }

  // ---------------------------------------------------------------------------
  // Byte-order independence (RFC 1071 section 2(B))

  /** The two bytes of a 16-bit value exchanged. */
  function Swap16(x: nat): nat
    requires x <= 0xFFFF
  {
    (x % 256) * 256 + x / 256
  }

  lemma SwapIsTimes256(x: nat)
    requires x <= 0xFFFF
    ensures Swap16(x) <= 0xFFFF
    ensures Swap16(x) % M == (256 * x) % M
    ensures Swap16(x) == 0 <==> x == 0
  {
    var h, l := x / 256, x % 256;
    assert x == 256 * h + l;
    assert 256 * x == (h + 256 * l) + M * h;
    ModMultiple(h + 256 * l, h);
  }

  lemma ModTimes256(a: nat)
    ensures (256 * a) % M == (256 * (a % M)) % M
  {
    var q := a / M;
    assert a == M * q + a % M;
    assert 256 * a == 256 * (a % M) + M * (256 * q);
    ModMultiple(256 * (a % M), 256 * q);
  }

  /** Summing with each word's bytes exchanged multiplies the sum by 256
      modulo 0xFFFF. */
  lemma {:induction false} HostSumCongruent(s: seq<Byte>)
    ensures SumWordsHost(s) % M == (256 * SumWords(s)) % M
  {
    if |s| == 1 {
      var a: int := s[0];
      assert 256 * SumWords(s) == a + M * a;
      ModMultiple(a, a);
    } else if |s| >= 2 {
      HostSumCongruent(s[2..]);
      var a: int, b: int := s[0], s[1];
      var h, t := SumWordsHost(s[2..]), SumWords(s[2..]);
      assert 256 * SumWords(s) == (256 * b + a + 256 * t) + M * a;
      ModMultiple(256 * b + a + 256 * t, a);
      ModAdd(256 * b + a, h, 256 * t);
    }
  }

  lemma ModAdd(a: int, x: int, y: int)
    requires x % M == y % M
    ensures (a + x) % M == (a + y) % M
  {
    assert x == M * (x / M) + x % M;
    assert y == M * (y / M) + y % M;
    ModMultiple(a + x % M, x / M);
    ModMultiple(a + y % M, y / M);
  }

  /** Both sums are zero exactly when every byte is zero. */
  lemma {:induction false} SumsZeroTogether(s: seq<Byte>)
    ensures SumWordsHost(s) == 0 <==> SumWords(s) == 0
  {
    if |s| >= 2 {
      SumsZeroTogether(s[2..]);
    }
  }

  /** Folding the host-order sum gives the byte-swapped folded network-order sum. */
  lemma HostFoldIsSwap(s: seq<Byte>)
    ensures OnesComplementSum(SumWordsHost(s)) == Swap16(OnesComplementSum(SumWords(s)))
  {
    var total := SumWords(s);
    var f := OnesComplementSum(total);
    SwapIsTimes256(f);
    ModTimes256(f);
    ModTimes256(total);
    assert (256 * (f % M)) % M == (256 * (total % M)) % M;
    HostSumCongruent(s);
    SumsZeroTogether(s);
    OnesComplementSumUnique(SumWordsHost(s), Swap16(f));
  }

  /** Complementing commutes with exchanging the bytes. */
  lemma SwapComplement(f: nat)
    requires f <= 0xFFFF
    ensures M - Swap16(f) == Swap16(M - f)
  {
    var h, l := f / 256, f % 256;
    assert f == 256 * h + l;
    assert M - f == 256 * (255 - h) + (255 - l);
    assert (M - f) / 256 == 255 - h && (M - f) % 256 == 255 - l;
  }

  lemma SwapBytes(c: nat)
    requires c <= 0xFFFF
    ensures Swap16(c) <= 0xFFFF
    ensures LowByte(Swap16(c)) == HighByte(c) && HighByte(Swap16(c)) == LowByte(c)
  {
  }

  /** On a little-endian host the C code computes the byte-swapped value of the
      big-endian checksum, and storing it in host order yields the same two
      bytes as storing the big-endian checksum in network order. */
  lemma HostOrderSameBytes(s: seq<Byte>)
    ensures ChecksumOf(s) <= 0xFFFF
    ensures M - OnesComplementSum(SumWordsHost(s)) == Swap16(ChecksumOf(s))
    ensures LowByte(Swap16(ChecksumOf(s))) == HighByte(ChecksumOf(s))
    ensures HighByte(Swap16(ChecksumOf(s))) == LowByte(ChecksumOf(s))
  {
    HostFoldIsSwap(s);
    SwapComplement(OnesComplementSum(SumWords(s)));
    SwapBytes(ChecksumOf(s));
  }
}
