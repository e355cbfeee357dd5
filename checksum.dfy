/**
 * The Internet checksum of src/net/checksum.c (RFC 1071): 16-bit words are loaded
 * the way an x86 reads them, least significant byte first, and summed into a 32-bit
 * accumulator; the final step folds the carries back in twice, complements and swaps
 * the two bytes into network order.
 */
module Checksum {
  import opened CInt

  /** The value the update loop adds for `d`: each 16-bit word, and a trailing odd byte alone. */
  function SumWords(d: seq<byte>): nat
  {
    if |d| >= 2 then LE16(d, 0) + SumWords(d[2..])
    else if |d| == 1 then d[0]
    else 0
  }

  /** Each word is at most 0xFFFF, so the sum grows with the number of words. */
  lemma {:induction false} SumWordsBound(d: seq<byte>)
    ensures SumWords(d) <= (|d| + 1) / 2 * 0xFFFF
  {
    if |d| >= 2 {
      SumWordsBound(d[2..]);
    }
  }

  /** Summing an even-length prefix and the rest separately gives the same total. */
  lemma {:induction false} SumWordsAppend(a: seq<byte>, b: seq<byte>)
    requires |a| % 2 == 0
    ensures SumWords(a + b) == SumWords(a) + SumWords(b)
  {
    if a != [] {
      assert (a + b)[2..] == a[2..] + b;
      assert LE16(a + b, 0) == LE16(a, 0);
      SumWordsAppend(a[2..], b);
    } else {
      assert a + b == b;
    }
  }

  /** The sum does not depend on the order of whole-word blocks. */
  lemma SumWordsSwap(a: seq<byte>, b: seq<byte>)
    requires |a| % 2 == 0 && |b| % 2 == 0
    ensures SumWords(a + b) == SumWords(b + a)
  {
    SumWordsAppend(a, b);
    SumWordsAppend(b, a);
  }

  /**
   * net_checksum_update: the words of `data` are added to `sum` with 32-bit
   * wrap-around.
   */
  method Update(data: seq<byte>, sum: u32) returns (r: u32)
    ensures r == Wrap32(sum + SumWords(data))
  {
    r := sum;
    var i := 0;
    var len := |data|;
    while len > 1
      invariant 0 <= len && i + len == |data|
      invariant Wrap32(r + SumWords(data[i..])) == Wrap32(sum + SumWords(data))
    {
      UpdateStep(data, i, r);
      r := Wrap32(r + LE16(data, i));
      i := i + 2;
      len := len - 2;
    }
    if len == 1 {
      assert data[i..] == [data[i]];
      WrapAdd(r + data[i], 0);
      r := Wrap32(r + data[i]);
    } else {
      assert data[i..] == [];
    }
  }

  /** Adding the word at i, wrapped, leaves the same total still to come. */
  lemma UpdateStep(data: seq<byte>, i: nat, r: int)
    requires i + 2 <= |data|
    ensures Wrap32(Wrap32(r + LE16(data, i)) + SumWords(data[i + 2..])) == Wrap32(r + SumWords(data[i..]))
  {
    assert data[i..][2..] == data[i + 2..];
    assert SumWords(data[i..]) == LE16(data, i) + SumWords(data[i + 2..]);
    WrapAdd(r + LE16(data, i), SumWords(data[i + 2..]));
  }

  /** The two carry folds of net_checksum_final, as a 16-bit value. */
  function Fold(sum: u32): u16
  {
    var s1 := sum % B16 + sum / B16;
    (s1 + s1 / B16) % B16
  }

  /** Adding multiples of 0xFFFF does not change a value modulo 0xFFFF. */
  lemma ModFFFF(a: int, k: int)
    ensures (a + k * 0xFFFF) % 0xFFFF == a % 0xFFFF
  {
    var q := (a + k * 0xFFFF) / 0xFFFF;
    assert a == (q - k) * 0xFFFF + (a + k * 0xFFFF) % 0xFFFF;
  }

  /** Folding keeps the value modulo 0xFFFF and leaves a nonzero sum nonzero. */
  lemma FoldFacts(sum: u32)
    ensures Fold(sum) % 0xFFFF == sum % 0xFFFF
    ensures sum == 0 <==> Fold(sum) == 0
  {
    var hi := sum / B16;
    var lo := sum % B16;
    var s1 := lo + hi;
    assert sum == s1 + hi * 0xFFFF;
    ModFFFF(s1, hi);
    if s1 >= B16 {
      assert Fold(sum) == s1 - 0xFFFF;
      ModFFFF(s1 - 0xFFFF, 1);
    }
  }

  /** A positive multiple of 0xFFFF folds to 0xFFFF, whose complement is 0. */
  lemma FoldOfMultiple(x: u32)
    requires x > 0 && x % 0xFFFF == 0
    ensures Fold(x) == 0xFFFF
  {
    FoldFacts(x);
  }

  /** net_checksum_final: fold, take the 16-bit complement, swap into network order. */
  function Final(sum: u32): u16
  {
    Swap16(0xFFFF - Fold(sum))
  }

  /** net_checksum: the final form of the sum of `data`. */
  function ChecksumOf(data: seq<byte>): u16
  {
    Final(Wrap32(SumWords(data)))
  }

  /** net_checksum computed as the C does: update from 0, then final. */
  method Compute(data: seq<byte>) returns (c: u16)
    ensures c == ChecksumOf(data)
  {
    var sum := Update(data, 0);
    c := Final(sum);
  }

  /** `d` with the 16-bit field at `k` overwritten by the bytes `a`, `b`. */
  function Patched(d: seq<byte>, k: nat, a: byte, b: byte): (r: seq<byte>)
    requires k + 2 <= |d|
    ensures |r| == |d| && r[k] == a && r[k + 1] == b
  {
    d[..k] + [a, b] + d[k + 2..]
  }

  lemma {:induction false} SumWordsPatched(d: seq<byte>, k: nat, a: byte, b: byte)
    requires k % 2 == 0 && k + 2 <= |d|
    ensures SumWords(Patched(d, k, a, b)) == SumWords(d) - LE16(d, k) + a + b * B8
  {
    var p := Patched(d, k, a, b);
    if k == 0 {
      assert p[2..] == d[2..];
    } else {
      assert p[2..] == Patched(d[2..], k - 2, a, b);
      assert LE16(p, 0) == LE16(d, 0);
      SumWordsPatched(d[2..], k - 2, a, b);
    }
  }

  /** Adding the complement of the folded sum gives a sum that folds to 0xFFFF. */
  lemma FoldWithComplement(s: u32)
    requires s + 0xFFFF < B32
    ensures Fold(s + (0xFFFF - Fold(s))) == 0xFFFF
  {
    FoldFacts(s);
    var f := Fold(s);
    var k := s / 0xFFFF - f / 0xFFFF + 1;
    assert s == (s / 0xFFFF) * 0xFFFF + s % 0xFFFF;
    assert f == (f / 0xFFFF) * 0xFFFF + f % 0xFFFF;
    assert s + (0xFFFF - f) == 0 + k * 0xFFFF;
    ModFFFF(0, k);
    FoldOfMultiple(s + (0xFFFF - f));
  }

  /**
   * A message whose zeroed, word-aligned checksum field is filled with its checksum,
   * in the byte order the kernel stores it, checks to 0 (RFC 1071, section 1).
   */
  lemma SelfCheck(d: seq<byte>, k: nat)
    requires k % 2 == 0 && k + 2 <= |d| && d[k] == 0 && d[k + 1] == 0 && |d| <= 0x1_0000
    ensures var c := ChecksumOf(d); ChecksumOf(Patched(d, k, Hi(c), Lo(c))) == 0
  {
    var s := SumWords(d);
    SumWordsBound(d);
    assert s < 0x8001 * 0xFFFF;
    var n := 0xFFFF - Fold(s);
    WrapNear(s);
    var c := ChecksumOf(d);
    assert c == Swap16(n);
    assert Hi(c) + Lo(c) * B8 == n;
    SumWordsPatched(d, k, Hi(c), Lo(c));
    assert LE16(d, k) == 0;
    FoldWithComplement(s);
    ChecksumFull(Patched(d, k, Hi(c), Lo(c)), s + n);
  }

  /** A sum that fits in 32 bits and folds to 0xFFFF has checksum 0. */
  lemma ChecksumFull(p: seq<byte>, t: u32)
    requires SumWords(p) == t && Fold(t) == 0xFFFF
    ensures ChecksumOf(p) == 0
  {
    WrapNear(t);
    assert Final(t) == Swap16(0);
  }
}
