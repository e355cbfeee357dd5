/**
 * Fixed-width C integers on top of Dafny's unbounded ones: the byte, 16-bit and
 * 32-bit types used by the kernel, explicit wrap-around, C's truncating division,
 * two's-complement reinterpretation and big-/little-endian byte access.
 */
module CInt {
  const B8: int := 0x100
  const B16: int := 0x1_0000
  const B32: int := 0x1_0000_0000

  type byte = x: int | 0 <= x < 0x100
  type u16 = x: int | 0 <= x < 0x1_0000
  type u32 = x: int | 0 <= x < 0x1_0000_0000

  /** Reduction of an arbitrary integer modulo 2^32, as every uint32_t assignment does. */
  function Wrap32(x: int): u32
  {
    x % B32
  }

  /** Wrap-around for a value at most one period outside the range. */
  lemma WrapNear(x: int)
    requires -B32 <= x < 2 * B32
    ensures Wrap32(x) == if x < 0 then x + B32 else if x < B32 then x else x - B32
  {
  }

  function Wrap16(x: int): (r: u16)
    ensures 0 <= x < B16 ==> r == x
    ensures B16 <= x < 2 * B16 ==> r == x - B16
  {
    x % B16
  }

  function Wrap8(x: int): (r: byte)
    ensures 0 <= x < B8 ==> r == x
  {
    x % B8
  }

  /** Adding a multiple of 2^32 does not change a wrapped value. */
  lemma WrapMultiple(x: int, k: int)
    ensures Wrap32(x + k * B32) == Wrap32(x)
  {
    var q := (x + k * B32) / B32;
    assert x + k * B32 == q * B32 + Wrap32(x + k * B32);
    assert x == (q - k) * B32 + Wrap32(x + k * B32);
  }

  /** Reducing modulo 2^32 part-way through a sum changes nothing in the end. */
  lemma WrapAdd(x: int, y: int)
    ensures Wrap32(Wrap32(x) + y) == Wrap32(x + y)
  {
    assert Wrap32(x) + y + (x / B32) * B32 == x + y;
    WrapMultiple(Wrap32(x) + y, x / B32);
  }

  /** Wrapping the parts of a sum first gives the same wrapped sum. */
  lemma WrapSum3(a: int, b: int, c: int)
    ensures Wrap32(Wrap32(a) + Wrap32(b) + Wrap32(c)) == Wrap32(a + b + c)
  {
    WrapMultiple(Wrap32(a) + Wrap32(b) + Wrap32(c), a / B32 + b / B32 + c / B32);
  }

  /** The value of a uint32_t read back through an int32_t cast. */
  function Signed32(x: u32): (r: int)
    ensures -0x8000_0000 <= r < 0x8000_0000
    ensures r % B32 == x
  {
    if x < 0x8000_0000 then x else x - B32
  }

  /** C's `/` on signed operands: the quotient truncated toward zero. */
  function CDiv(a: int, b: int): (q: int)
    requires b > 0
    ensures a >= 0 ==> q == a / b
    ensures a < 0 ==> q == -((-a) / b)
  {
    if a >= 0 then a / b else -((-a) / b)
  }

  /** C's `%` on signed operands: the remainder takes the sign of the dividend. */
  function CMod(a: int, b: int): (r: int)
    requires b > 0
    ensures a == CDiv(a, b) * b + r
    ensures -b < r < b
    ensures a >= 0 ==> 0 <= r
    ensures a < 0 ==> r <= 0
  {
    if a >= 0 then a % b else -((-a) % b)
  }

  /** High and low byte of a 16-bit value. */
  function Hi(x: u16): byte { x / B8 }
  function Lo(x: u16): byte { x % B8 }

  /** net_swap16: exchange the two bytes of a 16-bit value. */
  function Swap16(x: u16): (r: u16)
    ensures Hi(r) == Lo(x) && Lo(r) == Hi(x)
  {
    Lo(x) * B8 + Hi(x)
  }

  lemma Swap16Involutive(x: u16)
    ensures Swap16(Swap16(x)) == x
  {
  }

  /** `a & b` on two uint32_t values. */
  function And32(a: u32, b: u32): u32
  {
    ((a as bv32) & (b as bv32)) as int
  }

  /** Masking with 0 gives 0, as a default route's mask does to every address. */
  lemma AndZero(a: u32)
    ensures And32(a, 0) == 0
  {
    assert (a as bv32) & 0 == 0;
  }

  /** `a | b` on two uint32_t values. */
  function Or32(a: u32, b: u32): u32
  {
    ((a as bv32) | (b as bv32)) as int
  }

  function Pow2(k: nat): (p: nat)
    ensures p >= 1
  {
    if k == 0 then 1 else 2 * Pow2(k - 1)
  }

  lemma Pow2Small()
    ensures Pow2(4) == 0x10 && Pow2(5) == 0x20 && Pow2(7) == 0x80
  {
    assert Pow2(1) == 2;
    assert Pow2(2) == 4;
    assert Pow2(3) == 8;
    assert Pow2(4) == 0x10;
    assert Pow2(5) == 0x20;
    assert Pow2(6) == 0x40;
  }

  /** `a | b` on naturals, bit by bit from the least significant one. */
  function BitOr(a: nat, b: nat): (r: nat)
    decreases a + b
  {
    if a == 0 && b == 0 then 0 else 2 * BitOr(a / 2, b / 2) + (if a % 2 == 1 || b % 2 == 1 then 1 else 0)
  }

  /** Division and remainder are the unique quotient and remainder: x == q * n + r with 0 <= r < n. */
  lemma DivMod(x: int, n: int, q: int, r: int)
    requires 0 <= r < n && x == q * n + r
    ensures x / n == q && x % n == r
  {
    var q', r' := x / n, x % n;
    var d := q - q';
    assert d * n == r' - r by {
      assert x == q' * n + r';
      assert q * n - q' * n == d * n;
    }
    MulAway(d, n);
  }

  /** C's remainder is 0 exactly when the Euclidean one is: both say a is a multiple of b. */
  lemma CModZero(a: int, b: int)
    requires b > 0
    ensures CMod(a, b) == 0 <==> a % b == 0
  {
    if a < 0 {
      if (-a) % b == 0 {
        DivMod(a, b, -((-a) / b), 0);
      }
      if a % b == 0 {
        DivMod(-a, b, -(a / b), 0);
      }
    }
  }

  /** The quotient and remainder of n after those of n - 1: the remainder steps up or wraps to 0. */
  lemma DivModNext(n: int, w: int)
    requires w >= 1 && n >= 1
    ensures (n - 1) % w + 1 == w ==> n / w == (n - 1) / w + 1 && n % w == 0
    ensures (n - 1) % w + 1 < w ==> n / w == (n - 1) / w && n % w == (n - 1) % w + 1
  {
    var q, e := (n - 1) / w, (n - 1) % w;
    assert n == q * w + e + 1;
    if e + 1 == w {
      assert n == (q + 1) * w;
      DivMod(n, w, q + 1, 0);
    } else {
      DivMod(n, w, q, e + 1);
    }
  }

  /** q * w + e with 0 <= e < w is a multiple of w, in C's sense too, exactly when e is 0. */
  lemma MultipleOf(q: int, w: int, e: int)
    requires w >= 1 && 0 <= e < w
    ensures CMod(q * w + e, w) == 0 <==> e == 0
  {
    DivMod(q * w + e, w, q, e);
    CModZero(q * w + e, w);
  }

  /** A quotient of a number below w * h is below h. */
  lemma QuotientBelow(n: int, w: int, h: int)
    requires w >= 1 && 0 <= n < w * h
    ensures 0 <= n / w < h
  {
    var q := n / w;
    MulAway(q - h + 1, w);
    assert (q - h + 1) * w == q * w - h * w + w;
    assert q * w <= n;
  }

  /** Index x of row y lies inside a w-by-h grid laid out row after row. */
  lemma InsideGrid(y: int, x: int, w: int, h: int)
    requires 0 <= y < h && 0 <= x < w
    ensures 0 <= y * w + x < w * h
  {
    MulAway(h - y, w);
    assert (h - y) * w == h * w - y * w;
  }

  /** A number is its quotient times w plus its remainder. */
  lemma Split(n: int, w: int)
    requires w > 0
    ensures n == n / w * w + n % w
  {
  }

  /** A product of two naturals is a natural. */
  lemma MulNonneg(a: int, b: int)
    requires a >= 0 && b >= 0
    ensures a * b >= 0
  {
  }

  /** The next multiple of w is w further on. */
  lemma NextMultiple(y: int, w: int)
    ensures (y + 1) * w == y * w + w
  {
  }

  /** A nonzero multiple of n is at least n away from 0. */
  lemma MulAway(d: int, n: int)
    requires n > 0
    ensures d >= 1 ==> d * n >= n
    ensures d <= -1 ==> d * n <= -n
  {
    if d >= 1 {
      assert d * n == (d - 1) * n + n;
    } else if d <= -1 {
      assert -d * n == (-d - 1) * n + n;
    }
  }

  /** A number written with base-256 digits a, b, c, d gives its digits back. */
  lemma ByteDigits(a: byte, b: byte, c: byte, d: byte)
    ensures var x := a as nat + b as nat * 0x100 + c as nat * 0x1_0000 + d as nat * 0x100_0000;
      x % 0x100 == a && x / 0x100 % 0x100 == b && x / 0x1_0000 % 0x100 == c && x / 0x100_0000 == d
  {
    var x := a as nat + b as nat * 0x100 + c as nat * 0x1_0000 + d as nat * 0x100_0000;
    var y := b as nat + c as nat * 0x100 + d as nat * 0x1_0000;
    var z := c as nat + d as nat * 0x100;
    DivMod(x, 0x100, y, a);
    DivMod(y, 0x100, z, b);
    DivMod(x, 0x1_0000, z, a + b * 0x100);
    DivMod(z, 0x100, d, c);
    DivMod(x, 0x100_0000, d, a + b * 0x100 + c * 0x1_0000);
  }

  /** `a | b == b | a`. */
  lemma {:induction false} BitOrCommutes(a: nat, b: nat)
    ensures BitOr(a, b) == BitOr(b, a)
    decreases a + b
  {
    if a != 0 || b != 0 {
      BitOrCommutes(a / 2, b / 2);
    }
  }

  /** Or-ing in nothing changes nothing. */
  lemma {:induction false} BitOrZero(b: nat)
    ensures BitOr(0, b) == b
    decreases b
  {
    if b != 0 {
      BitOrZero(b / 2);
    }
  }

  /** Bits that do not overlap (a below 2^k, the other a multiple of 2^k) are or-ed by adding them. */
  lemma {:induction false} BitOrDisjoint(a: nat, m: nat, k: nat)
    requires a < Pow2(k)
    ensures BitOr(a, m * Pow2(k)) == a + m * Pow2(k)
    decreases k
  {
    if k == 0 {
      BitOrZero(m);
    } else {
      var h := m * Pow2(k - 1);
      assert m * Pow2(k) == 2 * h;
      assert (2 * h) / 2 == h && (2 * h) % 2 == 0;
      BitOrDisjoint(a / 2, m, k - 1);
      assert a == 2 * (a / 2) + a % 2;
    }
  }

  /** `~a` on a uint32_t value. */
  function Not32(a: u32): u32
  {
    (!(a as bv32)) as int
  }

  /** A 16-bit value stored most significant byte first. */
  function BE16(s: seq<byte>, i: nat): (r: u16)
    requires i + 2 <= |s|
    ensures Hi(r) == s[i] && Lo(r) == s[i + 1]
  {
    s[i] * B8 + s[i + 1]
  }

  /** A 32-bit value stored most significant byte first. */
  function BE32(s: seq<byte>, i: nat): (r: u32)
    requires i + 4 <= |s|
    ensures r / B16 == BE16(s, i) && r % B16 == BE16(s, i + 2)
  {
    BE16(s, i) * B16 + BE16(s, i + 2)
  }

  /** A 16-bit value stored least significant byte first, as an x86 load sees it. */
  function LE16(s: seq<byte>, i: nat): (r: u16)
    requires i + 2 <= |s|
    ensures Lo(r) == s[i] && Hi(r) == s[i + 1]
  {
    s[i] + s[i + 1] * B8
  }

  /** The bytes of a 16-bit value in network order. */
  function BytesBE16(x: u16): (r: seq<byte>)
    ensures |r| == 2 && BE16(r, 0) == x
  {
    [Hi(x), Lo(x)]
  }

  /** The bytes of a 32-bit value in network order. */
  function BytesBE32(x: u32): (r: seq<byte>)
    ensures |r| == 4 && BE32(r, 0) == x
  {
    BytesBE16(x / B16) + BytesBE16(x % B16)
  }

  /** A 32-bit value stored least significant byte first, as an x86 load sees it. */
  function LE32(s: seq<byte>, i: nat): u32
    requires i + 4 <= |s|
  {
    LE16(s, i) + LE16(s, i + 2) * B16
  }

  /** The bytes an x86 store of a 32-bit value writes, least significant first. */
  function BytesLE32(x: u32): (r: seq<byte>)
    ensures |r| == 4 && LE32(r, 0) == x
  {
    var lo: u16 := x % B16;
    var hi: u16 := x / B16;
    [Lo(lo), Hi(lo), Lo(hi), Hi(hi)]
  }

  /** Reading back a 16-bit value written in network order at `i`. */
  lemma BE16At(s: seq<byte>, i: nat, x: u16)
    requires i + 2 <= |s| && s[i..i + 2] == BytesBE16(x)
    ensures BE16(s, i) == x
  {
    assert s[i] == BytesBE16(x)[0] && s[i + 1] == BytesBE16(x)[1];
  }

  /** Reading back a 32-bit value an x86 store wrote at `i`. */
  lemma LE32At(s: seq<byte>, i: nat, x: u32)
    requires i + 4 <= |s| && s[i..i + 4] == BytesLE32(x)
    ensures LE32(s, i) == x
  {
    assert LE32(s, i) == LE32(s[i..i + 4], 0);
  }

  /** Reading back a 32-bit value written in network order at `i`. */
  lemma BE32At(s: seq<byte>, i: nat, x: u32)
    requires i + 4 <= |s| && s[i..i + 4] == BytesBE32(x)
    ensures BE32(s, i) == x
  {
    assert s[i..i + 2] == BytesBE32(x)[..2] == BytesBE16(x / B16);
    assert s[i + 2..i + 4] == BytesBE32(x)[2..] == BytesBE16(x % B16);
    BE16At(s, i, x / B16);
    BE16At(s, i + 2, x % B16);
  }
}
