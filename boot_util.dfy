/**
 * The number conversions of the boot loader's mishaboot/lgbt/util.c: toupper, an itoa
 * for int32_t that returns a pointer to its NUL, utoa, and atoi, which reads a signed
 * number in any radix from 2 to 36 into an int32_t.
 */
module BootUtil {
  import opened CInt
  import opened Wrappers
  import opened Strings
  import opened Stdlib

  /** toupper: a lower-case ASCII letter becomes upper case, every other character is kept. */
  function Toupper(c: char): (u: char)
    ensures !('a' <= u <= 'z')
    ensures !('a' <= c <= 'z') ==> u == c
    ensures 'a' <= c <= 'z' ==> 'A' <= u <= 'Z' && u as int + 32 == c as int
  {
    if 'a' <= c <= 'z' then (c as int - 32) as char else c
  }

  /**
   * The position of toupper(c) in "0123456789ABCDEFGHIJKLMNOPQRSTUVWXYZ", where
   * strchr finds it, or None when it is not there.
   */
  function DigitValue(c: char): (v: Option<nat>)
    ensures v.Some? ==> v.value < 36 && DigitChar(v.value) == Toupper(c)
    ensures v.None? ==> forall k :: 0 <= k < 36 ==> DigitChar(k) != Toupper(c)
  {
    var u := Toupper(c);
    if '0' <= u <= '9' then Some(u as int - 48)
    else if 'A' <= u <= 'Z' then Some(u as int - 55)
    else None
  }

  /** Every entry of the digit table is found at its own position. */
  lemma DigitValueOfDigit(k: nat)
    requires k < 36
    ensures DigitValue(DigitChar(k)) == Some(k)
  {
  }

  /** The characters atoi passes over: "\t\n\v\f\r +_". */
  predicate Skipped(c: char)
  {
    c as int in {9, 10, 11, 12, 13} || c == ' ' || c == '+' || c == '_'
  }

  /** The int32_t atoi returns once it stops: -res if a '-' was seen, computed in 32 bits. */
  function Finish(res: int, neg: bool): (r: int)
    ensures -0x8000_0000 <= r < 0x8000_0000
    ensures !neg && -0x8000_0000 <= res < 0x8000_0000 ==> r == res
    ensures neg && -0x8000_0000 < res < 0x8000_0000 ==> r == -res
  {
    if neg then Signed32(Wrap32(-res)) else Signed32(Wrap32(res))
  }

  /** res * radix + pos, where res is converted to uint32_t and the sum stored back in an int32_t. */
  function Accumulate(res: int, radix: nat, pos: nat): (r: int)
    ensures -0x8000_0000 <= r < 0x8000_0000
    ensures 0 <= res * radix + pos < 0x8000_0000 ==> r == res * radix + pos
  {
    Signed32(Wrap32(res * radix + pos))
  }

  /**
   * What atoi makes of the characters t, having read res so far and a '-' if neg:
   * a '-' sets the sign, a skipped character is passed over, a digit below the radix is
   * accumulated, anything else (or the end) stops the scan.
   */
  function Parse(t: seq<char>, radix: nat, res: int, neg: bool): (r: int)
    requires ValidRadix(radix)
    ensures -0x8000_0000 <= r < 0x8000_0000
    decreases |t|
  {
    if |t| == 0 then Finish(res, neg)
    else if t[0] == '-' then Parse(t[1..], radix, res, true)
    else if Skipped(t[0]) then Parse(t[1..], radix, res, neg)
    else match DigitValue(t[0])
      case None => Finish(res, neg)
      case Some(pos) => if pos >= radix then Finish(res, neg) else Parse(t[1..], radix, Accumulate(res, radix, pos), neg)
  }

  /** One digit below the radix is accumulated. */
  lemma ParseDigit(k: nat, rest: seq<char>, radix: nat, res: int, neg: bool)
    requires ValidRadix(radix) && k < radix
    ensures Parse([DigitChar(k)] + rest, radix, res, neg) == Parse(rest, radix, Accumulate(res, radix, k), neg)
  {
    DigitValueOfDigit(k);
    assert ([DigitChar(k)] + rest)[1..] == rest;
  }

  /** Reading the digits of n, from the start, accumulates n. */
  lemma {:induction false} ParseDigits(n: nat, rest: seq<char>, radix: nat, neg: bool)
    requires ValidRadix(radix) && n < 0x8000_0000
    ensures Parse(Digits(n, radix) + rest, radix, 0, neg) == Parse(rest, radix, n, neg)
    decreases n
  {
    DivideByRadix(n, radix);
    DigitsStep(n, radix);
    var q, m := n / radix, n % radix;
    var c := DigitChar(m);
    if n < radix {
      assert Digits(n, radix) + rest == [c] + rest;
      ParseDigit(m, rest, radix, 0, neg);
    } else {
      assert Digits(n, radix) + rest == Digits(q, radix) + ([c] + rest);
      ParseDigits(q, [c] + rest, radix, neg);
      ParseDigit(m, rest, radix, q, neg);
      assert Accumulate(q, radix, m) == n;
    }
  }

  /** atoi reads back every int32_t but INT32_MIN from the text itoa writes for it. */
  lemma AtoiInvertsItoa(x: int, radix: nat)
    requires ValidRadix(radix) && -0x8000_0000 < x < 0x8000_0000
    ensures Parse(Spelled(x, radix), radix, 0, false) == x
  {
    var d := Digits(Magnitude(x), radix);
    ParseDigits(Magnitude(x), [], radix, x < 0);
    assert d + [] == d;
    if x < 0 {
      assert (['-'] + d)[0] == '-' && (['-'] + d)[1..] == d;
    } else {
      assert [] + d == d;
    }
  }

  /**
   * itoa of util.c: 0 (None) for a radix outside 2..36, otherwise the text is written
   * at buf + at and the pointer returned is the one AT its NUL. INT32_MIN comes out
   * right too, since its wrapped negation read as uint32_t is 2^31.
   */
  method Itoa(target: int, buf: array<char>, at: nat, radix: u32) returns (end: Option<nat>)
    requires -0x8000_0000 <= target < 0x8000_0000
    requires ValidRadix(radix) ==> at + |Spelled(target, radix)| < buf.Length
    modifies buf
    ensures !ValidRadix(radix) ==> end.None? && buf[..] == old(buf[..])
    ensures ValidRadix(radix) ==> end == Some(at + |Spelled(target, radix)|)
    ensures ValidRadix(radix) ==> buf[..] == Copied(old(buf[..]), at, Spelled(target, radix))
  {
    if radix < 2 || radix > 36 {
      return None;
    }
    var pos := WriteSpelled(target, buf, at, radix);
    return Some(pos);
  }

  /**
   * utoa of util.c: target % radix converts the int32_t to uint32_t, so the digits are
   * those of the target read as unsigned; the pointer returned is the one at the NUL.
   */
  method Utoa(target: int, buf: array<char>, at: nat, radix: u32) returns (end: Option<nat>)
    requires -0x8000_0000 <= target < 0x8000_0000
    requires ValidRadix(radix) ==> at + |Digits(Wrap32(target), radix)| < buf.Length
    modifies buf
    ensures !ValidRadix(radix) ==> end.None? && buf[..] == old(buf[..])
    ensures ValidRadix(radix) ==> end == Some(at + |Digits(Wrap32(target), radix)|)
    ensures ValidRadix(radix) ==> buf[..] == Copied(old(buf[..]), at, Digits(Wrap32(target), radix))
  {
    if radix < 2 || radix > 36 {
      return None;
    }
    var u := Wrap32(target);
    assert Spelled(u, radix) == Digits(u, radix);
    var pos := WriteSpelled(u, buf, at, radix);
    return Some(pos);
  }

  /** atoi(s + at, radix): -4 for a radix outside 2..36, otherwise Parse of the C string there. */
  method Atoi(s: array<char>, at: nat, radix: u32) returns (r: int)
    requires at <= s.Length && NUL in s[at..]
    ensures !ValidRadix(radix) ==> r == -4
    ensures ValidRadix(radix) ==> r == Parse(Text(s[at..]), radix, 0, false)
  {
    if radix < 2 || radix > 36 {
      return -4;
    }
    ghost var t := Text(s[at..]);
    assert forall k :: at <= k < at + |t| ==> s[k] == s[at..][k - at] == t[k - at];
    assert s[at + |t|] == s[at..][|t|] == NUL;
    var res := 0;
    var neg := false;
    var i := at;
    while s[i] != NUL
      invariant at <= i <= at + |t|
      invariant Parse(t[i - at..], radix, res, neg) == Parse(t, radix, 0, false)
      decreases at + |t| - i
    {
      var c := s[i];
      assert c == t[i - at] && t[i - at..][1..] == t[i + 1 - at..];
      i := i + 1;
      if c == '-' {
        neg := true;
        continue;
      }
      if Skipped(c) {
        continue;
      }
      var x := DigitValue(c);
      if x.None? || x.value >= radix {
        return Finish(res, neg);
      }
      res := Accumulate(res, radix, x.value);
    }
    return Finish(res, neg);
  }
}
