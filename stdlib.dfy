/**
 * The number formatting of src/stdlib.c: memrev, strrev and the kernel's itoa, which
 * writes the digits least significant first, appends the sign, terminates the
 * string, reverses it in place and returns a pointer one past the NUL.
 */
module Stdlib {
  import opened CInt
  import opened Wrappers
  import opened Strings

  /** A digit or an upper-case letter. */
  predicate Alnum(c: char)
  {
    '0' <= c <= '9' || 'A' <= c <= 'Z'
  }

  /** Entry k of the digit table "0123456789ABCDEFGHIJKLMNOPQRSTUVWXYZ". */
  function DigitChar(k: nat): (c: char)
    requires k < 36
    ensures Alnum(c)
  {
    if k < 10 then (48 + k) as char else (55 + k) as char
  }

  predicate ValidRadix(radix: int)
  {
    2 <= radix <= 36
  }

  /** The elements of s in the opposite order. */
  function Reverse<T>(s: seq<T>): (r: seq<T>)
    ensures |r| == |s|
  {
    if |s| == 0 then [] else Reverse(s[1..]) + [s[0]]
  }

  lemma {:induction false} ReverseIndex<T>(s: seq<T>)
    ensures forall i :: 0 <= i < |s| ==> Reverse(s)[i] == s[|s| - 1 - i]
  {
    if |s| != 0 {
      ReverseIndex(s[1..]);
    }
  }

  lemma ReverseInvolutive<T>(s: seq<T>)
    ensures Reverse(Reverse(s)) == s
  {
    ReverseIndex(s);
    ReverseIndex(Reverse(s));
  }

  lemma {:induction false} ReverseAppend<T>(a: seq<T>, b: seq<T>)
    ensures Reverse(a + b) == Reverse(b) + Reverse(a)
  {
    if |a| == 0 {
      assert a + b == b;
    } else {
      assert (a + b)[1..] == a[1..] + b;
      ReverseAppend(a[1..], b);
    }
  }

  /** Dividing by a radix leaves a digit value and, unless the quotient is 0, shrinks n. */
  lemma DivideByRadix(n: nat, radix: nat)
    requires ValidRadix(radix)
    ensures n % radix < radix && n / radix <= n
    ensures n / radix != 0 ==> n / radix < n
    ensures n < radix <==> n / radix == 0
    ensures n < radix ==> n % radix == n
    ensures (n / radix) * radix + n % radix == n
  {
    var q, m := n / radix, n % radix;
    assert n == q * radix + m && 0 <= m < radix;
    if q != 0 {
      MulAtLeast(q, radix);
    }
  }

  /** A positive multiple of a radix is at least the radix and at least twice the multiplier. */
  lemma {:induction false} MulAtLeast(q: nat, radix: nat)
    requires q >= 1 && radix >= 2
    ensures q * radix >= radix && q * radix >= 2 * q
    decreases q
  {
    if q > 1 {
      MulAtLeast(q - 1, radix);
      assert q * radix == (q - 1) * radix + radix;
    }
  }

  /** The digits of n in the order the loop writes them: least significant first, at least one. */
  function LowFirst(n: nat, radix: nat): (d: seq<char>)
    requires ValidRadix(radix)
    ensures 1 <= |d| && forall i :: 0 <= i < |d| ==> Alnum(d[i])
    decreases n
  {
    DivideByRadix(n, radix);
    [DigitChar(n % radix)] + if n / radix == 0 then [] else LowFirst(n / radix, radix)
  }

  /** The digits of n, most significant first. */
  function Digits(n: nat, radix: nat): (d: seq<char>)
    requires ValidRadix(radix)
    ensures 1 <= |d| && forall i :: 0 <= i < |d| ==> Alnum(d[i])
  {
    ReverseIndex(LowFirst(n, radix));
    Reverse(LowFirst(n, radix))
  }

  /** Read left to right, the digits are those of n / radix followed by the last digit. */
  lemma DigitsStep(n: nat, radix: nat)
    requires ValidRadix(radix)
    ensures n < radix ==> Digits(n, radix) == [DigitChar(n)]
    ensures n >= radix ==> Digits(n, radix) == Digits(n / radix, radix) + [DigitChar(n % radix)]
  {
    DivideByRadix(n, radix);
    ReverseAppend([DigitChar(n % radix)], if n / radix == 0 then [] else LowFirst(n / radix, radix));
  }

  /** The magnitude of a value, as itoa takes it after noting the sign. */
  function Magnitude(x: int): (m: nat)
    ensures m == x || m == -x
  {
    if x < 0 then -x else x
  }

  /** The text itoa writes: a '-' for a negative value, then the digits of its magnitude. */
  function Spelled(target: int, radix: nat): (s: seq<char>)
    requires ValidRadix(radix)
    ensures NUL !in s && 1 <= |s|
  {
    var d := Digits(Magnitude(target), radix);
    assert forall i :: 0 <= i < |d| ==> d[i] != NUL;
    (if target < 0 then ['-'] else []) + d
  }

  /** What the loop leaves before strrev: the digits least significant first, then the sign. */
  function Unreversed(target: int, radix: nat): (s: seq<char>)
    requires ValidRadix(radix)
    ensures NUL !in s
  {
    var low := LowFirst(Magnitude(target), radix);
    assert forall i :: 0 <= i < |low| ==> low[i] != NUL;
    low + if target < 0 then ['-'] else []
  }

  /** Reversing what the loop leaves gives the text itoa promises. */
  lemma SpelledReversed(target: int, radix: nat)
    requires ValidRadix(radix)
    ensures Spelled(target, radix) == Reverse(Unreversed(target, radix))
  {
    ReverseAppend(LowFirst(Magnitude(target), radix), if target < 0 then ['-'] else []);
  }

  /** d with the n elements from position at reversed. */
  function Reversed(d: seq<char>, at: nat, n: nat): (r: seq<char>)
    requires at + n <= |d|
    ensures |r| == |d|
  {
    d[..at] + Reverse(d[at..at + n]) + d[at + n..]
  }

  lemma ReversedIndex(d: seq<char>, at: nat, n: nat)
    requires at + n <= |d|
    ensures forall k :: 0 <= k < |d| ==> Reversed(d, at, n)[k] == if at <= k < at + n then d[2 * at + n - 1 - k] else d[k]
  {
    ReverseIndex(d[at..at + n]);
  }

  /** memrev undoes itself. */
  lemma ReversedInvolutive(d: seq<char>, at: nat, n: nat)
    requires at + n <= |d|
    ensures Reversed(Reversed(d, at, n), at, n) == d
  {
    var x := Reverse(d[at..at + n]);
    var r := d[..at] + x + d[at + n..];
    assert r[..at] == d[..at] && r[at..at + n] == x && r[at + n..] == d[at + n..];
    ReverseInvolutive(d[at..at + n]);
    assert d == d[..at] + d[at..at + n] + d[at + n..];
  }

  /** Reversing the C string at position at is copying its reverse over it. */
  lemma ReversedText(d: seq<char>, at: nat)
    requires at <= |d| && NUL in d[at..]
    ensures at + |Text(d[at..])| < |d|
    ensures Reversed(d, at, Len(d[at..])) == Copied(d, at, Reverse(Text(d[at..])))
  {
    var n := Len(d[at..]);
    assert d[at..][n] == NUL;
    assert d[at..at + n] == Text(d[at..]);
    assert d[at + n..] == [NUL] + d[at + n + 1..];
  }

  /** The buffer after the first i of memrev's swaps: both ends of the range, i deep, exchanged. */
  ghost function Swapped(d: seq<char>, at: nat, n: nat, i: nat): seq<char>
    requires at + n <= |d|
  {
    seq(|d|, k requires 0 <= k < |d| => if at <= k < at + n && (k < at + i || at + n - i <= k) then d[2 * at + n - 1 - k] else d[k])
  }

  lemma SwapStep(d: seq<char>, at: nat, n: nat, i: nat)
    requires at + n <= |d| && i < n / 2
    ensures Swapped(d, at, n, i)[at + i] == d[at + i] && Swapped(d, at, n, i)[at + n - i - 1] == d[at + n - i - 1]
    ensures Swapped(d, at, n, i)[at + i := d[at + n - i - 1]][at + n - i - 1 := d[at + i]] == Swapped(d, at, n, i + 1)
  {
  }

  lemma SwappedAll(d: seq<char>, at: nat, n: nat)
    requires at + n <= |d|
    ensures Swapped(d, at, n, 0) == d
    ensures Swapped(d, at, n, n / 2) == Reversed(d, at, n)
  {
    ReversedIndex(d, at, n);
  }

  /** memrev(buf + at, n): the n characters are reversed in place; n / 2 swaps are made. */
  method Memrev(buf: array<char>, at: nat, n: nat) returns (swaps: nat)
    requires at + n <= buf.Length
    modifies buf
    ensures swaps == n / 2
    ensures buf[..] == Reversed(old(buf[..]), at, n)
  {
    ghost var d := buf[..];
    SwappedAll(d, at, n);
    swaps := 0;
    while swaps < n / 2
      invariant swaps <= n / 2
      invariant buf[..] == Swapped(d, at, n, swaps)
    {
      SwapStep(d, at, n, swaps);
      var x := buf[at + swaps];
      buf[at + swaps] := buf[at + n - swaps - 1];
      buf[at + n - swaps - 1] := x;
      swaps := swaps + 1;
    }
  }

  /** strrev(s + at): the C string there is reversed in place, its NUL and the rest untouched. */
  method Strrev(s: array<char>, at: nat) returns (swaps: nat)
    requires at <= s.Length && NUL in s[at..]
    modifies s
    ensures at + |old(Text(s[at..]))| < s.Length
    ensures s[..] == Copied(old(s[..]), at, Reverse(old(Text(s[at..]))))
  {
    ghost var d := s[..];
    var n := Strlen(s, at);
    swaps := Memrev(s, at, n);
    ReversedText(d, at);
  }

  /** The digit loop of itoa: LowFirst(t) is written from buf + at on, nothing else changes. */
  method WriteLowFirst(buf: array<char>, at: nat, t: nat, radix: nat) returns (pos: nat)
    requires ValidRadix(radix) && at + |LowFirst(t, radix)| <= buf.Length
    modifies buf
    ensures pos == at + |LowFirst(t, radix)|
    ensures buf[..] == Overwritten(old(buf[..]), at, LowFirst(t, radix))
  {
    ghost var d := buf[..];
    ghost var low := LowFirst(t, radix);
    OverwrittenNothing(d, at);
    assert low[..0] == [];
    var rest: nat := t;
    pos := at;
    while true
      invariant at <= pos <= at + |low| && LowFirst(rest, radix) == low[pos - at..]
      invariant buf[..] == Overwritten(d, at, low[..pos - at])
      decreases rest
    {
      ghost var i := pos - at;
      DigitStep(rest, radix, low, i);
      var digit, next := rest % radix, rest / radix;
      ghost var before := buf[..];
      StoreChar(buf, pos, DigitChar(digit));
      WrittenStep(d, at, low, i, before, buf[..]);
      pos := pos + 1;
      if next == 0 {
        return;
      }
      rest := next;
    }
  }

  /** One stored digit extends the written prefix of low; the last one completes it. */
  lemma WrittenStep(d: seq<char>, at: nat, low: seq<char>, i: nat, before: seq<char>, after: seq<char>)
    requires i < |low| && at + |low| <= |d|
    requires before == Overwritten(d, at, low[..i]) && after == before[at + i := low[i]]
    ensures after == Overwritten(d, at, low[..i + 1])
    ensures i + 1 == |low| ==> after == Overwritten(d, at, low)
  {
    OverwrittenStep(d, at, low, i);
    assert i + 1 == |low| ==> low[..i + 1] == low;
  }

  /** One turn of the digit loop: the digit it writes and the digits still to come. */
  lemma DigitStep(rest: nat, radix: nat, low: seq<char>, i: nat)
    requires ValidRadix(radix) && i <= |low| && LowFirst(rest, radix) == low[i..]
    ensures i < |low| && rest % radix < radix && low[i] == DigitChar(rest % radix)
    ensures rest / radix == 0 <==> i + 1 == |low|
    ensures rest / radix != 0 ==> 0 <= rest / radix < rest && LowFirst(rest / radix, radix) == low[i + 1..]
  {
    DivideByRadix(rest, radix);
    assert LowFirst(rest, radix)[0] == DigitChar(rest % radix);
    if rest / radix != 0 {
      assert low[i + 1..] == low[i..][1..];
    }
  }

  /** The part of itoa before strrev: digits least significant first, the sign, the NUL. */
  method WriteUnreversed(target: int, buf: array<char>, at: nat, radix: nat) returns (pos: nat)
    requires ValidRadix(radix) && at + |Unreversed(target, radix)| < buf.Length
    modifies buf
    ensures pos == at + |Unreversed(target, radix)|
    ensures buf[..] == Copied(old(buf[..]), at, Unreversed(target, radix))
  {
    ghost var d := buf[..];
    ghost var low, u := LowFirst(Magnitude(target), radix), Unreversed(target, radix);
    pos := WriteLowFirst(buf, at, Magnitude(target), radix);
    if target < 0 {
      ghost var before := buf[..];
      StoreChar(buf, pos, '-');
      AppendWritten(d, at, low, '-', before, buf[..]);
      pos := pos + 1;
    }
    assert buf[..] == Overwritten(d, at, u);
    ghost var before := buf[..];
    StoreChar(buf, pos, NUL);
    AppendWritten(d, at, u, NUL, before, buf[..]);
    CopiedIsOverwritten(d, at, u);
  }

  /** The text of `target` in `radix`, written at buf + at with its NUL: the digit loop, then strrev. */
  method WriteSpelled(target: int, buf: array<char>, at: nat, radix: nat) returns (pos: nat)
    requires ValidRadix(radix) && at + |Spelled(target, radix)| < buf.Length
    modifies buf
    ensures pos == at + |Spelled(target, radix)|
    ensures buf[..] == Copied(old(buf[..]), at, Spelled(target, radix))
  {
    ghost var text := Unreversed(target, radix);
    SpelledReversed(target, radix);
    pos := WriteUnreversed(target, buf, at, radix);
    ghost var mid := buf[..];
    CopiedText(old(buf[..]), at, text);
    assert buf[at..] == mid[at..];
    var _ := Strrev(buf, at);
    CopiedTwice(old(buf[..]), at, text, Reverse(text));
  }

  /**
   * itoa of src/stdlib.c writing at buf + at: (char*)-1 for a radix outside 2..36,
   * otherwise the text and its NUL are written and the pointer returned is one past the NUL.
   * The 64-bit target must not be INT64_MIN, whose negation overflows.
   */
  method Itoa(target: int, buf: array<char>, at: nat, radix: u32) returns (end: Option<nat>)
    requires -0x7FFF_FFFF_FFFF_FFFF <= target <= 0x7FFF_FFFF_FFFF_FFFF
    requires ValidRadix(radix) ==> at + |Spelled(target, radix)| < buf.Length
    modifies buf
    ensures !ValidRadix(radix) ==> end.None? && buf[..] == old(buf[..])
    ensures ValidRadix(radix) ==> end == Some(at + |Spelled(target, radix)| + 1)
    ensures ValidRadix(radix) ==> buf[..] == Copied(old(buf[..]), at, Spelled(target, radix))
  {
    if radix < 2 || radix > 36 {
      return None;
    }
    var pos := WriteSpelled(target, buf, at, radix);
    return Some(pos + 1);
  }
}
