/**
 * The byte and C-string routines of src/lib/string.c. A C string is a `char` array
 * holding a NUL; a pointer into the middle of a buffer is the pair (array, offset).
 * A `char` stands for a byte. The model does not restrict characters to 0..255; on
 * those values comparing two `char`s is the unsigned byte comparison strcmp and memcmp
 * perform.
 */
module Strings {
  import opened CInt
  import opened Wrappers

  const NUL: char := 0 as char

  // ---- Specification functions -------------------------------------------------------------------

  /** strlen: the position of the first NUL. */
  function Len(s: seq<char>): (n: nat)
    requires NUL in s
    ensures n < |s| && s[n] == NUL && NUL !in s[..n]
  {
    if s[0] == NUL then 0
    else
      var n := 1 + Len(s[1..]);
      assert s[..n] == [s[0]] + s[1..][..n - 1];
      n
  }

  /** The characters of the C string held in `s`: everything before the first NUL. */
  function Text(s: seq<char>): (t: seq<char>)
    requires NUL in s
    ensures NUL !in t && |t| < |s| && s[..|t| + 1] == t + [NUL]
  {
    s[..Len(s)]
  }

  /** A NUL no later than the first one is the first one. */
  lemma FirstNul(s: seq<char>, i: nat)
    requires NUL in s && i <= Len(s) && s[i] == NUL
    ensures i == Len(s)
  {
  }

  /** A buffer that begins with t and a NUL holds the C string t. */
  lemma TextOf(s: seq<char>, t: seq<char>)
    requires NUL !in t && |t| < |s| && s[..|t| + 1] == t + [NUL]
    ensures NUL in s && Text(s) == t
  {
    assert s[|t|] == NUL;
    var n := Len(s);
    assert forall k :: 0 <= k < |t| ==> s[k] == t[k];
    assert forall k :: 0 <= k < n ==> s[k] != NUL;
  }

  /** memcmp's answer: -1, 0 or 1 from the first differing byte, as unsigned values. */
  function Compare(x: seq<byte>, y: seq<byte>): (r: int)
    requires |x| == |y|
    ensures r == -1 || r == 0 || r == 1
    ensures r == 0 <==> x == y
  {
    if x == [] then 0
    else if x[0] < y[0] then -1
    else if x[0] > y[0] then 1
    else
      var r := Compare(x[1..], y[1..]);
      assert x == [x[0]] + x[1..] && y == [y[0]] + y[1..];
      r
  }

  /** Swapping the operands of memcmp negates the answer. */
  lemma {:induction false} CompareAntisymmetric(x: seq<byte>, y: seq<byte>)
    requires |x| == |y|
    ensures Compare(y, x) == -Compare(x, y)
  {
    if x != [] && x[0] == y[0] {
      CompareAntisymmetric(x[1..], y[1..]);
    }
  }

  /** memcmp answers -1 exactly when the first differing byte of x is the smaller one. */
  lemma {:induction false} CompareLess(x: seq<byte>, y: seq<byte>)
    requires |x| == |y|
    ensures Compare(x, y) == -1 <==> exists k :: 0 <= k < |x| && x[..k] == y[..k] && x[k] < y[k]
  {
    if x != [] {
      if x[0] == y[0] {
        CompareLess(x[1..], y[1..]);
        if Compare(x, y) == -1 {
          var k :| 0 <= k < |x| - 1 && x[1..][..k] == y[1..][..k] && x[1..][k] < y[1..][k];
          assert x[..k + 1] == [x[0]] + x[1..][..k] && y[..k + 1] == [y[0]] + y[1..][..k];
        }
        if exists k :: 0 <= k < |x| && x[..k] == y[..k] && x[k] < y[k] {
          var k :| 0 <= k < |x| && x[..k] == y[..k] && x[k] < y[k];
          assert k > 0;
          assert x[1..][..k - 1] == x[..k][1..] && y[1..][..k - 1] == y[..k][1..];
        }
      } else if x[0] > y[0] {
        assert forall k :: 0 < k <= |x| ==> x[..k][0] == x[0] && y[..k][0] == y[0];
      }
    }
  }

  /** strcmp's answer on the two C strings: byte order, with the end of a string below any character. */
  function StrCompare(x: seq<char>, y: seq<char>): (r: int)
    ensures r == -1 || r == 0 || r == 1
    ensures r == 0 <==> x == y
  {
    if x == [] && y == [] then 0
    else if x == [] then -1
    else if y == [] then 1
    else if x[0] < y[0] then -1
    else if x[0] > y[0] then 1
    else
      var r := StrCompare(x[1..], y[1..]);
      assert x == [x[0]] + x[1..] && y == [y[0]] + y[1..];
      r
  }

  /** Swapping the operands of strcmp negates the answer. */
  lemma {:induction false} StrCompareAntisymmetric(x: seq<char>, y: seq<char>)
    ensures StrCompare(y, x) == -StrCompare(x, y)
  {
    if x != [] && y != [] && x[0] == y[0] {
      StrCompareAntisymmetric(x[1..], y[1..]);
    }
  }

  /** A string sorts before any longer string it begins. */
  lemma {:induction false} StrComparePrefix(x: seq<char>, rest: seq<char>)
    requires rest != []
    ensures StrCompare(x, x + rest) == -1
  {
    if x != [] {
      assert (x + rest)[1..] == x[1..] + rest;
      StrComparePrefix(x[1..], rest);
    }
  }

  /**
   * The scan of _strchr from position i: the first position below `limit` holding c,
   * none once a NUL (other than c) or the limit comes first.
   */
  function Scan(s: seq<char>, c: char, limit: nat, i: nat): (r: Option<nat>)
    requires i <= |s| && (limit <= |s| || NUL in s[i..])
    ensures r.Some? ==> (i <= r.value < limit && r.value < |s| && s[r.value] == c &&
      forall k :: i <= k < r.value ==> s[k] != c && s[k] != NUL)
    ensures r.None? ==> forall k :: i <= k < limit && k < |s| && s[k] == c ==> exists j :: i <= j < k && s[j] == NUL
    decreases |s| - i
  {
    if i >= limit then None
    else if s[i] == c then Some(i)
    else if s[i] == NUL then None
    else
      assert s[i..] == [s[i]] + s[i + 1..];
      Scan(s, c, limit, i + 1)
  }

  /** strchr's answer: the position of c in the C string, the NUL itself for c == NUL, else none. */
  lemma StrchrFinds(s: seq<char>, c: char)
    requires NUL in s
    ensures var r := Scan(s, c, |s|, 0);
      (r.Some? <==> c in Text(s) || c == NUL) &&
      (r.Some? ==> s[r.value] == c && c !in Text(s)[..r.value]) &&
      (c == NUL ==> r == Some(Len(s)))
  {
    var r := Scan(s, c, |s|, 0);
    var t := Text(s);
    assert s[Len(s)] == NUL;
    if c in t {
      var k :| 0 <= k < |t| && t[k] == c;
      assert s[k] == c;
    }
    if r.Some? {
      assert forall k :: 0 <= k < r.value ==> s[k] != c;
      assert forall k :: 0 <= k < r.value ==> Text(s)[..r.value][k] == s[k];
    }
  }

  /** The scan stops at the first c when neither c nor a NUL comes before it and it is below the limit. */
  lemma {:induction false} ScanReaches(s: seq<char>, c: char, limit: nat, i: nat, m: nat)
    requires i <= m < |s| && m < limit && s[m] == c && (limit <= |s| || NUL in s[i..])
    requires forall k :: i <= k < m ==> s[k] != c && s[k] != NUL
    ensures Scan(s, c, limit, i) == Some(m)
    decreases m - i
  {
    if i < m {
      assert s[i..] == [s[i]] + s[i + 1..];
      ScanReaches(s, c, limit, i + 1, m);
    }
  }

  lemma AppendAssoc<T>(a: seq<T>, b: seq<T>, c: seq<T>)
    ensures a + b + c == a + (b + c)
  {
  }

  /** Appending four pieces one by one is appending their concatenation. */
  lemma AppendAssoc4<T>(w: seq<T>, a: seq<T>, b: seq<T>, c: seq<T>, x: seq<T>)
    ensures w + a + b + c + x == w + (a + b + c + x)
  {
    AppendAssoc(w, a, b);
    AppendAssoc(w, a + b, c);
    AppendAssoc(w, a + b + c, x);
  }

  /** Appending six pieces one by one is appending their concatenation. */
  lemma AppendAssoc6<T>(w: seq<T>, a: seq<T>, b: seq<T>, c: seq<T>, x: seq<T>, y: seq<T>, z: seq<T>)
    ensures w + a + b + c + x + y + z == w + (a + b + c + x + y + z)
  {
    AppendAssoc4(w, a, b, c, x);
    AppendAssoc(w, a + b + c + x, y);
    AppendAssoc(w, a + b + c + x + y, z);
  }

  /** What follows a prefix and one more element. */
  lemma DropFront<T>(a: seq<T>, x: T, b: seq<T>)
    ensures (a + ([x] + b))[|a| + 1..] == b
  {
  }

  /** A C string whose characters up to position k are not NUL has its NUL after position k. */
  lemma NulPast(s: seq<char>, k: nat)
    requires NUL in s && k < |s| && s[k] != NUL && forall j :: 0 <= j < k ==> s[j] != NUL
    ensures NUL in s[k + 1..]
  {
    var n := Len(s);
    assert s[n] == NUL;
    assert s[k + 1..][n - k - 1] == NUL;
  }

  /** Past a character other than NUL that the scan finds, the C string goes on. */
  lemma ScanNulPast(s: seq<char>, c: char, limit: nat)
    requires NUL in s && c != NUL
    ensures Scan(s, c, limit, 0).Some? ==> NUL in s[Scan(s, c, limit, 0).value + 1..]
  {
    var r := Scan(s, c, limit, 0);
    if r.Some? {
      NulPast(s, r.value);
    }
  }

  /** A C string that starts with characters other than NUL keeps them in front. */
  lemma TextAfter(a: seq<char>, x: seq<char>)
    requires NUL !in a && NUL in x
    ensures NUL in a + x && Text(a + x) == a + Text(x)
  {
    var t := Text(x);
    assert (a + x)[..|a| + |t| + 1] == a + x[..|t| + 1];
    TextOf(a + x, a + t);
  }

  /** Whatever follows a C string's NUL does not change the C string. */
  lemma TextKept(s: seq<char>, t: seq<char>)
    requires NUL in s
    ensures NUL in s + t && Text(s + t) == Text(s)
  {
    var x := Text(s);
    assert (s + t)[..|x| + 1] == s[..|x| + 1];
    TextOf(s + t, x);
  }

  /** The match test of strstr and _strstr: b occurs in a at position p. */
  predicate MatchAt(a: seq<char>, b: seq<char>, p: nat)
  {
    p + |b| <= |a| && a[p..p + |b|] == b
  }

  /** The first position in [from, last] where b occurs in a, if any. */
  function FirstMatch(a: seq<char>, b: seq<char>, from: nat, last: int): (r: Option<nat>)
    ensures r.Some? ==> (from <= r.value <= last && MatchAt(a, b, r.value) &&
      forall p :: from <= p < r.value ==> !MatchAt(a, b, p))
    ensures r.None? ==> forall p :: from <= p <= last ==> !MatchAt(a, b, p)
    decreases last - from
  {
    if last < from then None
    else if MatchAt(a, b, from) then Some(from)
    else FirstMatch(a, b, from + 1, last)
  }

  // ---- The routines ------------------------------------------------------------------------------

  /** strlen(s + at). */
  method Strlen(s: array<char>, at: nat) returns (len: nat)
    requires at <= s.Length && NUL in s[at..]
    ensures len == Len(s[at..])
  {
    len := 0;
    while s[at + len] != NUL
      invariant len <= Len(s[at..])
      decreases Len(s[at..]) - len
    {
      assert s[at..][len] == s[at + len];
      len := len + 1;
    }
    assert s[at..][len] == s[at + len];
  }

  /** The buffer d after the C string t and its NUL are written at position at. */
  function Copied(d: seq<char>, at: nat, t: seq<char>): (r: seq<char>)
    requires at + |t| < |d|
    ensures |r| == |d|
  {
    d[..at] + t + [NUL] + d[at + |t| + 1..]
  }

  /** The buffer d with the characters t written from position at, no NUL added. */
  function Overwritten(d: seq<char>, at: nat, t: seq<char>): (r: seq<char>)
    requires at + |t| <= |d|
    ensures |r| == |d|
  {
    d[..at] + t + d[at + |t|..]
  }

  /** Writing nothing leaves the buffer as it was. */
  lemma OverwrittenNothing(d: seq<char>, at: nat)
    requires at <= |d|
    ensures Overwritten(d, at, []) == d
  {
  }

  /** Writing u right after t is writing t + u. */
  lemma OverwrittenThen(d: seq<char>, at: nat, t: seq<char>, u: seq<char>)
    requires at + |t| + |u| <= |d|
    ensures Overwritten(Overwritten(d, at, t), at + |t|, u) == Overwritten(d, at, t + u)
  {
  }

  /** Writing y over the last character x of t + [x]. */
  lemma OverwrittenLast(d: seq<char>, at: nat, t: seq<char>, x: char, y: char)
    requires at + |t| < |d|
    ensures Overwritten(Overwritten(d, at, t + [x]), at + |t|, [y]) == Overwritten(d, at, t + [y])
  {
  }

  /** Storing the next character of t extends what is written of t by one. */
  lemma OverwrittenStep(d: seq<char>, at: nat, t: seq<char>, i: nat)
    requires i < |t| && at + |t| <= |d|
    ensures Overwritten(d, at, t[..i])[at + i := t[i]] == Overwritten(d, at, t[..i + 1])
  {
    UpdateIsOverwritten(Overwritten(d, at, t[..i]), at + i, t[i]);
    OverwrittenThen(d, at, t[..i], [t[i]]);
    assert t[..i] + [t[i]] == t[..i + 1];
  }

  /** itoa writing its text and NUL over the leftover e after w. */
  lemma CopiedOver(d: seq<char>, at: nat, w: seq<char>, e: seq<char>, n: seq<char>)
    requires |e| <= |n| + 1 && at + |w| + |n| < |d| && at + |w| + |e| <= |d|
    ensures Copied(Overwritten(d, at, w + e), at + |w|, n) == Overwritten(d, at, w + n + [NUL])
  {
    CopiedIsOverwritten(Overwritten(d, at, w + e), at + |w|, n);
    OverwrittenOver(d, at, w, e, n + [NUL]);
    AppendAssoc(w, n, [NUL]);
  }

  /** Writing u right after w covers whatever shorter leftover e followed w. */
  lemma OverwrittenOver(d: seq<char>, at: nat, w: seq<char>, e: seq<char>, u: seq<char>)
    requires |e| <= |u| && at + |w| + |u| <= |d|
    ensures Overwritten(Overwritten(d, at, w + e), at + |w|, u) == Overwritten(d, at, w + u)
  {
    var x := Overwritten(d, at, w + e);
    assert x[..at + |w|] == d[..at] + w;
    assert x[at + |w| + |u|..] == d[at + |w| + |u|..];
  }

  /** A write that starts with t and a NUL leaves the C string t at its start. */
  lemma OverwrittenText(d: seq<char>, at: nat, w: seq<char>, t: seq<char>)
    requires at + |w| <= |d| && NUL !in t && |t| < |w| && w[..|t| + 1] == t + [NUL]
    ensures NUL in Overwritten(d, at, w)[at..] && Text(Overwritten(d, at, w)[at..]) == t
  {
    var e := Overwritten(d, at, w)[at..];
    assert e[..|t| + 1] == w[..|t| + 1];
    TextOf(e, t);
  }

  /** w with its last character replaced by a NUL. */
  function Kept(w: seq<char>): (v: seq<char>)
    requires 0 < |w|
    ensures |v| == |w| && v[|v| - 1] == NUL && v[..|v| - 1] == w[..|w| - 1]
  {
    w[..|w| - 1] + [NUL]
  }

  /** A NUL written over the last character a write left. */
  lemma OverwrittenEnd(d: seq<char>, at: nat, w: seq<char>)
    requires 0 < |w| && at + |w| <= |d|
    ensures Overwritten(d, at, w)[at + |w| - 1 := NUL] == Overwritten(d, at, Kept(w))
  {
    var t := w[..|w| - 1];
    assert w == t + [w[|w| - 1]];
    UpdateIsOverwritten(Overwritten(d, at, w), at + |t|, NUL);
    OverwrittenLast(d, at, t, w[|w| - 1], NUL);
  }

  /** `*(p - 1) = 0` after a write of w that ended at p: the last character becomes the NUL. */
  method EndWrite(str: array<char>, at: nat, pos: nat, ghost d: seq<char>, ghost w: seq<char>) returns (end: nat)
    requires 0 < |w| && pos == at + |w| && |d| == str.Length && pos <= |d|
    requires str[..] == Overwritten(d, at, w)
    modifies str
    ensures end + 1 == pos
    ensures str[..] == Overwritten(d, at, Kept(w))
  {
    end := pos - 1;
    str[end] := NUL;
    OverwrittenEnd(d, at, w);
  }

  /** The same holds once the last character of such a write is replaced by a NUL. */
  lemma OverwrittenEndText(d: seq<char>, at: nat, w: seq<char>, t: seq<char>)
    requires at + |w| <= |d| && NUL !in t && |t| + 1 < |w| && w[..|t| + 1] == t + [NUL]
    ensures NUL in Overwritten(d, at, Kept(w))[at..] && Text(Overwritten(d, at, Kept(w))[at..]) == t
  {
    var v := Kept(w);
    assert v[..|t| + 1] == w[..|t| + 1];
    OverwrittenText(d, at, v, t);
  }

  /** Storing c right after the written t writes t + [c]. */
  lemma AppendWritten(d: seq<char>, at: nat, t: seq<char>, c: char, before: seq<char>, after: seq<char>)
    requires at + |t| < |d| && before == Overwritten(d, at, t) && after == before[at + |t| := c]
    ensures after == Overwritten(d, at, t + [c])
  {
    UpdateIsOverwritten(before, at + |t|, c);
    OverwrittenThen(d, at, t, [c]);
  }

  /** Stores c at buf[pos]: the buffer changes at that one position. */
  method StoreChar(buf: array<char>, pos: nat, c: char)
    requires pos < buf.Length
    modifies buf
    ensures buf[..] == old(buf[..])[pos := c]
  {
    buf[pos] := c;
  }

  /** An array element update is a one-character write. */
  lemma UpdateIsOverwritten(d: seq<char>, i: nat, c: char)
    requires i < |d|
    ensures d[i := c] == Overwritten(d, i, [c])
  {
  }

  lemma CopiedIsOverwritten(d: seq<char>, at: nat, t: seq<char>)
    requires at + |t| < |d|
    ensures Copied(d, at, t) == Overwritten(d, at, t + [NUL])
  {
  }

  /** Copied element by element. */
  lemma CopiedIndex(d: seq<char>, at: nat, t: seq<char>)
    requires at + |t| < |d|
    ensures forall k :: 0 <= k < |d| ==>
      (Copied(d, at, t)[k] == if at <= k < at + |t| then t[k - at] else if k == at + |t| then NUL else d[k])
  {
  }

  /** Copying twice at the same place, with texts of one length, leaves the second. */
  lemma CopiedTwice(d: seq<char>, at: nat, t: seq<char>, u: seq<char>)
    requires at + |t| < |d| && |t| == |u|
    ensures Copied(Copied(d, at, t), at, u) == Copied(d, at, u)
  {
  }

  /** After the copy, the C string at position at is t. */
  lemma CopiedText(d: seq<char>, at: nat, t: seq<char>)
    requires NUL !in t && at + |t| < |d|
    ensures NUL in Copied(d, at, t)[at..] && Text(Copied(d, at, t)[at..]) == t
  {
    var c := Copied(d, at, t)[at..];
    assert c[..|t| + 1] == t + [NUL];
    TextOf(c, t);
  }

  /** Writing t over the NUL of the C string in d leaves the concatenation there. */
  lemma CopiedOverEnd(d: seq<char>, t: seq<char>)
    requires NUL in d && NUL !in t && Len(d) + |t| < |d|
    ensures NUL in Copied(d, Len(d), t) && Text(Copied(d, Len(d), t)) == Text(d) + t
  {
    var c := Copied(d, Len(d), t);
    assert c[..|Text(d) + t| + 1] == Text(d) + t + [NUL];
    TextOf(c, Text(d) + t);
  }

  /** strcpy(dst + at, src): the characters of src and its NUL, and nothing else written. */
  method Strcpy(dst: array<char>, at: nat, src: array<char>)
    requires dst != src && NUL in src[..] && at + Len(src[..]) < dst.Length
    modifies dst
    ensures dst[..] == Copied(old(dst[..]), at, Text(src[..]))
  {
    ghost var n := Len(src[..]);
    var i := 0;
    while src[i] != NUL
      invariant i <= n && at + n < dst.Length
      invariant forall k :: 0 <= k < i ==> dst[at + k] == src[k]
      invariant forall k :: 0 <= k < dst.Length && !(at <= k < at + i) ==> dst[k] == old(dst[k])
      decreases n - i
    {
      dst[at + i] := src[i];
      i := i + 1;
    }
    dst[at + i] := NUL;
    ghost var c := Copied(old(dst[..]), at, Text(src[..]));
    assert forall k :: 0 <= k < dst.Length ==> dst[k] == c[k];
  }

  /** strcat: src is copied over the NUL of dst, so the C string in dst is the concatenation. */
  method Strcat(dst: array<char>, src: array<char>)
    requires dst != src && NUL in dst[..] && NUL in src[..] && Len(dst[..]) + Len(src[..]) < dst.Length
    modifies dst
    ensures dst[..] == Copied(old(dst[..]), old(Len(dst[..])), Text(src[..]))
    ensures NUL in dst[..] && Text(dst[..]) == old(Text(dst[..])) + Text(src[..])
  {
    ghost var d := dst[..];
    var n := Strlen(dst, 0);
    assert dst[0..] == d;
    Strcpy(dst, n, src);
    CopiedOverEnd(d, Text(src[..]));
  }

  /** memset: the first `size` bytes become (uint8_t) value, the rest is untouched. */
  method Memset(data: array<byte>, value: int, size: nat)
    requires size <= data.Length
    modifies data
    ensures data[..] == seq(size, _ => Wrap8(value)) + old(data[size..])
  {
    var i := 0;
    while i < size
      invariant i <= size
      invariant forall k :: 0 <= k < i ==> data[k] == Wrap8(value)
      invariant forall k :: i <= k < data.Length ==> data[k] == old(data[k])
    {
      data[i] := Wrap8(value);
      i := i + 1;
    }
    ghost var want := seq(size, _ => Wrap8(value)) + old(data[size..]);
    assert forall k :: 0 <= k < data.Length ==> data[k] == want[k];
  }

  /** memcpy: the first n bytes of dst become those of src, the rest is untouched. */
  method Memcpy(dst: array<byte>, src: array<byte>, n: nat)
    requires n <= dst.Length && n <= src.Length
    modifies dst
    ensures dst[..] == old(src[..n]) + old(dst[n..])
  {
    var i := 0;
    while i < n
      invariant i <= n
      invariant forall k :: 0 <= k < i ==> dst[k] == old(src[k])
      invariant forall k :: i <= k < dst.Length ==> dst[k] == old(dst[k])
      invariant forall k :: i <= k < src.Length ==> src[k] == old(src[k])
    {
      dst[i] := src[i];
      i := i + 1;
    }
    ghost var want := old(src[..n]) + old(dst[n..]);
    assert forall k :: 0 <= k < dst.Length ==> dst[k] == want[k];
  }

  /** memcmp over the first `size` bytes. */
  method Memcmp(a: array<byte>, b: array<byte>, size: nat) returns (r: int)
    requires size <= a.Length && size <= b.Length
    ensures r == Compare(a[..size], b[..size])
  {
    var i := 0;
    while i < size
      invariant i <= size
      invariant Compare(a[..size], b[..size]) == Compare(a[i..size], b[i..size])
    {
      assert a[i..size][1..] == a[i + 1..size] && b[i..size][1..] == b[i + 1..size];
      if a[i] < b[i] {
        return -1;
      } else if a[i] > b[i] {
        return 1;
      }
      i := i + 1;
    }
    return 0;
  }

  /** strcmp: stops at the first difference or at a NUL in both. */
  method Strcmp(a: array<char>, b: array<char>) returns (r: int)
    requires NUL in a[..] && NUL in b[..]
    ensures r == StrCompare(Text(a[..]), Text(b[..]))
  {
    ghost var x, y := Text(a[..]), Text(b[..]);
    var i := 0;
    while true
      invariant i <= |x| && i <= |y| && x[..i] == y[..i]
      invariant StrCompare(x, y) == StrCompare(x[i..], y[i..])
      decreases |x| - i
    {
      assert a[i] == (x + [NUL])[i] && b[i] == (y + [NUL])[i];
      if a[i] < b[i] {
        return -1;
      } else if a[i] > b[i] {
        return 1;
      } else if a[i] == NUL {
        return 0;
      }
      assert x[i..][1..] == x[i + 1..] && y[i..][1..] == y[i + 1..];
      assert x[..i + 1] == x[..i] + [x[i]] && y[..i + 1] == y[..i] + [y[i]];
      i := i + 1;
    }
  }

  /** _strchr(s + at, c, limit): at most `limit` characters are examined. */
  method StrchrWithin(s: array<char>, at: nat, c: char, limit: u32) returns (r: Option<nat>)
    requires at <= s.Length && (at + limit <= s.Length || NUL in s[at..])
    ensures r == Scan(s[at..], c, limit, 0)
  {
    var i: nat := 0;
    while i < limit
      invariant i <= limit && at + i <= s.Length
      invariant i <= |s[at..]| && (limit <= |s[at..]| || NUL in s[at..][i..])
      invariant Scan(s[at..], c, limit, 0) == Scan(s[at..], c, limit, i)
      decreases limit - i
    {
      assert s[at..][i] == s[at + i];
      if s[at + i] == c {
        return Some(i);
      } else if s[at + i] == NUL {
        return None;
      }
      assert s[at..][i..] == [s[at..][i]] + s[at..][i + 1..];
      i := i + 1;
    }
    return None;
  }

  /** strchr: the scan runs until c or the NUL. */
  method Strchr(s: array<char>, c: char) returns (r: Option<nat>)
    requires NUL in s[..]
    ensures r == Scan(s[..], c, |s[..]|, 0)
  {
    var i := 0;
    while true
      invariant i <= Len(s[..])
      invariant Scan(s[..], c, |s[..]|, 0) == Scan(s[..], c, |s[..]|, i)
      decreases Len(s[..]) - i
    {
      if s[i] == c {
        return Some(i);
      } else if s[i] == NUL {
        return None;
      }
      assert s[i..] == [s[i]] + s[i + 1..];
      i := i + 1;
    }
  }

  /** What comparing b against a at one start position shows. */
  datatype Probe = Matched | Differs | Ended

  /**
   * The inner loop of strstr at position p: a match, a mismatch, or the end of a
   * reached first (then no later position can match either).
   */
  method ProbeAt(a: array<char>, b: array<char>, p: nat) returns (o: Probe)
    requires NUL in a[..] && NUL in b[..] && p <= Len(a[..])
    ensures var x, y := Text(a[..]), Text(b[..]);
      (o == Matched ==> MatchAt(x, y, p)) &&
      (o == Differs ==> !MatchAt(x, y, p) && p < |x|) &&
      (o == Ended ==> forall q :: p <= q ==> !MatchAt(x, y, q))
  {
    ghost var x, y := Text(a[..]), Text(b[..]);
    var i := 0;
    while b[i] != NUL
      invariant i <= |y| && p + i <= |x|
      invariant x[p..p + i] == y[..i]
      decreases |y| - i
    {
      assert a[p + i] == (x + [NUL])[p + i] && b[i] == (y + [NUL])[i];
      if a[p + i] == NUL {
        return Ended;
      } else if a[p + i] != b[i] {
        assert p + |y| <= |x| ==> x[p..p + |y|][i] == x[p + i];
        return Differs;
      }
      assert x[p..p + i + 1] == x[p..p + i] + [x[p + i]];
      assert y[..i + 1] == y[..i] + [y[i]];
      i := i + 1;
    }
    return Matched;
  }

  /** strstr: the first position where the C string b occurs inside the C string a. */
  method Strstr(a: array<char>, b: array<char>) returns (r: Option<nat>)
    requires NUL in a[..] && NUL in b[..]
    ensures r == FirstMatch(Text(a[..]), Text(b[..]), 0, |Text(a[..])| - |Text(b[..])|)
  {
    ghost var x, y := Text(a[..]), Text(b[..]);
    var p := 0;
    while true
      invariant p <= |x|
      invariant FirstMatch(x, y, 0, |x| - |y|) == FirstMatch(x, y, p, |x| - |y|)
      decreases |x| - p
    {
      var o := ProbeAt(a, b, p);
      if o == Ended {
        return None;
      } else if o == Matched {
        return Some(p);
      }
      p := p + 1;
    }
  }

  /** The inner loop of _strstr at position j: raw characters, NULs included. */
  method ProbeRaw(a: array<char>, b: array<char>, n: nat, limit: nat, j: nat) returns (matched: bool)
    requires NUL in b[..] && n == Len(b[..]) && j + n <= limit <= a.Length
    ensures matched == MatchAt(a[..limit], Text(b[..]), j)
  {
    ghost var y := Text(b[..]);
    var i := 0;
    while b[i] != NUL
      invariant i <= n && a[j..j + i] == y[..i]
      decreases n - i
    {
      assert b[i] == (y + [NUL])[i];
      if a[j + i] != b[i] {
        assert a[..limit][j..j + n][i] == a[j + i];
        return false;
      }
      assert a[j..j + i + 1] == a[j..j + i] + [a[j + i]];
      assert y[..i + 1] == y[..i] + [y[i]];
      i := i + 1;
    }
    FirstNul(b[..], i);
    assert |y| == n && y[..n] == y;
    assert a[..limit][j..j + n] == a[j..j + n];
    return true;
  }

  /**
   * _strstr: raw characters of a are compared, NULs included, at start positions
   * 0 .. limit - strlen(b).
   */
  method StrstrWithin(a: array<char>, b: array<char>, limit: u32) returns (r: Option<nat>)
    requires NUL in b[..] && Len(b[..]) <= limit <= a.Length
    ensures r == FirstMatch(a[..limit], Text(b[..]), 0, limit - Len(b[..]))
  {
    ghost var x, y := a[..limit], Text(b[..]);
    var n := Strlen(b, 0);
    assert b[0..] == b[..];
    var j := 0;
    while j <= limit - n
      invariant j <= limit - n + 1
      invariant FirstMatch(x, y, 0, limit - n) == FirstMatch(x, y, j, limit - n)
      decreases limit - n + 1 - j
    {
      var matched := ProbeRaw(a, b, n, limit, j);
      if matched {
        return Some(j);
      }
      j := j + 1;
    }
    return None;
  }
}
