/**
 * Text forms of link and network addresses, src/net/addr.c: ethtoa writes a MAC
 * address as six two-digit hex octets joined by ':', ip4toa an IPv4 address as four
 * decimal octets joined by '.', ip4ptoa appends ":port"; atoip4 and atoip4p read
 * them back. An address is its sequence of octets in memory order.
 */
module Addr {
  import opened CInt
  import opened Wrappers
  import opened Strings
  import opened Stdlib
  import BootUtil

  /** How one octet is written: hex, with a '0' in front below 0x10, or decimal. */
  function Field(b: byte, hex: bool): seq<char>
  {
    (if hex && b < 0x10 then ['0'] else []) + Digits(b, if hex then 16 else 10)
  }

  /** An octet's characters are digits and letters, never NUL nor a separator. */
  lemma FieldChars(b: byte, hex: bool)
    ensures forall k :: 0 <= k < |Field(b, hex)| ==> Alnum(Field(b, hex)[k])
    ensures NUL !in Field(b, hex) && '.' !in Field(b, hex) && ':' !in Field(b, hex)
  {
    var d := Digits(b, if hex then 16 else 10);
    assert forall k :: 0 <= k < |d| ==> Alnum(d[k]);
  }

  function Separator(hex: bool): char
  {
    if hex then ':' else '.'
  }

  /** The first n octets written one after another, each followed by the separator. */
  function Joined(bs: seq<byte>, n: nat, hex: bool): (j: seq<char>)
    requires n <= |bs|
    ensures hex ==> |j| == 3 * n
    ensures !hex ==> 2 * n <= |j| <= 4 * n
  {
    if n == 0 then []
    else
      FieldLength(bs[n - 1], hex);
      Joined(bs, n - 1, hex) + Field(bs[n - 1], hex) + [Separator(hex)]
  }

  /** The address text: all octets joined, with the last separator dropped. */
  function AddrText(bs: seq<byte>, hex: bool): (t: seq<char>)
    requires |bs| > 0
    ensures |t| + 1 == |Joined(bs, |bs|, hex)|
  {
    var j := Joined(bs, |bs|, hex);
    j[..|j| - 1]
  }

  /** Decimal octets take one to three digits, hex octets always two characters. */
  lemma FieldLength(b: byte, hex: bool)
    ensures hex ==> |Field(b, hex)| == 2
    ensures !hex ==> 1 <= |Field(b, hex)| <= 3
  {
    var r := if hex then 16 else 10;
    DivideByRadix(b, r);
    DigitsStep(b, r);
    if b >= r {
      DivideByRadix(b / r, r);
      DigitsStep(b / r, r);
      if b / r >= r {
        DivideByRadix(b / r / r, r);
        DigitsStep(b / r / r, r);
      }
    }
  }

  /** The optional '0' and then the kernel's itoa: the pointer returned is one past the NUL. */
  method PutField(b: byte, hex: bool, str: array<char>, pos: nat) returns (next: nat)
    requires pos + |Field(b, hex)| < str.Length
    modifies str
    ensures next == pos + |Field(b, hex)| + 1
    ensures str[..] == Overwritten(old(str[..]), pos, Field(b, hex) + [NUL])
  {
    ghost var d, digits := str[..], Digits(b, if hex then 16 else 10);
    assert Spelled(b, if hex then 16 else 10) == digits;
    var p := pos;
    if hex && b < 0x10 {
      str[p] := '0';
      UpdateIsOverwritten(d, pos, '0');
      p := p + 1;
    }
    ghost var mid := str[..];
    var end := Stdlib.Itoa(b, str, p, if hex then 16 else 10);
    next := end.value;
    CopiedIsOverwritten(mid, p, digits);
    if hex && b < 0x10 {
      OverwrittenThen(d, pos, ['0'], digits + [NUL]);
      assert ['0'] + (digits + [NUL]) == Field(b, hex) + [NUL];
    } else {
      assert Field(b, hex) == digits;
    }
  }

  /** One octet and the separator after it, as the source means it. */
  method PutSeparated(b: byte, hex: bool, str: array<char>, pos: nat) returns (next: nat)
    requires pos + |Field(b, hex)| < str.Length
    modifies str
    ensures next == pos + |Field(b, hex)| + 1
    ensures str[..] == Overwritten(old(str[..]), pos, Field(b, hex) + [Separator(hex)])
  {
    next := PutField(b, hex, str, pos);
    ghost var mid := str[..];
    str[next - 1] := Separator(hex);
    UpdateIsOverwritten(mid, next - 1, Separator(hex));
    OverwrittenLast(old(str[..]), pos, Field(b, hex), NUL, Separator(hex));
  }

  /**
   * The loop of ethtoa (hex) and ip4toa (decimal) as the source means it: each octet
   * goes right after the previous separator, and the last separator becomes the NUL.
   * The pointer returned is the one at the NUL.
   */
  method Join(bs: seq<byte>, hex: bool, str: array<char>, at: nat) returns (end: nat)
    requires 0 < |bs| && (hex ==> at + 3 * |bs| <= str.Length) && (!hex ==> at + 4 * |bs| <= str.Length)
    modifies str
    ensures end == at + |AddrText(bs, hex)|
    ensures str[..] == Copied(old(str[..]), at, AddrText(bs, hex))
  {
    ghost var d := str[..];
    var pos := JoinFields(bs, hex, str, at);
    end := EndWrite(str, at, pos, d, Joined(bs, |bs|, hex));
    JoinEnd(d, at, bs, hex);
  }

  /** The loop of Join: every octet with its separator after it. */
  method JoinFields(bs: seq<byte>, hex: bool, str: array<char>, at: nat) returns (pos: nat)
    requires (hex ==> at + 3 * |bs| <= str.Length) && (!hex ==> at + 4 * |bs| <= str.Length)
    modifies str
    ensures pos == at + |Joined(bs, |bs|, hex)| && pos <= str.Length
    ensures str[..] == Overwritten(old(str[..]), at, Joined(bs, |bs|, hex))
  {
    ghost var d := str[..];
    OverwrittenNothing(d, at);
    pos := at;
    var i := 0;
    while i < |bs|
      invariant i <= |bs| && |d| == str.Length && pos == at + |Joined(bs, i, hex)| <= str.Length
      invariant str[..] == Overwritten(d, at, Joined(bs, i, hex))
    {
      pos := JoinStep(bs, i, hex, str, at, d, pos);
      i := i + 1;
    }
  }

  /** One turn of the loop of Join: octet i and its separator follow the octets before it. */
  method JoinStep(bs: seq<byte>, i: nat, hex: bool, str: array<char>, at: nat, ghost d: seq<char>, pos: nat)
    returns (next: nat)
    requires i < |bs| && |d| == str.Length
    requires (hex ==> at + 3 * |bs| <= str.Length) && (!hex ==> at + 4 * |bs| <= str.Length)
    requires pos == at + |Joined(bs, i, hex)| && str[..] == Overwritten(d, at, Joined(bs, i, hex))
    modifies str
    ensures next == at + |Joined(bs, i + 1, hex)|
    ensures str[..] == Overwritten(d, at, Joined(bs, i + 1, hex))
  {
    ghost var j, f := Joined(bs, i, hex), Field(bs[i], hex) + [Separator(hex)];
    assert Joined(bs, i + 1, hex) == j + f;
    FieldLength(bs[i], hex);
    next := PutSeparated(bs[i], hex, str, pos);
    OverwrittenThen(d, at, j, f);
  }

  /** Putting the NUL over the last separator leaves the address text as a C string. */
  lemma JoinEnd(d: seq<char>, at: nat, bs: seq<byte>, hex: bool)
    requires 0 < |bs| && at + |Joined(bs, |bs|, hex)| <= |d|
    ensures Overwritten(d, at, Kept(Joined(bs, |bs|, hex))) == Copied(d, at, AddrText(bs, hex))
  {
    var j, t := Joined(bs, |bs|, hex), AddrText(bs, hex);
    assert Kept(j) == t + [NUL];
    CopiedIsOverwritten(d, at, t);
  }

  /** What the first n octets leave as written: their characters, itoa's NUL, then the separator. */
  function Stuck(bs: seq<byte>, n: nat, hex: bool): (j: seq<char>)
    requires n <= |bs|
    ensures hex ==> |j| == 4 * n
    ensures !hex ==> 3 * n <= |j| <= 5 * n
  {
    if n == 0 then []
    else
      FieldLength(bs[n - 1], hex);
      Stuck(bs, n - 1, hex) + (Field(bs[n - 1], hex) + [NUL] + [Separator(hex)])
  }

  /** As written, the buffer starts with the first octet and its NUL and ends with a separator. */
  lemma {:induction false} StuckEnds(bs: seq<byte>, n: nat, hex: bool)
    requires 0 < n <= |bs|
    ensures var j := Stuck(bs, n, hex); |Field(bs[0], hex)| + 2 <= |j| && j[|j| - 1] == Separator(hex)
    ensures var j := Stuck(bs, n, hex); j[..|Field(bs[0], hex)| + 1] == Field(bs[0], hex) + [NUL]
  {
    if n > 1 {
      StuckEnds(bs, n - 1, hex);
    }
  }

  /**
   * The same loop as written: the kernel's itoa returns the pointer one past its NUL, so
   * each separator lands after a NUL and the C string left at str + at is the first octet alone.
   */
  method JoinAsWritten(bs: seq<byte>, hex: bool, str: array<char>, at: nat) returns (end: nat)
    requires 0 < |bs| && (hex ==> at + 4 * |bs| <= str.Length) && (!hex ==> at + 5 * |bs| <= str.Length)
    modifies str
    ensures end + 1 == at + |Stuck(bs, |bs|, hex)|
    ensures str[..] == Overwritten(old(str[..]), at, Kept(Stuck(bs, |bs|, hex)))
    ensures NUL in str[at..] && Text(str[at..]) == Field(bs[0], hex)
  {
    ghost var d := str[..];
    var pos := StuckFields(bs, hex, str, at);
    end := EndWrite(str, at, pos, d, Stuck(bs, |bs|, hex));
    StuckText(d, at, bs, hex);
  }

  /** The loop as written: every octet with its NUL and then its separator. */
  method StuckFields(bs: seq<byte>, hex: bool, str: array<char>, at: nat) returns (pos: nat)
    requires (hex ==> at + 4 * |bs| <= str.Length) && (!hex ==> at + 5 * |bs| <= str.Length)
    modifies str
    ensures pos == at + |Stuck(bs, |bs|, hex)| && pos <= str.Length
    ensures str[..] == Overwritten(old(str[..]), at, Stuck(bs, |bs|, hex))
  {
    ghost var d := str[..];
    OverwrittenNothing(d, at);
    pos := at;
    var i := 0;
    while i < |bs|
      invariant i <= |bs| && |d| == str.Length && pos == at + |Stuck(bs, i, hex)| <= str.Length
      invariant str[..] == Overwritten(d, at, Stuck(bs, i, hex))
    {
      pos := StuckStep(bs, i, hex, str, at, d, pos);
      i := i + 1;
    }
  }

  /** One turn of the loop as written: octet i, itoa's NUL, then the separator after it. */
  method StuckStep(bs: seq<byte>, i: nat, hex: bool, str: array<char>, at: nat, ghost d: seq<char>, pos: nat)
    returns (next: nat)
    requires i < |bs| && |d| == str.Length
    requires (hex ==> at + 4 * |bs| <= str.Length) && (!hex ==> at + 5 * |bs| <= str.Length)
    requires pos == at + |Stuck(bs, i, hex)| && str[..] == Overwritten(d, at, Stuck(bs, i, hex))
    modifies str
    ensures next == at + |Stuck(bs, i + 1, hex)|
    ensures str[..] == Overwritten(d, at, Stuck(bs, i + 1, hex))
  {
    ghost var j, f := Stuck(bs, i, hex), Field(bs[i], hex) + [NUL];
    FieldLength(bs[i], hex);
    var n := PutField(bs[i], hex, str, pos);
    ghost var mid := str[..];
    str[n] := Separator(hex);
    UpdateIsOverwritten(mid, n, Separator(hex));
    OverwrittenThen(Overwritten(d, at, j), pos, f, [Separator(hex)]);
    OverwrittenThen(d, at, j, f + [Separator(hex)]);
    next := n + 1;
  }

  /** What is left as written holds, as a C string, the first octet alone. */
  lemma StuckText(d: seq<char>, at: nat, bs: seq<byte>, hex: bool)
    requires 0 < |bs| && at + |Stuck(bs, |bs|, hex)| <= |d|
    ensures NUL in Overwritten(d, at, Kept(Stuck(bs, |bs|, hex)))[at..]
    ensures Text(Overwritten(d, at, Kept(Stuck(bs, |bs|, hex)))[at..]) == Field(bs[0], hex)
  {
    StuckEnds(bs, |bs|, hex);
    FieldChars(bs[0], hex);
    OverwrittenEndText(d, at, Stuck(bs, |bs|, hex), Field(bs[0], hex));
  }

  /** Every octet after the first adds at least two characters to the joined text. */
  lemma {:induction false} JoinedAfterFirst(bs: seq<byte>, n: nat, hex: bool)
    requires 0 < n <= |bs|
    ensures |Joined(bs, n, hex)| >= |Field(bs[0], hex)| + 1 + 2 * (n - 1)
  {
    if n > 1 {
      JoinedAfterFirst(bs, n - 1, hex);
      FieldLength(bs[n - 1], hex);
    }
  }

  /** With two octets or more the address text is longer than its first octet. */
  lemma AsWrittenDropsOctets(bs: seq<byte>, hex: bool)
    requires |bs| >= 2
    ensures |Field(bs[0], hex)| < |AddrText(bs, hex)|
  {
    JoinedAfterFirst(bs, |bs|, hex);
  }

  /** ethtoa: the six octets as "xx:xx:xx:xx:xx:xx"; the pointer returned is at the NUL. */
  method Ethtoa(addr: seq<byte>, str: array<char>, at: nat) returns (end: nat)
    requires |addr| == 6 && at + 18 <= str.Length
    modifies str
    ensures end == at + 17
    ensures str[..] == Copied(old(str[..]), at, AddrText(addr, true))
  {
    end := Join(addr, true, str, at);
  }

  /** ip4toa: the four octets in decimal joined by '.'; the pointer returned is at the NUL. */
  method Ip4toa(ip: seq<byte>, str: array<char>, at: nat) returns (end: nat)
    requires |ip| == 4 && at + 16 <= str.Length
    modifies str
    ensures 7 <= end - at <= 15 && end == at + |AddrText(ip, false)|
    ensures str[..] == Copied(old(str[..]), at, AddrText(ip, false))
  {
    end := Join(ip, false, str, at);
  }

  /** ip4ptoa: the address, ':' and the port in decimal; the pointer returned is one past the NUL. */
  method Ip4ptoa(ip: seq<byte>, port: u16, str: array<char>, at: nat) returns (end: nat)
    requires |ip| == 4 && at + 22 <= str.Length
    modifies str
    ensures end == at + |PortText(ip, port)| + 1
    ensures str[..] == Copied(old(str[..]), at, PortText(ip, port))
  {
    ghost var d := str[..];
    var p := Ip4toa(ip, str, at);
    ghost var t := AddrText(ip, false);
    ghost var digits := Digits(port, 10);
    assert Spelled(port, 10) == digits;
    PortLength(port);
    CopiedIsOverwritten(d, at, t);
    ghost var full := str[..];
    str[p] := ':';
    UpdateIsOverwritten(full, p, ':');
    OverwrittenLast(d, at, t, NUL, ':');
    ghost var mid := str[..];
    assert mid == Overwritten(d, at, t + [':']);
    var e := Stdlib.Itoa(port, str, p + 1, 10);
    end := e.value;
    CopiedIsOverwritten(mid, p + 1, digits);
    OverwrittenThen(d, at, t + [':'], digits + [NUL]);
    assert t + [':'] + (digits + [NUL]) == PortText(ip, port) + [NUL];
    CopiedIsOverwritten(d, at, PortText(ip, port));
  }

  function PortText(ip: seq<byte>, port: u16): (t: seq<char>)
    requires |ip| == 4
    ensures |t| <= 21
  {
    PortLength(port);
    AddrText(ip, false) + [':'] + Digits(port, 10)
  }

  /** A 16-bit port takes at most five decimal digits. */
  lemma PortLength(port: u16)
    ensures |Digits(port, 10)| <= 5
  {
    var n: nat := port;
    var k := 0;
    while k < 4 && n >= 10
      invariant 0 <= k <= 4 && n <= 65535 && |Digits(port, 10)| == |Digits(n, 10)| + k
      invariant k >= 1 ==> n <= 6553
      invariant k >= 2 ==> n <= 655
      invariant k >= 3 ==> n <= 65
      invariant k >= 4 ==> n <= 6
    {
      DivideByRadix(n, 10);
      DigitsStep(n, 10);
      n, k := n / 10, k + 1;
    }
    DigitsStep(n, 10);
  }

  /**
   * What atoip4 makes of the C string s, reading octet i on with ip holding the octets so
   * far: the octet is atoi of the text (stored in a uint8_t); after the fourth it succeeds;
   * otherwise the next '.' must come within four characters, and the octet after it is read.
   * A failure keeps the octets already stored.
   */
  function Octets(s: seq<char>, i: nat, ip: seq<byte>): (r: (seq<byte>, bool))
    requires i < 4 && |ip| == 4 && NUL in s
    ensures |r.0| == 4
    decreases 4 - i
  {
    var read := ip[i := Wrap8(BootUtil.Parse(Text(s), 10, 0, false))];
    if i == 3 then (read, true)
    else match Scan(s, '.', 4, 0)
      case None => (read, false)
      case Some(k) =>
        ScanNulPast(s, '.', 4);
        Octets(s[k + 1..], i + 1, read)
  }

  /** The three ways one octet of atoip4 ends. */
  lemma OctetsStep(s: seq<char>, i: nat, ip: seq<byte>, v: int)
    requires i < 4 && |ip| == 4 && NUL in s && v == BootUtil.Parse(Text(s), 10, 0, false)
    ensures i == 3 ==> Octets(s, i, ip) == (ip[i := Wrap8(v)], true)
    ensures i < 3 && Scan(s, '.', 4, 0).None? ==> Octets(s, i, ip) == (ip[i := Wrap8(v)], false)
    ensures i < 3 && Scan(s, '.', 4, 0).Some? ==> var k := Scan(s, '.', 4, 0).value;
      NUL in s[k + 1..] && Octets(s, i, ip) == Octets(s[k + 1..], i + 1, ip[i := Wrap8(v)])
  {
    ScanNulPast(s, '.', 4);
  }

  /** Once octet i reads as b and its '.' is at position k, atoip4 goes on with the text after it. */
  lemma OctetsAdvance(s: seq<char>, i: nat, ip: seq<byte>, b: byte, k: nat, t: seq<char>)
    requires i < 3 && |ip| == 4 && NUL in s && BootUtil.Parse(Text(s), 10, 0, false) == b
    requires Scan(s, '.', 4, 0) == Some(k) && s[k + 1..] == t
    ensures NUL in t && Octets(s, i, ip) == Octets(t, i + 1, ip[i := b])
  {
    OctetsStep(s, i, ip, b);
  }

  /** atoip4(s + at, ip): the octets are stored in ip; 1 (true) once all four are read. */
  method Atoip4(s: array<char>, at: nat, ip: array<byte>) returns (ok: bool)
    requires at <= s.Length && NUL in s[at..] && ip.Length == 4
    modifies ip
    ensures (ip[..], ok) == Octets(s[at..], 0, old(ip[..]))
  {
    var p := at;
    var i := 0;
    while true
      invariant i < 4 && at <= p <= s.Length && NUL in s[p..]
      invariant Octets(s[p..], i, ip[..]) == Octets(s[at..], 0, old(ip[..]))
      decreases 4 - i
    {
      var done, next;
      done, ok, next := ReadOctet(s, p, i, ip);
      if done {
        return;
      }
      p, i := next, i + 1;
    }
  }

  /** One turn of the loop of atoip4: octet i is read and stored, then the '.' after it is looked for. */
  method ReadOctet(s: array<char>, p: nat, i: nat, ip: array<byte>) returns (done: bool, ok: bool, next: nat)
    requires i < 4 && p <= s.Length && NUL in s[p..] && ip.Length == 4
    modifies ip
    ensures done ==> (ip[..], ok) == Octets(s[p..], i, old(ip[..]))
    ensures !done ==> i < 3 && p < next <= s.Length && NUL in s[next..]
    ensures !done ==> Octets(s[next..], i + 1, ip[..]) == Octets(s[p..], i, old(ip[..]))
  {
    ghost var t, before := s[p..], ip[..];
    assert ValidRadix(10);
    var v := BootUtil.Atoi(s, p, 10);
    OctetsStep(t, i, before, v);
    ip[i] := Wrap8(v);
    assert ip[..] == before[i := Wrap8(v)];
    if i == 3 {
      return true, true, p;
    }
    var found := StrchrWithin(s, p, '.', 4);
    if found.None? {
      return true, false, p;
    }
    var k := found.value;
    assert Octets(t, i, before) == Octets(t[k + 1..], i + 1, before[i := Wrap8(v)]);
    assert t[k + 1..] == s[p + k + 1..];
    return false, false, p + k + 1;
  }

  /**
   * What atoip4p makes of the C string s with the port pointer holding port: the address
   * as atoip4 reads it, then the first ':' within sixteen characters of the start and
   * atoi of what follows it, stored in a uint16_t. A failure leaves the port as it was.
   */
  function Endpoint(s: seq<char>, ip: seq<byte>, port: u16): (r: (seq<byte>, u16, bool))
    requires |ip| == 4 && NUL in s
    ensures |r.0| == 4 && (!r.2 ==> r.1 == port)
  {
    var (read, ok) := Octets(s, 0, ip);
    if !ok then (read, port, false)
    else match Scan(s, ':', 16, 0)
      case None => (read, port, false)
      case Some(k) =>
        ScanNulPast(s, ':', 16);
        (read, Wrap16(BootUtil.Parse(Text(s[k + 1..]), 10, 0, false)), true)
  }

  /** The three ways atoip4p ends. */
  lemma EndpointCases(s: seq<char>, ip: seq<byte>, port: u16)
    requires |ip| == 4 && NUL in s
    ensures var (read, ok) := Octets(s, 0, ip);
      !ok ==> Endpoint(s, ip, port) == (read, port, false)
    ensures var (read, ok) := Octets(s, 0, ip);
      ok && Scan(s, ':', 16, 0).None? ==> Endpoint(s, ip, port) == (read, port, false)
    ensures var (read, ok) := Octets(s, 0, ip);
      ok && Scan(s, ':', 16, 0).Some? ==> var k := Scan(s, ':', 16, 0).value;
      NUL in s[k + 1..] && Endpoint(s, ip, port) == (read, Wrap16(BootUtil.Parse(Text(s[k + 1..]), 10, 0, false)), true)
  {
    ScanNulPast(s, ':', 16);
  }

  /** atoip4p(s + at, ip, &port): the address into ip, the port returned with 1 (true) on success. */
  method Atoip4p(s: array<char>, at: nat, ip: array<byte>, port: u16) returns (newPort: u16, ok: bool)
    requires at <= s.Length && NUL in s[at..] && ip.Length == 4
    modifies ip
    ensures (ip[..], newPort, ok) == Endpoint(s[at..], old(ip[..]), port)
  {
    ghost var t := s[at..];
    EndpointCases(t, ip[..], port);
    ScanNulPast(t, ':', 16);
    newPort := port;
    ok := Atoip4(s, at, ip);
    if ok {
      newPort, ok := ReadPort(s, at, t, port);
    }
  }

  /**
   * The port part of atoip4p on t, the C string at s + at: the first ':' within sixteen
   * characters, then atoi of what follows it.
   */
  method ReadPort(s: array<char>, at: nat, ghost t: seq<char>, port: u16) returns (newPort: u16, ok: bool)
    requires at <= s.Length && t == s[at..] && NUL in t
    ensures Scan(t, ':', 16, 0).None? ==> !ok && newPort == port
    ensures Scan(t, ':', 16, 0).Some? ==> var k := Scan(t, ':', 16, 0).value;
      ok && NUL in t[k + 1..] && newPort == Wrap16(BootUtil.Parse(Text(t[k + 1..]), 10, 0, false))
  {
    ScanNulPast(t, ':', 16);
    var found := StrchrWithin(s, at, ':', 16);
    if found.None? {
      return port, false;
    }
    var next := at + found.value + 1;
    ghost var rest := t[found.value + 1..];
    assert rest == s[next..];
    assert ValidRadix(10);
    var v := BootUtil.Atoi(s, next, 10);
    assert v == BootUtil.Parse(Text(rest), 10, 0, false);
    return Wrap16(v), true;
  }

  /** The four decimal octets from octet i on, joined by '.'. */
  function OctetsText(ip: seq<byte>, i: nat): seq<char>
    requires |ip| == 4 && i < 4
    decreases 4 - i
  {
    if i == 3 then Field(ip[3], false) else Field(ip[i], false) + ['.'] + OctetsText(ip, i + 1)
  }

  /** The first i octets joined, each with its '.', then the text of the others, are all four. */
  lemma {:induction false} JoinedThenOctets(ip: seq<byte>, i: nat)
    requires |ip| == 4 && i < 4
    ensures Joined(ip, i, false) + OctetsText(ip, i) == OctetsText(ip, 0)
  {
    if i > 0 {
      JoinedThenOctets(ip, i - 1);
      var j, f, o := Joined(ip, i - 1, false), Field(ip[i - 1], false), OctetsText(ip, i);
      AppendAssoc(j, f, ['.']);
      AppendAssoc(j, f + ['.'], o);
    } else {
      assert [] + OctetsText(ip, 0) == OctetsText(ip, 0);
    }
  }

  /** The text ip4toa writes is the four octets joined by '.'. */
  lemma AddrTextOctets(ip: seq<byte>)
    requires |ip| == 4
    ensures AddrText(ip, false) == OctetsText(ip, 0)
  {
    JoinedThenOctets(ip, 3);
    var j, f := Joined(ip, 3, false), Field(ip[3], false);
    assert Joined(ip, 4, false)[..|j + f|] == j + f;
  }

  /** The octets' text holds digits and '.', so neither a NUL nor a ':'. */
  lemma {:induction false} OctetsChars(ip: seq<byte>, i: nat)
    requires |ip| == 4 && i < 4
    ensures NUL !in OctetsText(ip, i) && ':' !in OctetsText(ip, i)
    decreases 4 - i
  {
    FieldChars(ip[i], false);
    if i < 3 {
      OctetsChars(ip, i + 1);
    }
  }

  /** atoi stops after the octet's digits when a '.' or a ':' follows them. */
  lemma ParseOctet(b: byte, w: seq<char>)
    requires w == [] || w[0] == '.' || w[0] == ':'
    ensures BootUtil.Parse(Field(b, false) + w, 10, 0, false) == b
  {
    assert Field(b, false) == Digits(b, 10);
    BootUtil.ParseDigits(b, w, 10, false);
    ParseStops(w, b);
  }

  /** atoi stops at the end of the text or at a separator, with what it has read so far. */
  lemma ParseStops(w: seq<char>, b: byte)
    requires w == [] || w[0] == '.' || w[0] == ':'
    ensures BootUtil.Parse(w, 10, b, false) == b
  {
    if w != [] {
      assert BootUtil.DigitValue(w[0]).None?;
      assert !BootUtil.Skipped(w[0]);
    }
  }

  /** The octets read so far followed by those still to read, before and after octet i is stored. */
  lemma Spliced(acc: seq<byte>, ip: seq<byte>, i: nat)
    requires |acc| == |ip| && i < |ip|
    ensures acc[i := ip[i]][..i + 1] + ip[i + 1..] == acc[..i] + ip[i..]
    ensures i + 1 == |ip| ==> acc[..i] + ip[i..] == acc[i := ip[i]]
  {
  }

  /**
   * atoip4 reads octets i on back from their text when a NUL or a ':' (and then a NUL)
   * follows it: every octet is stored and the answer is 1.
   */
  lemma {:induction false} OctetsRoundTrip(ip: seq<byte>, i: nat, acc: seq<byte>, u: seq<char>)
    requires |ip| == 4 && |acc| == 4 && i < 4
    requires NUL in u && (u[0] == NUL || u[0] == ':')
    ensures NUL in OctetsText(ip, i) + u
    ensures Octets(OctetsText(ip, i) + u, i, acc) == (acc[..i] + ip[i..], true)
    decreases 4 - i
  {
    if i == 3 {
      LastOctetRoundTrip(ip, acc, u);
    } else {
      OctetsRoundTrip(ip, i + 1, acc[i := ip[i]], u);
      OctetRoundTripStep(ip, i, acc, u);
    }
  }

  /** The last octet is read back when a NUL or a ':' follows it. */
  lemma LastOctetRoundTrip(ip: seq<byte>, acc: seq<byte>, u: seq<char>)
    requires |ip| == 4 && |acc| == 4
    requires NUL in u && (u[0] == NUL || u[0] == ':')
    ensures NUL in OctetsText(ip, 3) + u
    ensures Octets(OctetsText(ip, 3) + u, 3, acc) == (acc[..3] + ip[3..], true)
  {
    var f := Field(ip[3], false);
    FieldChars(ip[3], false);
    TextAfter(f, u);
    var tu := Text(u);
    if u[0] == NUL {
      TextOf(u, []);
    } else {
      assert tu[0] == u[0] by {
        assert u[..|tu| + 1] == tu + [NUL];
      }
    }
    ParseOctet(ip[3], tu);
    OctetsStep(f + u, 3, acc, ip[3]);
    Spliced(acc, ip, 3);
  }

  /** An octet followed by '.' reads back as itself. */
  lemma OctetHeadParse(b: byte, t: seq<char>)
    requires NUL in t
    ensures var s := Field(b, false) + (['.'] + t);
      NUL in s && BootUtil.Parse(Text(s), 10, 0, false) == b
  {
    var f := Field(b, false);
    FieldChars(b, false);
    TextAfter(['.'], t);
    TextAfter(f, ['.'] + t);
    ParseOctet(b, ['.'] + Text(t));
  }

  /** The '.' after an octet is within the four characters _strchr looks at, and the rest follows it. */
  lemma OctetHeadScan(b: byte, t: seq<char>)
    requires NUL in t
    ensures var s := Field(b, false) + (['.'] + t);
      NUL in s && Scan(s, '.', 4, 0) == Some(|Field(b, false)|) && s[|Field(b, false)| + 1..] == t
  {
    var f := Field(b, false);
    var s := f + (['.'] + t);
    FieldChars(b, false);
    FieldLength(b, false);
    ScanReaches(s, '.', 4, 0, |f|);
    DropFront(f, '.', t);
  }

  /** atoip4 reads an octet and its '.' and goes on with the text after them. */
  lemma OctetsOverHead(b: byte, t: seq<char>, i: nat, acc: seq<byte>)
    requires NUL in t && i < 3 && |acc| == 4
    ensures var s := Field(b, false) + (['.'] + t);
      NUL in s && Octets(s, i, acc) == Octets(t, i + 1, acc[i := b])
  {
    OctetHeadParse(b, t);
    OctetHeadScan(b, t);
    OctetsAdvance(Field(b, false) + (['.'] + t), i, acc, b, |Field(b, false)|, t);
  }

  /** The text from octet i on is that octet, its '.', and the text of the octets after it. */
  lemma OctetsTextHead(ip: seq<byte>, i: nat, u: seq<char>)
    requires |ip| == 4 && i < 3
    ensures OctetsText(ip, i) + u == Field(ip[i], false) + (['.'] + (OctetsText(ip, i + 1) + u))
  {
    var f, t := Field(ip[i], false), OctetsText(ip, i + 1) + u;
    AppendAssoc(f + ['.'], OctetsText(ip, i + 1), u);
    AppendAssoc(f, ['.'], t);
  }

  /** Octet i is read back, and the scan moves on to the octets after its '.'. */
  lemma OctetRoundTripStep(ip: seq<byte>, i: nat, acc: seq<byte>, u: seq<char>)
    requires |ip| == 4 && |acc| == 4 && i < 3 && NUL in u
    requires NUL in OctetsText(ip, i + 1) + u
    requires Octets(OctetsText(ip, i + 1) + u, i + 1, acc[i := ip[i]]) == (acc[i := ip[i]][..i + 1] + ip[i + 1..], true)
    ensures NUL in OctetsText(ip, i) + u
    ensures Octets(OctetsText(ip, i) + u, i, acc) == (acc[..i] + ip[i..], true)
  {
    var f := Field(ip[i], false);
    var t := OctetsText(ip, i + 1) + u;
    var s := OctetsText(ip, i) + u;
    OctetsTextHead(ip, i, u);
    OctetsOverHead(ip[i], t, i, acc);
    Spliced(acc, ip, i);
  }

  /** atoip4 reads back every address from the text ip4toa writes for it. */
  lemma Atoip4InvertsIp4toa(ip: seq<byte>, acc: seq<byte>, rest: seq<char>)
    requires |ip| == 4 && |acc| == 4
    ensures NUL in AddrText(ip, false) + [NUL] + rest
    ensures Octets(AddrText(ip, false) + [NUL] + rest, 0, acc) == (ip, true)
  {
    AddrTextOctets(ip);
    AppendAssoc(OctetsText(ip, 0), [NUL], rest);
    OctetsRoundTrip(ip, 0, acc, [NUL] + rest);
    assert acc[..0] + ip[0..] == ip;
  }

  /** atoip4p reads back every address and port from the text ip4ptoa writes for them. */
  lemma Atoip4pInvertsIp4ptoa(ip: seq<byte>, port: u16, acc: seq<byte>, old_port: u16, rest: seq<char>)
    requires |ip| == 4 && |acc| == 4
    ensures NUL in PortText(ip, port) + [NUL] + rest
    ensures Endpoint(PortText(ip, port) + [NUL] + rest, acc, old_port) == (ip, port, true)
  {
    PortTextSplits(ip, port, rest);
    PortTextRead(ip, port, acc, old_port, rest);
  }

  /** The same, on the text cut at the ':' before the port. */
  lemma PortTextRead(ip: seq<byte>, port: u16, acc: seq<byte>, old_port: u16, rest: seq<char>)
    requires |ip| == 4 && |acc| == 4
    ensures var split := AddrText(ip, false) + ([':'] + (Digits(port, 10) + [NUL] + rest));
      NUL in split && Endpoint(split, acc, old_port) == (ip, port, true)
  {
    var a, tail := AddrText(ip, false), Digits(port, 10) + [NUL] + rest;
    AddrBeforePort(ip, acc, tail);
    PortAfterAddr(ip, port, rest);
    EndpointRead(a + ([':'] + tail), acc, old_port, ip, |a|, port);
  }

  /** An address read whole and a ':' at k whose text after it reads as port give that address and port. */
  lemma EndpointRead(s: seq<char>, acc: seq<byte>, old_port: u16, ip: seq<byte>, k: nat, port: u16)
    requires |acc| == 4 && NUL in s && Octets(s, 0, acc) == (ip, true) && Scan(s, ':', 16, 0) == Some(k)
    requires k < |s| && NUL in s[k + 1..] && BootUtil.Parse(Text(s[k + 1..]), 10, 0, false) == port
    ensures Endpoint(s, acc, old_port) == (ip, port, true)
  {
    EndpointCases(s, acc, old_port);
  }

  /** The text ip4ptoa writes, its NUL and what follows: the address, ':', then the port's digits and the rest. */
  lemma PortTextSplits(ip: seq<byte>, port: u16, rest: seq<char>)
    requires |ip| == 4
    ensures PortText(ip, port) + [NUL] + rest == AddrText(ip, false) + ([':'] + (Digits(port, 10) + [NUL] + rest))
  {
    var a, d := AddrText(ip, false), Digits(port, 10);
    var tail := d + [NUL] + rest;
    AppendAssoc(a + [':'], d, [NUL]);
    AppendAssoc(a + [':'], d + [NUL], rest);
    AppendAssoc(a, [':'], tail);
  }

  /** atoip4 reads the address back from its text when a ':' follows it. */
  lemma AddrBeforePort(ip: seq<byte>, acc: seq<byte>, tail: seq<char>)
    requires |ip| == 4 && |acc| == 4 && NUL in tail
    ensures NUL in AddrText(ip, false) + ([':'] + tail)
    ensures Octets(AddrText(ip, false) + ([':'] + tail), 0, acc) == (ip, true)
  {
    AddrTextOctets(ip);
    OctetsRoundTrip(ip, 0, acc, [':'] + tail);
    assert acc[..0] + ip[0..] == ip;
  }

  /** After the address, the ':' is the first within sixteen characters and the port's digits follow it. */
  lemma PortAfterAddr(ip: seq<byte>, port: u16, rest: seq<char>)
    requires |ip| == 4
    ensures var a, tail := AddrText(ip, false), Digits(port, 10) + [NUL] + rest;
      var s := a + ([':'] + tail);
      NUL in s && Scan(s, ':', 16, 0) == Some(|a|) && s[|a| + 1..] == tail &&
      NUL in tail && BootUtil.Parse(Text(tail), 10, 0, false) == port
  {
    var a, d := AddrText(ip, false), Digits(port, 10);
    var tail := d + [NUL] + rest;
    var s := a + ([':'] + tail);
    AddrTextOctets(ip);
    OctetsChars(ip, 0);
    ScanReaches(s, ':', 16, 0, |a|);
    DropFront(a, ':', tail);
    PortDigitsParse(port, rest);
  }

  /** The port's digits, ended by a NUL, read back as the port. */
  lemma PortDigitsParse(port: u16, rest: seq<char>)
    ensures var tail := Digits(port, 10) + [NUL] + rest;
      NUL in tail && BootUtil.Parse(Text(tail), 10, 0, false) == port
  {
    var d := Digits(port, 10);
    var tail := d + [NUL] + rest;
    assert forall k :: 0 <= k < |d| ==> Alnum(d[k]);
    TextOf(tail, d);
    BootUtil.ParseDigits(port, [], 10, false);
    assert d + [] == d;
  }
}
