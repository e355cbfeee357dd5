/**
 * The Minecraft-protocol codecs of src/mc/mcprotocol.c: VarInts (seven bits per byte,
 * least significant group first, 0x80 on every byte but the last), length-prefixed
 * strings, big-endian fixed-width fields written at the end of the transmit buffer
 * and read from the start of a received one, and the framing of received packets.
 */
module McProtocol {
  import opened CInt
  import opened Wrappers
  import opened FrameAllocator
  import opened NetBuf

  const RX_BUF_SIZE: nat := 16384
  const B64: nat := 0x1_0000_0000_0000_0000

  // ---- VarInts -------------------------------------------------------------------

  /** mc_varlen: the number of seven-bit groups needed for `v`, at least one. */
  function VarLen(v: nat): (n: nat)
    ensures n >= 1
  {
    if v < 0x80 then 1 else 1 + VarLen(v / 0x80)
  }

  function Pow128(k: nat): (p: nat)
    ensures p >= 1
  {
    if k == 0 then 1 else 0x80 * Pow128(k - 1)
  }

  /** A value below 128^n needs at most n groups: a 32-bit value at most five. */
  lemma {:induction false} VarLenBound(v: nat, n: nat)
    requires n >= 1 && v < Pow128(n)
    ensures VarLen(v) <= n
  {
    if v >= 0x80 {
      assert v / 0x80 < Pow128(n - 1);
      VarLenBound(v / 0x80, n - 1);
    }
  }

  lemma VarLenU32(v: u32)
    ensures 1 <= VarLen(v) <= 5
  {
    assert Pow128(5) == 0x8_0000_0000;
    VarLenBound(v, 5);
  }

  /** The bytes mc_varencode writes for `v`. */
  function VarBytes(v: nat): (r: seq<byte>)
    ensures |r| == VarLen(v)
  {
    if v < 0x80 then [v] else [v % 0x80 + 0x80] + VarBytes(v / 0x80)
  }

  /** mc_varlen, with its loop. */
  method VarLength(value: u32) returns (length: nat)
    ensures length == VarLen(value) && 1 <= length <= 5
  {
    VarLenU32(value);
    length := 1;
    var v := value;
    while v >= 0x80
      invariant length + VarLen(v) == VarLen(value) + 1
      decreases v
    {
      length := length + 1;
      v := v / 0x80;
    }
  }

  /** One more group written: what is left to write shrinks by the same byte. */
  lemma VarBytesStep(written: seq<byte>, v: nat)
    requires v >= 0x80
    ensures written + VarBytes(v) == (written + [v % 0x80 + 0x80]) + VarBytes(v / 0x80)
  {
  }

  /** mc_varencode: writes the groups of `value` at `at` and returns the position after them. */
  method VarEncode(a: array<byte>, at: nat, value: u32) returns (next: nat)
    requires at + VarLen(value) <= a.Length
    modifies a
    ensures next == at + VarLen(value)
    ensures a[at..next] == VarBytes(value)
    ensures forall j :: 0 <= j < a.Length && (j < at || next <= j) ==> a[j] == old(a[j])
  {
    var v: nat := value;
    next := at;
    while v >= 0x80
      invariant at <= next && next + VarLen(v) == at + VarLen(value)
      invariant VarBytes(value) == a[at..next] + VarBytes(v)
      invariant forall j :: 0 <= j < a.Length && (j < at || next <= j) ==> a[j] == old(a[j])
      decreases v
    {
      ghost var written := a[at..next];
      VarBytesStep(written, v);
      a[next] := v % 0x80 + 0x80;
      assert a[at..next + 1] == written + [v % 0x80 + 0x80] by {
        assert a[at..next + 1] == a[at..next] + [a[next]];
      }
      next := next + 1;
      v := v / 0x80;
    }
    ghost var written := a[at..next];
    a[next] := v;
    assert a[at..next + 1] == written + [v];
    next := next + 1;
  }

  /**
   * How many bytes mc_vardecode reads from `s`, having read `k` already: it stops
   * after a byte without 0x80 or after the fifth byte, when the shift reaches 35.
   * None when `s` ends first.
   */
  function ReadLen(s: seq<byte>, k: nat): (r: Option<nat>)
    requires k <= 4
    ensures r.Some? ==> k < r.value <= 5 && r.value <= |s|
    decreases 4 - k
  {
    if k >= |s| then None
    else if s[k] < 0x80 || k == 4 then Some(k + 1)
    else ReadLen(s, k + 1)
  }

  /** The decoder's reads stay inside `s`. */
  predicate Fits(s: seq<byte>)
  {
    ReadLen(s, 0).Some?
  }

  /** The sum of the low seven bits of the first `n` bytes, group k weighted by 128^k. */
  function Groups(s: seq<byte>, n: nat): nat
    requires n <= |s|
  {
    if n == 0 then 0 else s[0] % 0x80 + 0x80 * Groups(s[1..], n - 1)
  }

  lemma {:induction false} GroupsStep(s: seq<byte>, k: nat)
    requires k < |s|
    ensures Groups(s, k + 1) == Groups(s, k) + (s[k] % 0x80) * Pow128(k)
  {
    if k > 0 {
      var g, c, p := Groups(s[1..], k - 1), s[k] % 0x80, Pow128(k - 1);
      GroupsStep(s[1..], k - 1);
      assert s[1..][k - 1] == s[k];
      Distribute(g, c, p);
    }
  }

  lemma Distribute(g: int, c: int, p: int)
    ensures 0x80 * (g + c * p) == 0x80 * g + c * (0x80 * p)
  {
  }

  lemma {:induction false} GroupsPrefix(s: seq<byte>, t: seq<byte>, n: nat)
    requires n <= |s|
    ensures Groups(s + t, n) == Groups(s, n)
  {
    if n > 0 {
      assert (s + t)[1..] == s[1..] + t;
      GroupsPrefix(s[1..], t, n - 1);
    }
  }

  lemma {:induction false} GroupsBound(s: seq<byte>, n: nat)
    requires n <= |s|
    ensures Groups(s, n) < Pow128(n)
  {
    if n > 0 {
      GroupsBound(s[1..], n - 1);
    }
  }

  /** mc_vardecode's result: the value, truncated to 32 bits, and the bytes consumed. */
  function VarDecoded(s: seq<byte>): (r: (u32, nat))
    requires Fits(s)
    ensures 1 <= r.1 <= 5 && r.1 <= |s|
  {
    var n := ReadLen(s, 0).value;
    (Wrap32(Groups(s, n)), n)
  }

  /** mc_vardecode, with its loop; `value |= group << position` adds, the groups being disjoint. */
  method VarDecode(s: seq<byte>, i: nat) returns (value: u32, next: nat)
    requires i <= |s| && Fits(s[i..])
    ensures (value, next - i) == VarDecoded(s[i..])
  {
    ghost var t := s[i..];
    value := 0;
    var position := 0;
    next := i;
    while true
      invariant i <= next <= i + 4 && next < |s| && position == 7 * (next - i)
      invariant ReadLen(t, next - i) == ReadLen(t, 0)
      invariant value == Wrap32(Groups(t, next - i))
      decreases 4 - (next - i)
    {
      var b := s[next];
      assert b == t[next - i];
      VarStep(t, next - i, value);
      value := Wrap32(value + (b % 0x80) * Pow128(next - i));
      next := next + 1;
      if b < 0x80 {
        break;
      }
      position := position + 7;
      if position >= 32 {
        break;
      }
    }
  }

  /** One turn of mc_vardecode's loop: byte k's group is added, and the loop goes on exactly while the length is not settled. */
  lemma VarStep(t: seq<byte>, k: nat, value: u32)
    requires k <= 4 && k < |t| && Fits(t) && ReadLen(t, k) == ReadLen(t, 0) && value == Wrap32(Groups(t, k))
    ensures Wrap32(value + (t[k] % 0x80) * Pow128(k)) == Wrap32(Groups(t, k + 1))
    ensures t[k] < 0x80 || k == 4 ==> ReadLen(t, 0) == Some(k + 1)
    ensures !(t[k] < 0x80 || k == 4) ==> k + 1 < |t| && ReadLen(t, k + 1) == ReadLen(t, 0)
  {
    GroupsStep(t, k);
    WrapAdd(Groups(t, k), (t[k] % 0x80) * Pow128(k));
  }

  /** The groups of an encoding add back up to the value. */
  lemma {:induction false} GroupsOfVarBytes(v: nat)
    ensures Groups(VarBytes(v), VarLen(v)) == v
  {
    if v >= 0x80 {
      var r := VarBytes(v);
      assert r[1..] == VarBytes(v / 0x80);
      GroupsOfVarBytes(v / 0x80);
      var g := Groups(r[1..], VarLen(v) - 1);
      assert g == v / 0x80;
      assert Groups(r, VarLen(v)) == r[0] % 0x80 + 0x80 * g;
      assert r[0] % 0x80 == v % 0x80;
    }
  }

  /** Every byte of an encoding but the last carries the continuation bit. */
  lemma {:induction false} VarBytesContinue(v: nat, k: nat)
    requires k < VarLen(v)
    ensures VarBytes(v)[k] >= 0x80 <==> k < VarLen(v) - 1
  {
    if v >= 0x80 && k > 0 {
      VarBytesContinue(v / 0x80, k - 1);
    }
  }

  lemma {:induction false} ReadLenOfVarBytes(v: nat, rest: seq<byte>, k: nat)
    requires k < VarLen(v) <= 5
    ensures ReadLen(VarBytes(v) + rest, k) == Some(VarLen(v))
    decreases VarLen(v) - k
  {
    var s := VarBytes(v) + rest;
    assert s[k] == VarBytes(v)[k];
    VarBytesContinue(v, k);
    if k + 1 < VarLen(v) {
      ReadLenOfVarBytes(v, rest, k + 1);
    }
  }

  /**
   * mc_vardecode(mc_varencode(v)) == v: decoding an encoding, whatever follows it,
   * gives back the value and consumes exactly mc_varlen(v) bytes.
   */
  lemma VarRoundTrip(v: u32, rest: seq<byte>)
    ensures Fits(VarBytes(v) + rest)
    ensures VarDecoded(VarBytes(v) + rest) == (v, VarLen(v))
  {
    VarLenU32(v);
    ReadLenOfVarBytes(v, rest, 0);
    GroupsOfVarBytes(v);
    GroupsPrefix(VarBytes(v), rest, VarLen(v));
    WrapNear(v);
  }

  /** The decoder never reads more than five bytes, and its value needs no more than 35 bits. */
  lemma DecodeReadsAtMostFive(s: seq<byte>)
    requires Fits(s)
    ensures VarDecoded(s).1 <= 5
    ensures Groups(s, VarDecoded(s).1) < Pow128(5)
  {
    var n := ReadLen(s, 0).value;
    GroupsBound(s, n);
    assert Pow128(n) <= Pow128(5) by {
      if n < 5 { PowMono(n, 5); }
    }
  }

  lemma {:induction false} PowMono(m: nat, n: nat)
    requires m <= n
    ensures Pow128(m) <= Pow128(n)
    decreases n
  {
    if m < n {
      PowMono(m, n - 1);
    }
  }

  // ---- strings ---------------------------------------------------------------------

  /** mc_strencode: the length as a VarInt, then the characters. */
  function StrBytes(str: seq<byte>): seq<byte>
    requires |str| < B32
  {
    VarBytes(|str|) + str
  }

  /** mc_strdecode: a VarInt length, then that many bytes; also the bytes consumed. */
  function StrDecoded(s: seq<byte>): (r: (seq<byte>, nat))
    requires Fits(s) && VarDecoded(s).1 + VarDecoded(s).0 <= |s|
    ensures r.1 == VarDecoded(s).1 + |r.0| && r.1 <= |s|
  {
    var (len, n) := VarDecoded(s);
    (s[n..n + len], n + len)
  }

  /** mc_strdecode inverts mc_strencode, whatever follows. */
  lemma StrRoundTrip(str: seq<byte>, rest: seq<byte>)
    requires |str| < B32
    ensures Fits(StrBytes(str) + rest)
    ensures VarDecoded(StrBytes(str) + rest).1 + VarDecoded(StrBytes(str) + rest).0 <= |StrBytes(str) + rest|
    ensures StrDecoded(StrBytes(str) + rest) == (str, |StrBytes(str)|)
  {
    VarRoundTrip(|str|, str + rest);
    assert StrBytes(str) + rest == VarBytes(|str|) + (str + rest);
    var s := StrBytes(str) + rest;
    var n := VarLen(|str|);
    assert s[n..n + |str|] == str;
  }

  // ---- fixed-width fields ----------------------------------------------------------

  /** mc_write32 as written: the high half is taken with `>> 8` instead of `>> 16`. */
  function Write32BytesAsWritten(x: u32): seq<byte>
  {
    BytesBE16((x / B8) % B16) + BytesBE16(x % B16)
  }

  /** 0x12345678 goes out as 34 56 56 78 and reads back as 0x34565678. */
  lemma Write32AsWrittenCorrupts()
    ensures Write32BytesAsWritten(0x1234_5678) == [0x34, 0x56, 0x56, 0x78]
    ensures BE32(Write32BytesAsWritten(0x1234_5678), 0) == 0x3456_5678 != 0x1234_5678
  {
  }

  /**
   * Whatever the value, what mc_read32 gets back from the written bytes has bits 8..23
   * in its high half, so a value survives exactly when its high half equals those bits.
   */
  lemma Write32AsWrittenReadsBack(x: u32)
    ensures BE32(Write32BytesAsWritten(x), 0) == (x / B8) % B16 * B16 + x % B16
    ensures BE32(Write32BytesAsWritten(x), 0) == x <==> x / B16 == (x / B8) % B16
  {
    var s := Write32BytesAsWritten(x);
    assert s[0..2] == BytesBE16((x / B8) % B16) && s[2..4] == BytesBE16(x % B16);
    BE16At(s, 0, (x / B8) % B16);
    BE16At(s, 2, x % B16);
    DivMod(x, B16, x / B16, x % B16);
  }

  /** The corrected mc_write32, `>> 16` for the high half, is read back exactly by mc_read32. */
  lemma Write32RoundTrip(x: u32)
    ensures BE32(BytesBE32(x), 0) == x
  {
  }

  /** A 64-bit value in network order: two 32-bit halves, high first. */
  function BytesBE64(x: nat): (r: seq<byte>)
    requires x < B64
    ensures |r| == 8
  {
    BytesBE32(x / B32) + BytesBE32(x % B32)
  }

  function BE64(s: seq<byte>, i: nat): nat
    requires i + 8 <= |s|
  {
    BE32(s, i) * B32 + BE32(s, i + 4)
  }

  /** mc_read64 of the corrected mc_write64 gives back the value. */
  lemma Write64RoundTrip(x: nat)
    requires x < B64
    ensures BE64(BytesBE64(x), 0) == x
  {
    var r := BytesBE64(x);
    assert r[4..] == BytesBE32(x % B32);
    assert BE32(r, 4) == BE32(r[4..], 0);
    assert BE32(r, 0) == BE32(BytesBE32(x / B32), 0);
  }

  /** mc_write8: one byte appended at the transmit buffer's end. */
  method Write8(tx: Buf, value: byte)
    requires tx.Valid() && tx.end < PAGE_SIZE
    modifies tx`end, tx.data
    ensures tx.Valid() && tx.start == old(tx.start) && tx.end == old(tx.end) + 1
    ensures tx.Payload() == old(tx.Payload()) + [value]
  {
    tx.data[tx.end] := value;
    tx.end := tx.end + 1;
  }

  /** Appends `bytes` one mc_write8 at a time. */
  method WriteBytes(tx: Buf, bytes: seq<byte>)
    requires tx.Valid() && tx.end + |bytes| <= PAGE_SIZE
    modifies tx`end, tx.data
    ensures tx.Valid() && tx.start == old(tx.start) && tx.end == old(tx.end) + |bytes|
    ensures tx.Payload() == old(tx.Payload()) + bytes
  {
    var k := 0;
    while k < |bytes|
      invariant 0 <= k <= |bytes| && tx.Valid() && tx.start == old(tx.start) && tx.end == old(tx.end) + k
      invariant tx.Payload() == old(tx.Payload()) + bytes[..k]
    {
      Write8(tx, bytes[k]);
      assert bytes[..k + 1] == bytes[..k] + [bytes[k]];
      k := k + 1;
    }
  }

  /** mc_write16: high byte first. */
  method Write16(tx: Buf, value: u16)
    requires tx.Valid() && tx.end + 2 <= PAGE_SIZE
    modifies tx`end, tx.data
    ensures tx.Valid() && tx.start == old(tx.start) && tx.end == old(tx.end) + 2
    ensures tx.Payload() == old(tx.Payload()) + BytesBE16(value)
  {
    Write8(tx, Hi(value));
    Write8(tx, Lo(value));
  }

  /** mc_write32 exactly as written. */
  method Write32AsWritten(tx: Buf, value: u32)
    requires tx.Valid() && tx.end + 4 <= PAGE_SIZE
    modifies tx`end, tx.data
    ensures tx.Valid() && tx.start == old(tx.start) && tx.end == old(tx.end) + 4
    ensures tx.Payload() == old(tx.Payload()) + Write32BytesAsWritten(value)
  {
    Write16(tx, (value / B8) % B16);
    Write16(tx, value % B16);
  }

  /** mc_write32 as intended: the high 16 bits, then the low 16 bits. */
  method Write32(tx: Buf, value: u32)
    requires tx.Valid() && tx.end + 4 <= PAGE_SIZE
    modifies tx`end, tx.data
    ensures tx.Valid() && tx.start == old(tx.start) && tx.end == old(tx.end) + 4
    ensures tx.Payload() == old(tx.Payload()) + BytesBE32(value)
  {
    Write16(tx, value / B16);
    Write16(tx, value % B16);
  }

  /** mc_write64: the high 32 bits, then the low 32 bits. */
  method Write64(tx: Buf, value: nat)
    requires value < B64 && tx.Valid() && tx.end + 8 <= PAGE_SIZE
    modifies tx`end, tx.data
    ensures tx.Valid() && tx.start == old(tx.start) && tx.end == old(tx.end) + 8
    ensures tx.Payload() == old(tx.Payload()) + BytesBE64(value)
  {
    Write32(tx, value / B32);
    Write32(tx, value % B32);
  }

  /** mc_write_var: a VarInt appended at the end. */
  method WriteVar(tx: Buf, value: u32)
    requires tx.Valid() && tx.end + 5 <= PAGE_SIZE
    modifies tx`end, tx.data
    ensures tx.Valid() && tx.start == old(tx.start) && tx.end == old(tx.end) + VarLen(value)
    ensures tx.Payload() == old(tx.Payload()) + VarBytes(value)
  {
    VarLenU32(value);
    WriteBytes(tx, VarBytes(value));
  }

  /** mc_write_str: a length-prefixed string appended at the end. */
  method WriteStr(tx: Buf, str: seq<byte>)
    requires tx.Valid() && tx.end + 5 + |str| <= PAGE_SIZE
    modifies tx`end, tx.data
    ensures tx.Valid() && tx.start == old(tx.start)
    ensures tx.Payload() == old(tx.Payload()) + StrBytes(str)
  {
    VarLenU32(|str|);
    WriteBytes(tx, StrBytes(str));
  }

  /** mc_read8: the byte at the start of the received packet; start moves past it. */
  method Read8(rx: Buf) returns (b: byte)
    requires rx.Valid() && rx.start < rx.end
    modifies rx`start
    ensures rx.Valid() && rx.start == old(rx.start) + 1
    ensures [b] + rx.Payload() == old(rx.Payload())
  {
    b := rx.data[rx.start];
    rx.start := rx.start + 1;
  }

  /** mc_read16: big-endian, the first byte read being the high one. */
  method Read16(rx: Buf) returns (r: u16)
    requires rx.Valid() && rx.start + 2 <= rx.end
    modifies rx`start
    ensures rx.Valid() && rx.start == old(rx.start) + 2
    ensures r == BE16(old(rx.Payload()), 0) && rx.Payload() == old(rx.Payload())[2..]
  {
    var hi := Read8(rx);
    var lo := Read8(rx);
    r := hi * B8 + lo;
  }

  /** mc_read32: two 16-bit reads, high first. */
  method Read32(rx: Buf) returns (r: u32)
    requires rx.Valid() && rx.start + 4 <= rx.end
    modifies rx`start
    ensures rx.Valid() && rx.start == old(rx.start) + 4
    ensures r == BE32(old(rx.Payload()), 0) && rx.Payload() == old(rx.Payload())[4..]
  {
    var hi := Read16(rx);
    var lo := Read16(rx);
    r := hi * B16 + lo;
  }

  /** mc_read64: two 32-bit reads, high first. */
  method Read64(rx: Buf) returns (r: nat)
    requires rx.Valid() && rx.start + 8 <= rx.end
    modifies rx`start
    ensures rx.Valid() && rx.start == old(rx.start) + 8
    ensures r == BE64(old(rx.Payload()), 0) && rx.Payload() == old(rx.Payload())[8..]
  {
    var hi := Read32(rx);
    var lo := Read32(rx);
    r := hi * B32 + lo;
  }

  /** mc_read_var: a VarInt from the start of the packet. */
  method ReadVar(rx: Buf) returns (r: u32)
    requires rx.Valid() && Fits(rx.Payload())
    modifies rx`start
    ensures rx.Valid() && (r, rx.start - old(rx.start)) == VarDecoded(old(rx.Payload()))
  {
    ghost var p := rx.Payload();
    var next;
    r, next := VarDecode(rx.data[..], rx.start);
    assert rx.data[..][rx.start..] == p + rx.data[rx.end..];
    assert ReadLen(rx.data[..][rx.start..], 0) == ReadLen(p, 0) by {
      ReadLenPrefix(p, rx.data[rx.end..], 0);
    }
    GroupsPrefix(p, rx.data[rx.end..], ReadLen(p, 0).value);
    rx.start := next;
  }

  lemma {:induction false} ReadLenPrefix(s: seq<byte>, t: seq<byte>, k: nat)
    requires k <= 4 && ReadLen(s, k).Some?
    ensures ReadLen(s + t, k) == ReadLen(s, k)
    decreases 4 - k
  {
    if !(s[k] < 0x80 || k == 4) {
      ReadLenPrefix(s, t, k + 1);
    }
  }

  // ---- framing ---------------------------------------------------------------------

  /**
   * mc_wrap_send_packet's framing: the packet id and then the length of id and body
   * are prepended as VarInts in front of the body.
   */
  function Framed(id: u32, body: seq<byte>): (f: seq<byte>)
    requires |body| + 10 < B32
    ensures |f| == VarLen(|body| + VarLen(id)) + VarLen(id) + |body|
  {
    VarBytes(|body| + VarLen(id)) + VarBytes(id) + body
  }

  /**
   * A frame built by mc_wrap_send_packet passes mc_read_packet's checks whatever bytes
   * follow it: its prefix announces its own size, and the id decodes right after it.
   */
  lemma FramedDecodes(id: u32, body: seq<byte>, rest: seq<byte>)
    requires |body| + 10 < B32
    ensures Fits(Framed(id, body) + rest) && FrameLen(Framed(id, body) + rest) == |Framed(id, body)|
    ensures Fits((Framed(id, body) + rest)[VarDecoded(Framed(id, body) + rest).1..])
    ensures VarDecoded((Framed(id, body) + rest)[VarDecoded(Framed(id, body) + rest).1..]) == (id, VarLen(id))
  {
    VarLenU32(id);
    var len := |body| + VarLen(id);
    VarLenU32(len);
    var s := Framed(id, body) + rest;
    assert Framed(id, body) == VarBytes(len) + VarBytes(id) + body;
    Regroup(VarBytes(len), VarBytes(id), body, rest);
    VarRoundTrip(len, VarBytes(id) + (body + rest));
    assert VarDecoded(s) == (len, VarLen(len));
    WrapNear(len + VarLen(len));
    assert FrameLen(s) == len + VarLen(len);
    assert s[VarLen(len)..] == VarBytes(id) + (body + rest);
    VarRoundTrip(id, body + rest);
  }

  lemma Regroup(a: seq<byte>, b: seq<byte>, c: seq<byte>, d: seq<byte>)
    ensures a + b + c + d == a + (b + (c + d))
  {
  }

  /** A slice of `s` is the concatenation of its three consecutive parts. */
  lemma Slice3(s: seq<byte>, i: nat, p: nat, q: nat, e: nat)
    requires i <= p <= q <= e <= |s|
    ensures s[i..e] == s[i..p] + s[p..q] + s[q..e]
  {
  }

  /** mc_wrap_send_packet, up to the hand-off: the frame is built in front of the body. */
  method WrapPacket(tx: Buf, id: u32)
    requires tx.Valid() && tx.start >= 10
    modifies tx`start, tx.data
    ensures tx.Valid() && tx.end == old(tx.end)
    ensures tx.Payload() == Framed(id, old(tx.Payload()))
  {
    ghost var body := tx.Payload();
    ghost var s0 := tx.start;
    VarLenU32(id);
    var idLen := VarLength(id);
    tx.start := tx.start - idLen;
    var len: u32 := tx.end - tx.start;
    VarLenU32(len);
    var lenLen := VarLength(len);
    tx.start := tx.start - lenLen;
    var p := VarEncode(tx.data, tx.start, len);
    ghost var lenBytes := tx.data[tx.start..p];
    var q := VarEncode(tx.data, p, id);
    assert q == s0;
    assert tx.data[tx.start..p] == lenBytes;
    assert tx.data[q..tx.end] == body;
    Slice3(tx.data[..], tx.start, p, q, tx.end);
  }

  /**
   * What mc_read_packet does with the segment it is given: wait for more, reject a
   * frame whose declared size disagrees with the size read from its first segment, or
   * hand the id (reduced modulo 0xFF) and the stored frame, with the offset at which
   * the packet's fields begin, to the packet's decoder.
   */
  datatype Completed = Incomplete | InvalidSize | Deliver(id: nat, frame: seq<byte>, fields: nat)

  /** The bytes a segment adds to the receive buffer: all of them, or as many as still fit. */
  function Accepted(count: nat, len: nat): (r: nat)
    requires count <= RX_BUF_SIZE
    ensures r <= len && count + r <= RX_BUF_SIZE
    ensures r == len || count + r == RX_BUF_SIZE
  {
    if RX_BUF_SIZE - (count + len) < 0 then RX_BUF_SIZE - count else len
  }

  /** The decoder cannot run off a sequence of five or more bytes. */
  lemma {:induction false} FitsLong(s: seq<byte>, k: nat)
    requires k <= 4 && |s| >= 5
    ensures ReadLen(s, k).Some?
    decreases 4 - k
  {
    if s[k] >= 0x80 && k < 4 {
      FitsLong(s, k + 1);
    }
  }

  /**
   * mc_read_packet's receive state: the bytes stored so far, the bytes seen so far and
   * the expected frame length.
   */
  class Receiver {
    const rx: array<byte>
    var rxCnt: nat
    var rxPos: nat
    var rxLen: u32

    ghost predicate Valid()
      reads this
    {
      rx.Length == RX_BUF_SIZE && rxCnt <= RX_BUF_SIZE
    }

    constructor ()
      ensures Valid() && rxCnt == 0 && rxPos == 0 && rxLen == 0
    {
      rx := new byte[RX_BUF_SIZE](_ => 0);
      rxCnt := 0;
      rxPos := 0;
      rxLen := 0;
    }

    /**
     * mc_read_packet: the first segment of a packet fixes the frame length from its
     * VarInt prefix; each segment is stored as far as the buffer allows; once that many
     * bytes have been seen, the stored frame's prefix is checked against it, the id
     * decoded and the frame delivered, and the counters return to zero.
     */
    method ReadPacket(buf: seq<byte>) returns (done: Completed)
      requires Valid() && (rxPos == 0 ==> Fits(buf))
      modifies this, rx
      ensures Valid()
      ensures rxPos == 0 <==> !done.Incomplete?
      ensures done.Incomplete? ==>
        rxCnt == old(rxCnt) + Accepted(old(rxCnt), |buf|) && rxPos == old(rxPos) + |buf| &&
        rx[..rxCnt] == old(rx[..rxCnt]) + buf[..Accepted(old(rxCnt), |buf|)] &&
        rxLen == (if old(rxPos) == 0 then FrameLen(buf) else old(rxLen))
      ensures !done.Incomplete? <==> old(rxPos) + |buf| >= (if old(rxPos) == 0 then FrameLen(buf) else old(rxLen))
      ensures !done.Incomplete? ==> rxCnt == 0 && rxLen == 0
      ensures done.Deliver? ==> done.frame == old(rx[..rxCnt]) + buf[..Accepted(old(rxCnt), |buf|)]
      ensures done.Deliver? ==> done.frame == rx[..|done.frame|] && (done.id, done.fields) == FrameId(rx[..])
      ensures done.InvalidSize? <==>
        !done.Incomplete? && FrameLen(rx[..]) != (if old(rxPos) == 0 then FrameLen(buf) else old(rxLen))
    {
      if rxPos == 0 {
        var v, n := VarDecode(buf, 0);
        VarLenU32(v);
        rxLen := Wrap32(v + VarLen(v));
      }
      var rxBytes := Store(buf);
      rxPos := rxPos + |buf|;
      if rxPos < rxLen {
        return Incomplete;
      }
      done := Dispatch();
      rxCnt := 0;
      rxPos := 0;
      rxLen := 0;
    }

    /** The memcpy into the receive buffer: as much of `buf` as fits, after what is stored. */
    method Store(buf: seq<byte>) returns (rxBytes: nat)
      requires Valid()
      modifies this`rxCnt, rx
      ensures Valid() && rxBytes == Accepted(old(rxCnt), |buf|) && rxCnt == old(rxCnt) + rxBytes
      ensures rx[..rxCnt] == old(rx[..rxCnt]) + buf[..rxBytes]
    {
      rxBytes := Accepted(rxCnt, |buf|);
      ghost var before := rx[..rxCnt];
      var k := 0;
      while k < rxBytes
        invariant 0 <= k <= rxBytes && rx[..rxCnt] == before
        invariant rx[rxCnt..rxCnt + k] == buf[..k]
        modifies rx
      {
        rx[rxCnt + k] := buf[k];
        assert rx[rxCnt..rxCnt + k + 1] == rx[rxCnt..rxCnt + k] + [buf[k]];
        k := k + 1;
      }
      assert rx[..rxCnt + rxBytes] == before + buf[..rxBytes];
      rxCnt := rxCnt + rxBytes;
    }

    /** The size check and id decoding of a complete frame; the decoder reads `rx` as it stands. */
    method Dispatch() returns (done: Completed)
      requires Valid()
      ensures !done.Incomplete?
      ensures done.Deliver? ==> done.frame == rx[..rxCnt] && (done.id, done.fields) == FrameId(rx[..])
      ensures done.InvalidSize? <==> FrameLen(rx[..]) != rxLen
    {
      FitsLong(rx[..], 0);
      var packetLen, start := VarDecode(rx[..], 0);
      VarLenU32(packetLen);
      if Wrap32(packetLen + VarLen(packetLen)) != rxLen {
        done := InvalidSize;
      } else {
        FitsLong(rx[..][start..], 0);
        var id, fields := VarDecode(rx[..], start);
        done := Deliver(id % 0xFF, rx[..rxCnt], fields);
      }
    }
  }

  /**
   * The id mc_read_packet hands on, modulo 0xFF, and the offset at which the packet's
   * fields begin: the VarInt after the length prefix, and the end of that VarInt.
   */
  function FrameId(s: seq<byte>): (r: (nat, nat))
    requires |s| >= 10
    ensures r.0 < 0xFF && 2 <= r.1 <= 10
  {
    FitsLong(s, 0);
    var start := VarDecoded(s).1;
    FitsLong(s[start..], 0);
    var (id, n) := VarDecoded(s[start..]);
    (id % 0xFF, start + n)
  }

  /**
   * A frame built by mc_wrap_send_packet is delivered with the id it was built with
   * (modulo 0xFF), its fields starting right after the two VarInts.
   */
  lemma FramedId(id: u32, body: seq<byte>, rest: seq<byte>)
    requires |body| + 10 < B32 && |Framed(id, body) + rest| >= 10
    ensures FrameId(Framed(id, body) + rest) == (id % 0xFF, VarLen(|body| + VarLen(id)) + VarLen(id))
  {
    var s := Framed(id, body) + rest;
    FramedDecodes(id, body, rest);
    VarLenU32(id);
    var len := |body| + VarLen(id);
    VarLenU32(len);
    VarRoundTrip(len, VarBytes(id) + (body + rest));
    Regroup(VarBytes(len), VarBytes(id), body, rest);
    var start := VarDecoded(s).1;
    assert start == VarLen(len);
    assert VarDecoded(s[start..]) == (id, VarLen(id));
  }

  /** The frame length a packet's first segment announces: its VarInt plus that VarInt's own length. */
  function FrameLen(s: seq<byte>): (r: u32)
    requires Fits(s)
    ensures VarDecoded(s).0 + VarLen(VarDecoded(s).0) < B32 ==> r == VarDecoded(s).0 + VarLen(VarDecoded(s).0)
  {
    Wrap32(VarDecoded(s).0 + VarLen(VarDecoded(s).0))
  }
}
