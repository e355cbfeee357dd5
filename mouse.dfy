/**
 * The PS/2 mouse of src/dev/input/mouse.c. The interrupt handler feeds the bytes the
 * mouse sends to mouse_read_packet, which collects them in packet[]: a packet starts with
 * a byte whose bit 3 is set (the bit the mouse always sets in its first byte), and holds
 * 3 bytes, or 4 for a wheel or five-button mouse. mouse_handle_packet turns a complete
 * packet into the button states and a new pointer position inside the screen.
 *
 * size_t is 32 bits wide: mouse_x and mouse_y wrap around modulo 2^32. The screen size,
 * lfb_width and lfb_height, is a parameter of mouse_handle_packet. The port reads and
 * writes of mouse_init and the other helpers are left out.
 */
module Mouse {
  import opened CInt

  /** SIZE_MAX - UINT8_MAX: positions from here on are taken for a move past the left or top edge. */
  const ResetFrom: int := 0xFFFF_FFFF - 0xFF
  const PacketCapacity := 4

  /** `(b & mask) >> k` for the single-bit mask 2^k: bit k of b. */
  function BitOf(b: byte, mask: nat): (r: byte)
    requires mask >= 1
    ensures r <= 1
  {
    b / mask % 2
  }

  /** The bit every first byte of a packet has set. */
  predicate Synced(b: byte)
  {
    BitOf(b, 0x08) == 1
  }

  /**
   * One call of mouse_read_packet, on the bytes received so far of a packet of n bytes:
   * nothing once n bytes are there, nothing for a first byte without the sync bit, the
   * byte appended otherwise.
   */
  function Accept(got: seq<byte>, n: nat, data: byte): (r: seq<byte>)
    ensures |got| >= n ==> r == got
    ensures |got| == 0 && !Synced(data) ==> r == got
    ensures |got| < n && (|got| > 0 || Synced(data)) ==> r == got + [data]
  {
    if |got| >= n then got
    else if |got| == 0 && !Synced(data) then got
    else got + [data]
  }

  /** A stream of bytes fed one after another to mouse_read_packet. */
  function Feed(got: seq<byte>, n: nat, s: seq<byte>): seq<byte>
    decreases |s|
  {
    if |s| == 0 then got else Feed(Accept(got, n, s[0]), n, s[1..])
  }

  /** The stream without the bytes before its first byte with the sync bit. */
  function Resync(s: seq<byte>): (t: seq<byte>)
    ensures |t| > 0 ==> Synced(t[0])
    ensures |t| <= |s|
    decreases |s|
  {
    if |s| == 0 then s else if Synced(s[0]) then s else Resync(s[1..])
  }

  function Min(a: int, b: int): int
  {
    if a <= b then a else b
  }

  /** Once a packet has started, the next bytes are taken as they come until it is full. */
  lemma {:induction false} FeedStarted(got: seq<byte>, n: nat, s: seq<byte>)
    requires 1 <= |got| <= n
    ensures Feed(got, n, s) == (got + s)[..Min(n, |got| + |s|)]
    decreases |s|
  {
    if |s| > 0 {
      if |got| < n {
        FeedStarted(got + [s[0]], n, s[1..]);
        assert got + [s[0]] + s[1..] == got + s;
      } else {
        FeedFull(got, n, s[1..]);
        assert (got + s)[..n] == got;
      }
    }
  }

  /** A full packet takes no more bytes. */
  lemma {:induction false} FeedFull(got: seq<byte>, n: nat, s: seq<byte>)
    requires |got| >= n
    ensures Feed(got, n, s) == got
    decreases |s|
  {
    if |s| > 0 {
      FeedFull(got, n, s[1..]);
    }
  }

  /**
   * From an empty packet, mouse_read_packet skips the bytes before the first one with the
   * sync bit and then keeps the first n bytes from there on: the packet is always aligned
   * on a first byte and never holds more than n bytes.
   */
  lemma {:induction false} FeedFromEmpty(n: nat, s: seq<byte>)
    ensures Feed([], n, s) == Resync(s)[..Min(n, |Resync(s)|)]
    decreases |s|
  {
    if |s| > 0 {
      if !Synced(s[0]) {
        FeedFromEmpty(n, s[1..]);
      } else if n == 0 {
        FeedFull([], n, s[1..]);
      } else {
        assert Accept([], n, s[0]) == [s[0]] && Resync(s) == s;
        FeedStarted([s[0]], n, s[1..]);
        assert [s[0]] + s[1..] == s;
      }
    }
  }

  /**
   * The horizontal move a packet reports: a 9-bit two's-complement value whose sign is bit
   * 4 of the first byte, and 255 more in its direction when bit 6, the X overflow bit, is set.
   */
  function XMotion(p0: byte, p1: byte): int
  {
    (if BitOf(p0, 0x10) == 1 then p1 as int - 256 else p1 as int) +
    (if BitOf(p0, 0x40) == 1 then (if BitOf(p0, 0x10) == 1 then -255 else 255) else 0)
  }

  /**
   * The vertical move on the screen, whose rows grow downward, for the upward move a packet
   * reports: sign bit 5 and overflow bit 7 of the first byte.
   */
  function YMotion(p0: byte, p2: byte): int
  {
    -(if BitOf(p0, 0x20) == 1 then p2 as int - 256 else p2 as int) +
    (if BitOf(p0, 0x80) == 1 then (if BitOf(p0, 0x20) == 1 then 255 else -255) else 0)
  }

  /** Without the overflow bit a move is one 9-bit value; with it, at most 255 further. */
  lemma MotionRange(p0: byte, p1: byte, p2: byte)
    ensures BitOf(p0, 0x40) == 0 ==> -256 <= XMotion(p0, p1) <= 255
    ensures BitOf(p0, 0x80) == 0 ==> -255 <= YMotion(p0, p2) <= 256
    ensures -511 <= XMotion(p0, p1) <= 510 && -510 <= YMotion(p0, p2) <= 511
  {
  }

  /**
   * A coordinate after a move: the size_t sum, 0 when it landed at SIZE_MAX - UINT8_MAX or
   * above, then limit - 1 (computed in size_t) when it is not below the limit.
   */
  function Placed(pos: u32, motion: int, limit: u32): u32
  {
    var v := Wrap32(pos + motion);
    var v := if v >= ResetFrom then 0 else v;
    if v >= limit then Wrap32(limit - 1) else v
  }

  /**
   * The pointer stays on the screen: below the limit whenever the limit is at least 1. A move
   * inside the screen is followed exactly, a move of up to 256 past the left or top edge
   * stops at 0, and a move past the right or bottom edge stops at the last column or row.
   */
  lemma PlacedOnScreen(pos: u32, motion: int, limit: u32)
    ensures limit >= 1 ==> Placed(pos, motion, limit) < limit
    ensures limit <= ResetFrom && 0 <= pos + motion < limit ==> Placed(pos, motion, limit) == pos + motion
    ensures limit >= 1 && -256 <= pos + motion < 0 ==> Placed(pos, motion, limit) == 0
    ensures limit >= 1 && limit <= pos + motion < ResetFrom ==> Placed(pos, motion, limit) == limit - 1
  {
    if -B32 <= pos + motion < 2 * B32 {
      WrapNear(pos + motion);
    }
    if limit >= 1 {
      WrapNear(limit - 1);
    }
  }

  /**
   * With the overflow bit, a move of 257 to 511 past the left or top edge wraps to a position
   * below SIZE_MAX - UINT8_MAX, is not reset, and ends at the far edge: limit - 1.
   */
  lemma FarPastEdge(pos: u32, motion: int, limit: u32)
    requires 1 <= limit <= B32 - 512 && -511 <= pos + motion < -256
    ensures Placed(pos, motion, limit) == limit - 1
  {
    WrapNear(pos + motion);
    WrapNear(limit - 1);
  }

  /** At the left edge, a leftward packet with the X overflow bit sends the pointer to the right edge. */
  lemma LeftOverflowJumps(width: u32)
    requires 1 <= width <= B32 - 512
    ensures XMotion(0x58, 0) == -511
    ensures Placed(0, XMotion(0x58, 0), width) == width - 1
  {
    FarPastEdge(0, XMotion(0x58, 0), width);
  }

  /**
   * mouse_buttons[]: left, right and middle from bits 0 to 2 of the first byte, the fourth
   * and fifth buttons from bits 4 and 5 of the fourth.
   */
  function Buttons(p0: byte, p3: byte): (b: seq<byte>)
    ensures |b| == 5 && forall k :: 0 <= k < 5 ==> b[k] <= 1
    ensures b[0] + 2 * b[1] + 4 * b[2] == p0 % 8
    ensures b[3] + 2 * b[4] == p3 / 16 % 4
  {
    LowBits(p0);
    HighBits(p3);
    [BitOf(p0, 0x01), BitOf(p0, 0x02), BitOf(p0, 0x04), BitOf(p3, 0x10), BitOf(p3, 0x20)]
  }

  /** Bits 0 to 2 of a byte put back together are its three low bits. */
  lemma LowBits(b: byte)
    ensures BitOf(b, 0x01) + 2 * BitOf(b, 0x02) + 4 * BitOf(b, 0x04) == b % 8
  {
    var q, a := b / 8, b % 8;
    DivMod(b / 2, 4, q, a / 2);
    DivMod(b / 4, 2, q, a / 4);
  }

  /** Bits 4 and 5 of a byte put back together are its bits 4 and 5. */
  lemma HighBits(b: byte)
    ensures BitOf(b, 0x10) + 2 * BitOf(b, 0x20) == b / 16 % 4
  {
    var h := b / 16;
    DivMod(b, 0x20, h / 2, b % 16 + h % 2 * 16);
  }

  /**
   * The statements of mouse_handle_packet for one axis: the move added to the size_t
   * coordinate, the overflow correction added when its bit is set, the reset near SIZE_MAX
   * and the clamp to limit - 1.
   */
  method MoveAxis(pos: u32, move: int, overflow: bool, correction: int, limit: u32) returns (r: u32)
    ensures r == Placed(pos, move + (if overflow then correction else 0), limit)
  {
    r := Wrap32(pos + move);
    if overflow {
      r := Wrap32(r + correction);
      WrapAdd(pos + move, correction);
    }
    if r >= ResetFrom {
      r := 0;
    }
    if r >= limit {
      r := Wrap32(limit - 1);
    }
  }

  /** The state of the mouse driver: the packet being received and what the last packet set. */
  class Driver {
    var packet: array<byte>
    var packetIndex: nat
    var packetBytes: nat
    var x: u32
    var y: u32
    var lastX: u32
    var lastY: u32
    var buttons: seq<byte>
    var dirty: bool

    /** packet[] has room for 4 bytes, no more are expected, and a started packet starts with a synced byte. */
    predicate Valid()
      reads this, packet
    {
      && packet.Length == PacketCapacity
      && packetBytes <= PacketCapacity
      && packetIndex <= PacketCapacity
      && (packetIndex > 0 ==> Synced(packet[0]))
      && |buttons| == 5
    }

    /** The bytes of the packet received so far. */
    function Received(): seq<byte>
      reads this, packet
      requires Valid()
    {
      packet[..packetIndex]
    }

    /** The static initial values: everything 0, packet_bytes included until mouse_init. */
    constructor()
      ensures Valid() && fresh(packet)
      ensures Received() == [] && packetBytes == 0
      ensures x == 0 && y == 0 && lastX == 0 && lastY == 0 && !dirty
    {
      packet := new byte[PacketCapacity](_ => 0);
      packetIndex, packetBytes := 0, 0;
      x, y, lastX, lastY := 0, 0, 0, 0;
      buttons := [0, 0, 0, 0, 0];
      dirty := false;
    }

    /** The last line of mouse_init: 4-byte packets for a wheel (ID 3) or five-button (ID 4) mouse. */
    method SetPacketBytes(wheel: byte, extButtons: byte)
      requires Valid()
      modifies this
      ensures Valid() && Received() == old(Received())
      ensures packetBytes == if wheel == 0x03 || extButtons == 0x04 then 4 else 3
      ensures x == old(x) && y == old(y) && lastX == old(lastX) && lastY == old(lastY)
      ensures buttons == old(buttons) && dirty == old(dirty)
    {
      packetBytes := if wheel == 0x03 || extButtons == 0x04 then 4 else 3;
    }

    /**
     * mouse_read_packet with the byte read from port 0x60: the byte joins the packet unless
     * the packet is complete or the byte would start a packet without the sync bit. Only
     * packet[packet_index] changes, and nothing is stored at packet_bytes or beyond.
     */
    method ReadPacket(data: byte)
      requires Valid()
      modifies this, packet
      ensures Valid()
      ensures Received() == Accept(old(Received()), packetBytes, data)
      ensures packetIndex == old(packetIndex) ==> packet[..] == old(packet[..])
      ensures packetIndex != old(packetIndex) ==>
        packetIndex == old(packetIndex) + 1 <= packetBytes && packet[..] == old(packet[..])[old(packetIndex) := data]
      ensures packetBytes == old(packetBytes) && x == old(x) && y == old(y)
      ensures lastX == old(lastX) && lastY == old(lastY) && buttons == old(buttons) && dirty == old(dirty)
    {
      if packetIndex >= packetBytes {
        return;
      }
      if packetIndex == 0 && BitOf(data, 0x08) == 0 {
        return;
      }
      packet[packetIndex] := data;
      packetIndex := packetIndex + 1;
      assert packet[..packetIndex] == old(packet[..packetIndex]) + [data];
    }

    /**
     * mouse_handle_packet with the screen size: nothing before the packet is complete;
     * then the buttons, the last position, the new position on the screen, an empty
     * packet and the dirty flag.
     */
    method HandlePacket(width: u32, height: u32)
      requires Valid()
      modifies this
      ensures Valid() && packet == old(packet) && packetBytes == old(packetBytes)
      ensures old(packetIndex) < old(packetBytes) ==>
        packetIndex == old(packetIndex) && x == old(x) && y == old(y) && lastX == old(lastX) &&
        lastY == old(lastY) && buttons == old(buttons) && dirty == old(dirty)
      ensures old(packetIndex) >= old(packetBytes) ==>
        && buttons == Buttons(packet[0], packet[3])
        && lastX == old(x) && lastY == old(y)
        && x == Placed(old(x), XMotion(packet[0], packet[1]), width)
        && y == Placed(old(y), YMotion(packet[0], packet[2]), height)
        && packetIndex == 0 && dirty
    {
      if packetIndex < packetBytes {
        return;
      }
      var p0, p1, p2, p3 := packet[0], packet[1], packet[2], packet[3];
      buttons := Buttons(p0, p3);
      lastX, lastY := x, y;
      var xSign, ySign, xOver, yOver := BitOf(p0, 0x10) == 1, BitOf(p0, 0x20) == 1, BitOf(p0, 0x40) == 1, BitOf(p0, 0x80) == 1;
      var dx := if xSign then p1 as int - 256 else p1 as int;
      var ox := if xSign then -255 else 255;
      var dy := if ySign then p2 as int - 256 else p2 as int;
      var oy := if ySign then 255 else -255;
      assert dx + (if xOver then ox else 0) == XMotion(p0, p1);
      assert -dy + (if yOver then oy else 0) == YMotion(p0, p2);
      x := MoveAxis(x, dx, xOver, ox, width);
      y := MoveAxis(y, -dy, yOver, oy, height);
      packetIndex := 0;
      dirty := true;
    }
  }
}
