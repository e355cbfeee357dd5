/**
 * The TGA decoder of src/lib/tga.c. tga_parse reads the 18-byte header of a Truevision
 * TGA image, accepts colour-mapped (type 1), true-colour (type 2) and their run-length
 * encoded forms (types 9 and 10) at 24 or 32 bits per pixel, and writes the picture into
 * a 32-bit pixel buffer: the width and the height in its first two words, then the pixels
 * row by row from the top of the screen, each as 0xAARRGGBB.
 *
 * The file is the byte sequence the pointer reaches (it may run on past the size the
 * caller passes); the pixel buffer is an array. A read outside the file or a write
 * outside the buffer is undefined behaviour in C: the model calls that outcome Fault and
 * promises nothing about the buffer then.
 */
module Tga {
  import opened CInt
  import opened Wrappers

  const HeaderSize := 18

  /** tga_parse's outcome: 0 returned, the buffer returned, or an access out of bounds. */
  datatype Status = Rejected | Decoded | Fault

  function Width(ptr: seq<byte>): nat
    requires |ptr| >= HeaderSize
  {
    ptr[13] as nat * 0x100 + ptr[12] as nat
  }

  function Height(ptr: seq<byte>): nat
    requires |ptr| >= HeaderSize
  {
    ptr[15] as nat * 0x100 + ptr[14] as nat
  }

  /** The y origin: 0 means the rows are stored from the bottom of the picture up. */
  function Origin(ptr: seq<byte>): nat
    requires |ptr| >= HeaderSize
  {
    ptr[11] as nat * 0x100 + ptr[10] as nat
  }

  /** Where the pixels start: after the header and, when there is one, a colour map of ptr[5] entries. */
  function PixelStart(ptr: seq<byte>): nat
    requires |ptr| >= HeaderSize
  {
    (if ptr[1] != 0 then ptr[7] as nat / 8 * ptr[5] as nat else 0) + HeaderSize
  }

  /** Colour-mapped types read the entry size, the others the pixel depth. */
  predicate Mapped(ptr: seq<byte>)
    requires |ptr| >= HeaderSize
  {
    ptr[2] == 1 || ptr[2] == 9
  }

  predicate Compressed(ptr: seq<byte>)
    requires |ptr| >= HeaderSize
  {
    ptr[2] == 9 || ptr[2] == 10
  }

  function Depth(ptr: seq<byte>): nat
    requires |ptr| >= HeaderSize
  {
    if Mapped(ptr) then ptr[7] else ptr[16]
  }

  /**
   * The checks before decoding: a picture of at least one pixel, one of the four types, no
   * colour map of 256 entries or more and a colour map starting at 0 for the mapped types,
   * no colour map at all for the true-colour ones, and 24 or 32 bits per pixel.
   */
  predicate Accepted(ptr: seq<byte>)
    requires |ptr| >= HeaderSize
  {
    && Width(ptr) >= 1 && Height(ptr) >= 1
    && if ptr[2] == 1 || ptr[2] == 9 then
         ptr[6] == 0 && ptr[4] == 0 && ptr[3] == 0 && (ptr[7] == 24 || ptr[7] == 32)
       else if ptr[2] == 2 || ptr[2] == 10 then
         ptr[5] == 0 && ptr[6] == 0 && ptr[1] == 0 && (ptr[16] == 24 || ptr[16] == 32)
       else false
  }

  /** What the decoding loops use of the header. */
  datatype Geometry = Geometry(w: nat, h: nat, bottomUp: bool, mapped: bool, m: nat, depth: nat)
  {
    predicate Valid()
    {
      w >= 1 && h >= 1 && w < 0x1_0000 && h < 0x1_0000 && (depth == 24 || depth == 32) && m >= HeaderSize
    }
  }

  function GeometryOf(ptr: seq<byte>): (g: Geometry)
    requires |ptr| >= HeaderSize
    ensures Accepted(ptr) ==> g.Valid()
  {
    Geometry(Width(ptr), Height(ptr), Origin(ptr) == 0, Mapped(ptr), PixelStart(ptr), Depth(ptr))
  }

  /** The row of the file that holds screen row y: `!o ? h - y - 1 : y`. */
  function Row(g: Geometry, y: int): (r: int)
    ensures 0 <= y < g.h ==> 0 <= r < g.h
  {
    if g.bottomUp then g.h - y - 1 else y
  }

  /** Reading rows bottom-up twice gives the row back: the flip is its own inverse. */
  lemma RowInvolutive(g: Geometry, y: int)
    ensures Row(g, Row(g, y)) == y
  {
  }

  /**
   * One pixel read at j: blue, green and red from the three bytes at j, alpha from the fourth
   * at 32 bits per pixel and 0xFF at 24. The four fields do not overlap, so their `|` is their sum.
   */
  function Color(ptr: seq<byte>, j: int, depth: nat): (c: Option<u32>)
    requires depth == 24 || depth == 32
    ensures c.Some? <==> 0 <= j && j + depth / 8 <= |ptr|
    ensures c.Some? ==>
      && c.value % 0x100 == ptr[j] && c.value / 0x100 % 0x100 == ptr[j + 1]
      && c.value / 0x1_0000 % 0x100 == ptr[j + 2]
      && c.value / 0x100_0000 == (if depth == 32 then ptr[j + 3] else 0xFF)
  {
    if 0 <= j && j + depth / 8 <= |ptr| then
      var a: byte := if depth == 32 then ptr[j + 3] else 0xFF;
      ByteDigits(ptr[j], ptr[j + 1], ptr[j + 2], a);
      Some(ptr[j] as nat + ptr[j + 1] as nat * 0x100 + ptr[j + 2] as nat * 0x1_0000 + a as nat * 0x100_0000)
    else None
  }

  /**
   * Where an uncompressed image keeps screen pixel n (row n / w, column n % w): for type 1
   * the colour map entry the index byte names, for type 2 the pixel itself after the header.
   */
  function SourcePixel(ptr: seq<byte>, g: Geometry, n: nat): (c: Option<u32>)
    requires g.Valid()
  {
    Fetch(ptr, g, Row(g, n / g.w) * g.w + n % g.w)
  }

  /** The colour of the src-th pixel stored in the file. */
  function Fetch(ptr: seq<byte>, g: Geometry, src: int): (c: Option<u32>)
    requires g.Valid()
  {
    if g.mapped then
      if 0 <= g.m + src < |ptr| then Color(ptr, ptr[g.m + src] as int * (g.depth / 8) + HeaderSize, g.depth)
      else None
    else Color(ptr, g.m + src * (g.depth / 8), g.depth)
  }

  /** The pixel a row copy puts at place n: the one at src in the file goes to dst, and so on. */
  function Moved(ptr: seq<byte>, g: Geometry, src: int, dst: int, n: int): (c: Option<u32>)
    requires g.Valid()
  {
    Fetch(ptr, g, src + (n - dst))
  }

  /** Screen pixel x of row y is pixel x of file row row(y), and lies inside the picture. */
  lemma SourceAt(ptr: seq<byte>, g: Geometry, y: int, x: int)
    requires g.Valid() && 0 <= y < g.h && 0 <= x < g.w
    ensures 0 <= y * g.w + x < g.w * g.h
    ensures SourcePixel(ptr, g, y * g.w + x) == Fetch(ptr, g, Row(g, y) * g.w + x)
  {
    DivMod(y * g.w + x, g.w, y, x);
    InsideGrid(y, x, g.w, g.h);
  }

  /** Every pixel of the picture can be read from the file. */
  predicate Readable(ptr: seq<byte>, g: Geometry)
    requires g.Valid()
  {
    forall n: nat :: n < g.w * g.h ==> SourcePixel(ptr, g, n).Some?
  }

  /**
   * Types 1 and 2: the rows of the picture are copied one after another after the width and
   * the height, and the buffer past them is kept; a pixel outside the file or a buffer shorter
   * than the picture is a Fault.
   */
  function Uncompressed(ptr: seq<byte>, g: Geometry, d: seq<u32>): (r: (Status, seq<u32>))
    requires g.Valid()
    ensures r.0 != Rejected && |r.1| == |d|
    ensures r.0 == Decoded ==> |r.1| >= 2 && r.1[0] == g.w && r.1[1] == g.h
    ensures r.0 == Decoded <==> Readable(ptr, g) && |d| >= 2 + g.w * g.h
  {
    if Readable(ptr, g) && |d| >= 2 + g.w * g.h then Finish(g, Rows(ptr, g, d, g.h))
    else (Fault, d)
  }

  /** A decoded picture is in screen order, top row first: place 2 + n holds screen pixel n. */
  lemma UncompressedInside(ptr: seq<byte>, g: Geometry, d: seq<u32>, p: int)
    requires g.Valid() && Uncompressed(ptr, g, d).0 == Decoded && 2 <= p < |d| && p < 2 + g.w * g.h
    ensures SourcePixel(ptr, g, p - 2).Some? && Uncompressed(ptr, g, d).1[p] == SourcePixel(ptr, g, p - 2).value
  {
    var n: nat := p - 2;
    assert SourcePixel(ptr, g, n).Some?;
    assert Uncompressed(ptr, g, d).1[p] == Rows(ptr, g, d, g.h)[p];
    assert g.h * g.w == g.w * g.h;
    RowsAt(ptr, g, d, g.h, p);
  }

  /** A place past the picture keeps what the buffer held. */
  lemma UncompressedOutside(ptr: seq<byte>, g: Geometry, d: seq<u32>, p: int)
    requires g.Valid() && Uncompressed(ptr, g, d).0 == Decoded && 2 + g.w * g.h <= p < |d|
    ensures Uncompressed(ptr, g, d).1[p] == d[p]
  {
    assert Uncompressed(ptr, g, d).1[p] == Rows(ptr, g, d, g.h)[p];
    assert g.h * g.w == g.w * g.h;
    RowsKept(ptr, g, d, g.h, p);
  }

  /** The next pixel's place in the buffer is 2 + i, and y counts the rows started. */
  datatype Cursor = Cursor(i: int, y: int)

  /** `if (!(i % w)) { i = row(y) * w; ++y; }`: a new row starts whenever i is a multiple of w. */
  function Slot(g: Geometry, c: Cursor): Cursor
    requires g.w >= 1
  {
    if CMod(c.i, g.w) == 0 then Cursor(Row(g, c.y) * g.w, c.y + 1) else c
  }

  /** The cursor after n pixels of a run-length image. */
  predicate Tracks(g: Geometry, n: nat, c: Cursor)
    requires g.w >= 1
  {
    if n == 0 then c == Cursor(0, 0)
    else c.y == (n - 1) / g.w + 1 && c.i == Row(g, (n - 1) / g.w) * g.w + (n - 1) % g.w + 1
  }

  /** The place of the n-th pixel of a run-length stream: screen row row(n / w), column n % w. */
  function Place(g: Geometry, n: nat): int
    requires g.w >= 1
  {
    Row(g, n / g.w) * g.w + n % g.w
  }

  /** The n-th pixel of a run-length stream goes to its place, and the cursor then tracks n + 1 pixels. */
  lemma PlaceStep(g: Geometry, n: nat, c: Cursor)
    requires g.w >= 1 && Tracks(g, n, c)
    ensures Slot(g, c).i == Place(g, n)
    ensures Tracks(g, n + 1, Cursor(Slot(g, c).i + 1, Slot(g, c).y))
  {
    var w := g.w;
    if n == 0 {
      MultipleOf(0, w, 0);
    } else {
      var R := Row(g, (n - 1) / w);
      DivModNext(n, w);
      if (n - 1) % w + 1 == w {
        assert c.i == (R + 1) * w + 0;
        MultipleOf(R + 1, w, 0);
      } else {
        MultipleOf(R, w, (n - 1) % w + 1);
      }
    }
  }

  /** The pixels of the picture's area land inside the picture, below the width and the height. */
  lemma PlaceInside(g: Geometry, n: nat)
    requires g.w >= 1 && n < g.w * g.h
    ensures 0 <= Place(g, n) < g.w * g.h
  {
    QuotientBelow(n, g.w, g.h);
    var R := Row(g, n / g.w);
    MulAway(g.h - R, g.w);
    assert R * g.w + g.w <= g.h * g.w;
  }

  /** Two different pixels never share a place. */
  lemma PlaceDistinct(g: Geometry, n1: nat, n2: nat)
    requires g.w >= 1 && n1 != n2
    ensures Place(g, n1) != Place(g, n2)
  {
    var w := g.w;
    var p1, p2 := Row(g, n1 / w) * w + n1 % w, Row(g, n2 / w) * w + n2 % w;
    DivMod(p1, w, Row(g, n1 / w), n1 % w);
    DivMod(p2, w, Row(g, n2 / w), n2 % w);
    RowInvolutive(g, n1 / w);
    RowInvolutive(g, n2 / w);
    Split(n1, w);
    Split(n2, w);
  }

  /** The state of the run-length loops: m into the file, x pixels announced, k left in this packet. */
  datatype Stream = Stream(m: int, x: int, k: nat, j: int, run: bool, at: Cursor)

  function StreamStart(g: Geometry): Stream
  {
    Stream(g.m, 0, 0, 0, false, Cursor(0, 0))
  }

  /** `data[0] = w; data[1] = h;`, which needs a buffer of two words at least. */
  function Finish(g: Geometry, d: seq<u32>): (r: (Status, seq<u32>))
    requires g.w < 0x1_0000_0000 && g.h < 0x1_0000_0000
  {
    if |d| < 2 then (Fault, d) else (Decoded, d[0 := g.w][1 := g.h])
  }

  /**
   * A packet header at m: a byte above 127 starts a run of byte - 127 copies of one colour,
   * any other a raw packet of byte + 1 colours, and x counts them at once. A type 9 run reads
   * its colour map index right after the header. None when a byte lies outside the file.
   */
  function Head(ptr: seq<byte>, g: Geometry, s: Stream): (r: Option<Stream>)
    requires g.Valid() && s.m >= 0
    ensures r.Some? ==> r.value.m > s.m && 1 <= r.value.k <= 128 && r.value.x == s.x + r.value.k && r.value.at == s.at
    ensures r.None? <==> s.m >= |ptr| || (ptr[s.m] > 127 && g.mapped && s.m + 1 >= |ptr|)
  {
    if s.m >= |ptr| then None
    else
      var head := ptr[s.m] as int;
      if head > 127 then
        if g.mapped then
          if s.m + 1 >= |ptr| then None
          else Some(s.(m := s.m + 2, x := s.x + head - 127, k := head - 127,
                       j := ptr[s.m + 1] as int * (g.depth / 8) + HeaderSize, run := true))
        else Some(s.(m := s.m + 1, x := s.x + head - 127, k := head - 127, j := 0, run := true))
      else Some(s.(m := s.m + 1, x := s.x + head + 1, k := head + 1, j := 0, run := false))
  }

  /**
   * One pixel of a packet: type 9 colours are colour map entries (a raw packet reads an index
   * byte per pixel), type 10 colours are read in place and m moves past each raw colour, and
   * past a run's colour with its last pixel. The pixel goes where the cursor's slot says;
   * None when a read or the write falls outside the file or the buffer.
   */
  function Pixel(ptr: seq<byte>, g: Geometry, s: Stream, d: seq<u32>): (r: Option<(Stream, seq<u32>)>)
    requires g.Valid() && s.m >= 0 && s.k > 0
    ensures r.Some? ==> var (t, e) := r.value;
      t.m >= 0 && t.x == s.x && t.k == s.k - 1 && |e| == |d|
  {
    if g.mapped && !s.run && s.m >= |ptr| then None
    else
      var b := g.depth / 8;
      var src := if !g.mapped then s.m else if s.run then s.j else ptr[s.m] as int * b + HeaderSize;
      var m := if g.mapped then (if s.run then s.m else s.m + 1) else if !s.run || s.k == 1 then s.m + b else s.m;
      var c := Slot(g, s.at);
      match Color(ptr, src, g.depth)
      case None => None
      case Some(v) =>
        if !(0 <= 2 + c.i < |d|) then None
        else Some((s.(m := m, k := s.k - 1, at := Cursor(c.i + 1, c.y)), d[2 + c.i := v]))
  }

  /**
   * A pixel of a run-length stream that has placed n pixels goes to the n-th place and
   * changes nothing else in the buffer, and the cursor then tracks n + 1 pixels: with
   * PlaceInside and PlaceDistinct, the first w * h pixels fill the picture, each place once.
   */
  lemma PixelPlaces(ptr: seq<byte>, g: Geometry, s: Stream, d: seq<u32>, n: nat)
    requires g.Valid() && s.m >= 0 && s.k > 0 && Tracks(g, n, s.at) && Pixel(ptr, g, s, d).Some?
    ensures var (t, e) := Pixel(ptr, g, s, d).value;
      0 <= 2 + Place(g, n) < |d| && e == d[2 + Place(g, n) := e[2 + Place(g, n)]] && Tracks(g, n + 1, t.at)
  {
    PlaceStep(g, n, s.at);
  }

  /**
   * Types 9 and 10: packets while fewer than w * h pixels were announced and m is below
   * size, then the width and the height.
   */
  function Rle(ptr: seq<byte>, size: int, g: Geometry, s: Stream, d: seq<u32>): (r: (Status, seq<u32>))
    requires g.Valid() && s.m >= 0
    ensures r.0 != Rejected && |r.1| == |d|
    ensures r.0 == Decoded ==> |r.1| >= 2 && r.1[0] == g.w && r.1[1] == g.h
    decreases if s.x < g.w * g.h then g.w * g.h - s.x else 0, s.k
  {
    if s.k == 0 then
      if !(s.x < g.w * g.h && s.m < size) then Finish(g, d)
      else match Head(ptr, g, s)
        case None => (Fault, d)
        case Some(t) => Rle(ptr, size, g, t, d)
    else match Pixel(ptr, g, s, d)
      case None => (Fault, d)
      case Some((t, e)) => Rle(ptr, size, g, t, e)
  }

  /** A step of Rle with a pixel left in the packet is the step Pixel takes. */
  lemma RlePixel(ptr: seq<byte>, size: int, g: Geometry, s: Stream, d: seq<u32>)
    requires g.Valid() && s.m >= 0 && s.k > 0
    ensures Pixel(ptr, g, s, d).None? ==> Rle(ptr, size, g, s, d) == (Fault, d)
    ensures Pixel(ptr, g, s, d).Some? ==>
      Rle(ptr, size, g, s, d) == Rle(ptr, size, g, Pixel(ptr, g, s, d).value.0, Pixel(ptr, g, s, d).value.1)
  {
  }

  /**
   * tga_parse: 0 for a header it refuses, otherwise the picture of the type the header names.
   */
  function Parse(ptr: seq<byte>, size: int, d: seq<u32>): (r: (Status, seq<u32>))
    requires |ptr| >= HeaderSize
    ensures r.0 == Rejected <==> !Accepted(ptr)
    ensures Width(ptr) < 1 || Height(ptr) < 1 ==> r.0 == Rejected
    ensures ptr[2] !in {1, 2, 9, 10} ==> r.0 == Rejected
    ensures r.0 == Rejected ==> r.1 == d
    ensures |r.1| == |d|
    ensures r.0 == Decoded ==> |r.1| >= 2 && r.1[0] == Width(ptr) && r.1[1] == Height(ptr)
  {
    if !Accepted(ptr) then (Rejected, d)
    else if Compressed(ptr) then Rle(ptr, size, GeometryOf(ptr), StreamStart(GeometryOf(ptr)), d)
    else Uncompressed(ptr, GeometryOf(ptr), d)
  }

  /** The colour of an Option, 0 for none. */
  function Value(c: Option<u32>): u32
  {
    if c.Some? then c.value else 0
  }

  /** The buffer after a row copy has put its first count pixels, from src in the file to dst on the screen. */
  function Copy(ptr: seq<byte>, g: Geometry, d: seq<u32>, src: int, dst: int, count: nat): (e: seq<u32>)
    requires g.Valid()
    ensures |e| == |d|
  {
    seq(|d|, p requires 0 <= p < |d| => if 2 + dst <= p < 2 + dst + count then Value(Moved(ptr, g, src, dst, p - 2)) else d[p])
  }

  /** One more pixel of a row copy is one more place of the buffer set. */
  lemma CopyStep(ptr: seq<byte>, g: Geometry, d: seq<u32>, src: int, dst: int, count: nat)
    requires g.Valid() && 0 <= 2 + dst + count < |d|
    ensures Copy(ptr, g, d, src, dst, count + 1) ==
      Copy(ptr, g, d, src, dst, count)[2 + dst + count := Value(Moved(ptr, g, src, dst, dst + count))]
  {
  }

  /** Every one of count pixels from src in the file lies inside the file. */
  predicate Run(ptr: seq<byte>, g: Geometry, src: int, dst: int, count: nat)
    requires g.Valid()
  {
    forall n :: dst <= n < dst + count ==> Moved(ptr, g, src, dst, n).Some?
  }

  /** Every pixel of file row row(y) lies inside the file. */
  predicate RowReadable(ptr: seq<byte>, g: Geometry, y: int)
    requires g.Valid()
  {
    Run(ptr, g, Row(g, y) * g.w, y * g.w, g.w)
  }

  /** Every one of the first y file rows, in screen order, lies inside the file. */
  predicate RowsReadable(ptr: seq<byte>, g: Geometry, y: int)
    requires g.Valid()
  {
    forall y' :: 0 <= y' < y ==> RowReadable(ptr, g, y')
  }

  /** The buffer once the first y screen rows are copied. */
  function Rows(ptr: seq<byte>, g: Geometry, d0: seq<u32>, y: nat): (d: seq<u32>)
    requires g.Valid()
    ensures |d| == |d0|
  {
    if y == 0 then d0 else Copy(ptr, g, Rows(ptr, g, d0, y - 1), Row(g, y - 1) * g.w, (y - 1) * g.w, g.w)
  }

  /** One more row: the next row copy, and one more row that lies inside the file. */
  lemma RowsNext(ptr: seq<byte>, g: Geometry, d0: seq<u32>, y: nat)
    requires g.Valid()
    ensures Rows(ptr, g, d0, y + 1) == Copy(ptr, g, Rows(ptr, g, d0, y), Row(g, y) * g.w, y * g.w, g.w)
    ensures RowsReadable(ptr, g, y) && RowReadable(ptr, g, y) ==> RowsReadable(ptr, g, y + 1)
  {
  }

  /**
   * The loops of types 1 and 2: screen row y takes file row row(y), and i counts the pixels
   * written.
   */
  method DecodeUncompressed(data: array<u32>, ptr: seq<byte>, g: Geometry) returns (r: Status)
    requires g.Valid()
    modifies data
    ensures r == Uncompressed(ptr, g, old(data[..])).0
    ensures r == Decoded ==> data[..] == Uncompressed(ptr, g, old(data[..])).1
  {
    var i, y := 0, 0;
    while y < g.h
      invariant 0 <= y <= g.h && 0 <= i && i == y * g.w
      invariant y == 0 || data.Length >= 2 + i
      invariant RowsReadable(ptr, g, y)
      invariant data[..] == Rows(ptr, g, old(data[..]), y)
    {
      var ok := DecodeRow(data, ptr, g, Row(g, y) * g.w, i);
      if !ok {
        RowFault(ptr, g, y, data.Length);
        return Fault;
      }
      RowsNext(ptr, g, old(data[..]), y);
      NextMultiple(y, g.w);
      i, y := i + g.w, y + 1;
    }
    AllRowsReadable(ptr, g);
    assert g.h * g.w == g.w * g.h;
    WriteSize(data, g);
    r := Decoded;
  }

  /** `data[0] = w; data[1] = h;` */
  method WriteSize(data: array<u32>, g: Geometry)
    requires g.w < 0x1_0000_0000 && g.h < 0x1_0000_0000 && data.Length >= 2
    modifies data
    ensures data[..] == Finish(g, old(data[..])).1
  {
    data[0] := g.w;
    data[1] := g.h;
  }

  /**
   * One turn of the outer loop of types 1 and 2: the file row whose first pixel is pixel src of
   * the file goes to the screen from place 2 + start on; false when a pixel lies outside the
   * file or the buffer.
   */
  method DecodeRow(data: array<u32>, ptr: seq<byte>, g: Geometry, src: int, start: nat) returns (ok: bool)
    requires g.Valid()
    modifies data
    ensures ok ==> data.Length >= 2 + start + g.w && Run(ptr, g, src, start, g.w)
    ensures ok ==> data[..] == Copy(ptr, g, old(data[..]), src, start, g.w)
    ensures !ok ==> data.Length < 2 + start + g.w || !Run(ptr, g, src, start, g.w)
  {
    var b := g.depth / 8;
    var k := src;
    var j := g.m + k * b;
    var x := 0;
    while x < g.w
      invariant 0 <= x <= g.w && k == src + x && j == g.m + k * b
      invariant x == 0 || data.Length >= 2 + start + x
      invariant Run(ptr, g, src, start, x)
      invariant data[..] == Copy(ptr, g, old(data[..]), src, start, x)
    {
      ok := DecodePixelOf(data, ptr, g, src, start, x, k, j);
      if !ok {
        return;
      }
      CopyStep(ptr, g, old(data[..]), src, start, x);
      NextMultiple(k, b);
      x, k, j := x + 1, k + 1, j + b;
    }
    return true;
  }

  /**
   * The body of the inner loop of types 1 and 2 for screen pixel start + x: type 1 reads the
   * index byte at m + k and the colour map entry it names, type 2 reads the pixel at j.
   */
  method DecodePixelOf(data: array<u32>, ptr: seq<byte>, g: Geometry, src: int, start: nat, x: nat, k: int, j: int)
      returns (ok: bool)
    requires g.Valid() && x < g.w && k == src + x && j == g.m + k * (g.depth / 8)
    requires Run(ptr, g, src, start, x)
    modifies data
    ensures ok ==> 2 + start + x < data.Length && Run(ptr, g, src, start, x + 1)
    ensures ok ==> data[..] == old(data[..])[2 + start + x := Value(Moved(ptr, g, src, start, start + x))]
    ensures !ok ==> 2 + start + x >= data.Length || !Run(ptr, g, src, start, g.w)
  {
    var c: Option<u32>;
    if g.mapped {
      if !(0 <= g.m + k < |ptr|) {
        assert Moved(ptr, g, src, start, start + x).None?;
        return false;
      }
      c := Color(ptr, ptr[g.m + k] as int * (g.depth / 8) + HeaderSize, g.depth);
    } else {
      c := Color(ptr, j, g.depth);
    }
    assert c == Moved(ptr, g, src, start, start + x);
    if c.None? || 2 + start + x >= data.Length {
      return false;
    }
    data[2 + start + x] := c.value;
    return true;
  }

  /** A row that cannot be copied makes the picture unreadable or the buffer too short. */
  lemma RowFault(ptr: seq<byte>, g: Geometry, y: int, length: int)
    requires g.Valid() && 0 <= y < g.h
    requires length < 2 + y * g.w + g.w || !RowReadable(ptr, g, y)
    ensures !Readable(ptr, g) || length < 2 + g.w * g.h
  {
    InsideGrid(y, g.w - 1, g.w, g.h);
    if length >= 2 + y * g.w + g.w {
      var n :| y * g.w <= n < y * g.w + g.w && Moved(ptr, g, Row(g, y) * g.w, y * g.w, n).None?;
      SourceAt(ptr, g, y, n - y * g.w);
    }
  }

  /** Place p of the buffer after y rows, when p is in those rows: the pixel of the picture there. */
  lemma {:induction false} RowsAt(ptr: seq<byte>, g: Geometry, d0: seq<u32>, y: nat, p: int)
    requires g.Valid() && y <= g.h && p < |d0| && 2 <= p < 2 + y * g.w
    ensures Rows(ptr, g, d0, y)[p] == Value(SourcePixel(ptr, g, p - 2))
    decreases y
  {
    var lo := (y - 1) * g.w;
    NextMultiple(y - 1, g.w);
    assert y * g.w == lo + g.w;
    var prev := Rows(ptr, g, d0, y - 1);
    assert Rows(ptr, g, d0, y) == Copy(ptr, g, prev, Row(g, y - 1) * g.w, lo, g.w);
    if p >= 2 + lo {
      CopiedAt(ptr, g, prev, y - 1, p);
    } else {
      RowsAt(ptr, g, d0, y - 1, p);
      CopyOutside(ptr, g, prev, Row(g, y - 1) * g.w, lo, g.w, p);
    }
  }

  /** Place p of the buffer outside the first y rows is as it was. */
  lemma {:induction false} RowsKept(ptr: seq<byte>, g: Geometry, d0: seq<u32>, y: nat, p: int)
    requires g.Valid() && 0 <= p < |d0| && !(2 <= p < 2 + y * g.w)
    ensures Rows(ptr, g, d0, y)[p] == d0[p]
    decreases y
  {
    if y > 0 {
      var lo := (y - 1) * g.w;
      NextMultiple(y - 1, g.w);
      MulNonneg(y - 1, g.w);
      var prev := Rows(ptr, g, d0, y - 1);
      RowsKept(ptr, g, d0, y - 1, p);
      CopyOutside(ptr, g, prev, Row(g, y - 1) * g.w, lo, g.w, p);
    }
  }

  /** A row copy leaves every place outside the row as it was. */
  lemma CopyOutside(ptr: seq<byte>, g: Geometry, d: seq<u32>, src: int, dst: int, count: nat, p: int)
    requires g.Valid() && 0 <= p < |d| && !(2 + dst <= p < 2 + dst + count)
    ensures Copy(ptr, g, d, src, dst, count)[p] == d[p]
  {
  }

  /** A place of a copied row holds the pixel of the picture there. */
  lemma CopiedAt(ptr: seq<byte>, g: Geometry, d: seq<u32>, y: int, p: int)
    requires g.Valid() && 0 <= y < g.h && 2 + y * g.w <= p < 2 + y * g.w + g.w && p < |d|
    ensures Copy(ptr, g, d, Row(g, y) * g.w, y * g.w, g.w)[p] == Value(SourcePixel(ptr, g, p - 2))
  {
    SourceAt(ptr, g, y, p - 2 - y * g.w);
  }

  /** Every row readable makes the whole picture readable. */
  lemma AllRowsReadable(ptr: seq<byte>, g: Geometry)
    requires g.Valid()
    requires RowsReadable(ptr, g, g.h)
    ensures Readable(ptr, g)
  {
    forall n: nat | n < g.w * g.h
      ensures SourcePixel(ptr, g, n).Some?
    {
      QuotientBelow(n, g.w, g.h);
      var y := n / g.w;
      SourceAt(ptr, g, y, n % g.w);
      Split(n, g.w);
      assert RowReadable(ptr, g, y);
      assert Moved(ptr, g, Row(g, y) * g.w, y * g.w, n).Some?;
    }
  }

  /**
   * The loops of types 9 and 10: a packet header per turn of the outer loop, a pixel per turn
   * of the inner one.
   */
  method DecodeRunLength(data: array<u32>, ptr: seq<byte>, size: int, g: Geometry) returns (r: Status)
    requires g.Valid()
    modifies data
    ensures (r, data[..]) == Rle(ptr, size, g, StreamStart(g), old(data[..]))
  {
    var b := g.depth / 8;
    var m, x, k, j, run, i, y := g.m, 0, 0, 0, false, 0, 0;
    ghost var goal := Rle(ptr, size, g, StreamStart(g), data[..]);
    while x < g.w * g.h && m < size
      invariant m >= 0
      invariant Rle(ptr, size, g, Stream(m, x, 0, j, run, Cursor(i, y)), data[..]) == goal
      decreases g.w * g.h - x
    {
      ghost var s := Stream(m, x, 0, j, run, Cursor(i, y));
      if m >= |ptr| {
        return Fault;
      }
      k := ptr[m];
      m := m + 1;
      if k > 127 {
        k := k - 127;
        run := true;
        if g.mapped {
          if m >= |ptr| {
            return Fault;
          }
          j := ptr[m] as int * b + HeaderSize;
          m := m + 1;
        } else {
          j := 0;
        }
      } else {
        k := k + 1;
        j, run := 0, false;
      }
      x := x + k;
      assert Head(ptr, g, s) == Some(Stream(m, x, k, j, run, Cursor(i, y)));
      var fault;
      fault, m, i, y := DecodePacket(data, ptr, size, g, m, x, k, j, run, i, y);
      if fault {
        return Fault;
      }
    }
    if data.Length < 2 {
      return Fault;
    }
    WriteSize(data, g);
    return Decoded;
  }

  /** The inner loop of types 9 and 10: the k pixels of one packet. */
  method DecodePacket(data: array<u32>, ptr: seq<byte>, size: int, g: Geometry, m0: int, x: int, k0: nat, j: int,
                      run: bool, i0: int, y0: int) returns (fault: bool, m: int, i: int, y: int)
    requires g.Valid() && m0 >= 0
    modifies data
    ensures !fault ==> (m >= 0 &&
      Rle(ptr, size, g, Stream(m, x, 0, j, run, Cursor(i, y)), data[..]) ==
      Rle(ptr, size, g, Stream(m0, x, k0, j, run, Cursor(i0, y0)), old(data[..])))
    ensures fault ==> (Fault, data[..]) == Rle(ptr, size, g, Stream(m0, x, k0, j, run, Cursor(i0, y0)), old(data[..]))
  {
    var k := k0;
    m, i, y := m0, i0, y0;
    ghost var goal := Rle(ptr, size, g, Stream(m0, x, k0, j, run, Cursor(i0, y0)), data[..]);
    while k > 0
      invariant m >= 0
      invariant Rle(ptr, size, g, Stream(m, x, k, j, run, Cursor(i, y)), data[..]) == goal
      decreases k
    {
      RlePixel(ptr, size, g, Stream(m, x, k, j, run, Cursor(i, y)), data[..]);
      fault, m, i, y := DecodePixel(data, ptr, g, m, x, k, j, run, i, y);
      if fault {
        return;
      }
      k := k - 1;
    }
    return false, m, i, y;
  }

  /**
   * One turn of the inner loop of types 9 and 10: the colour is read, the cursor starts a new
   * row when i is a multiple of w, and the pixel is written at 2 + i.
   */
  method DecodePixel(data: array<u32>, ptr: seq<byte>, g: Geometry, m0: int, ghost x: int, k: nat, j: int,
                     run: bool, i0: int, y0: int) returns (fault: bool, m: int, i: int, y: int)
    requires g.Valid() && m0 >= 0 && k > 0
    modifies data
    ensures fault ==> Pixel(ptr, g, Stream(m0, x, k, j, run, Cursor(i0, y0)), old(data[..])).None?
    ensures fault ==> data[..] == old(data[..])
    ensures !fault ==>
      Pixel(ptr, g, Stream(m0, x, k, j, run, Cursor(i0, y0)), old(data[..])) ==
      Some((Stream(m, x, k - 1, j, run, Cursor(i, y)), data[..]))
  {
    var b := g.depth / 8;
    m, i, y := m0, i0, y0;
    var src: int;
    if g.mapped {
      if run {
        src := j;
      } else {
        if m >= |ptr| {
          return true, m, i, y;
        }
        src := ptr[m] as int * b + HeaderSize;
        m := m + 1;
      }
    } else {
      src := m;
    }
    if CMod(i, g.w) == 0 {
      i := Row(g, y) * g.w;
      y := y + 1;
    }
    var c := Color(ptr, src, g.depth);
    if c.None? || !(0 <= 2 + i < data.Length) {
      return true, m, i, y;
    }
    data[2 + i] := c.value;
    i := i + 1;
    if !g.mapped && (!run || k == 1) {
      m := m + b;
    }
    return false, m, i, y;
  }

  /** tga_parse: the header checks, then the loops of the image's type. */
  method TgaParse(data: array<u32>, ptr: seq<byte>, size: int) returns (r: Status)
    requires |ptr| >= HeaderSize
    modifies data
    ensures r == Parse(ptr, size, old(data[..])).0
    ensures r != Fault ==> data[..] == Parse(ptr, size, old(data[..])).1
  {
    var w := ptr[13] as int * 0x100 + ptr[12] as int;
    var h := ptr[15] as int * 0x100 + ptr[14] as int;
    if w < 1 || h < 1 {
      return Rejected;
    }
    if ptr[2] == 1 || ptr[2] == 9 {
      if ptr[6] != 0 || ptr[4] != 0 || ptr[3] != 0 || (ptr[7] != 24 && ptr[7] != 32) {
        return Rejected;
      }
    } else if ptr[2] == 2 || ptr[2] == 10 {
      if ptr[5] != 0 || ptr[6] != 0 || ptr[1] != 0 || (ptr[16] != 24 && ptr[16] != 32) {
        return Rejected;
      }
    } else {
      return Rejected;
    }
    var g := GeometryOf(ptr);
    if ptr[2] == 9 || ptr[2] == 10 {
      r := DecodeRunLength(data, ptr, size, g);
    } else {
      r := DecodeUncompressed(data, ptr, g);
    }
  }

  /**
   * Where tga.c:37 reads the type 2 pixel for screen pixel n: `row * w * bpp` plus the column,
   * with no pixel-data start added.
   */
  function TrueColorOffsetAsWritten(g: Geometry, n: nat): int
    requires g.w >= 1
  {
    (Row(g, n / g.w) * g.w + n % g.w) * (g.depth / 8)
  }

  /**
   * As written, a type 2 image is read 18 bytes early: the top-left pixel of a top-down image
   * is taken from offset 0, the header's first bytes, where the decoder above reads it at 18.
   */
  lemma TrueColorReadsHeader(ptr: seq<byte>)
    requires |ptr| >= HeaderSize && Accepted(ptr) && ptr[2] == 2 && Origin(ptr) != 0
    ensures TrueColorOffsetAsWritten(GeometryOf(ptr), 0) == 0
    ensures SourcePixel(ptr, GeometryOf(ptr), 0) == Color(ptr, HeaderSize, Depth(ptr))
  {
  }

  /** The offset as written is always the intended one less the 18 header bytes. */
  lemma TrueColorOffsetShift(ptr: seq<byte>, n: nat)
    requires |ptr| >= HeaderSize && Accepted(ptr) && ptr[2] == 2
    ensures var g := GeometryOf(ptr);
      SourcePixel(ptr, g, n) == Color(ptr, TrueColorOffsetAsWritten(g, n) + HeaderSize, g.depth)
  {
  }
}
