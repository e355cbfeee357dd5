/**
 * The kernel heap of src/sys/heap.c: a first-fit list of segments, each a 16-byte
 * header followed by its payload, laid end to end from the heap start. The list the
 * C links through `next`/`last` pointers is the sequence `segs` here, in address
 * order; a segment's header address is the start plus the extent of the segments
 * before it, and `last_header` is the final element.
 */
module Heap {
  import opened CInt
  import opened Wrappers

  /** sizeof(heap_seg_hdr_t) on i386: three 4-byte words and a byte, padded to 16. */
  const HDR: nat := 16
  const PAGE: nat := 0x1000
  /** The smallest request and the smallest remainder heap_combine_split will carve. */
  const MIN_SPLIT: nat := 0x10

  datatype Seg = Seg(length: nat, free: bool)

  /** Bytes covered by a run of segments, headers included. */
  function Extent(segs: seq<Seg>): nat
  {
    if segs == [] then 0 else Extent(segs[..|segs| - 1]) + HDR + segs[|segs| - 1].length
  }

  lemma {:induction false} ExtentAppend(a: seq<Seg>, b: seq<Seg>)
    ensures Extent(a + b) == Extent(a) + Extent(b)
    decreases |b|
  {
    if b == [] {
      assert a + b == a;
    } else {
      var b' := b[..|b| - 1];
      assert (a + b)[..|a + b| - 1] == a + b';
      ExtentAppend(a, b');
    }
  }

  /** Address of the header of segment `i`. */
  function Addr(start: nat, segs: seq<Seg>, i: nat): nat
    requires i <= |segs|
  {
    start + Extent(segs[..i])
  }

  /** Each header lies past the payload of every segment before it: allocations never overlap. */
  lemma {:induction false} PayloadsDisjoint(start: nat, segs: seq<Seg>, i: nat, j: nat)
    requires i < j < |segs|
    ensures Addr(start, segs, i) + HDR + segs[i].length <= Addr(start, segs, j)
  {
    assert segs[..j] == segs[..i + 1] + segs[i + 1..j];
    ExtentAppend(segs[..i + 1], segs[i + 1..j]);
    assert segs[..i + 1][..i] == segs[..i];
  }

  // ---- heap_combine_forward / heap_combine_backward -------------------------------

  /** Segment `i` absorbs segment `i+1`, header included; the list is relinked past it. */
  function Merged(segs: seq<Seg>, i: nat): (r: seq<Seg>)
    requires i + 1 < |segs|
    ensures |r| == |segs| - 1
    ensures r[i] == Seg(segs[i].length + segs[i + 1].length + HDR, segs[i].free)
    ensures forall k :: 0 <= k < i ==> r[k] == segs[k]
    ensures forall k :: i < k < |r| ==> r[k] == segs[k + 1]
  {
    segs[..i] + [Seg(segs[i].length + segs[i + 1].length + HDR, segs[i].free)] + segs[i + 2..]
  }

  /** The extent of a run, read around its `i`-th segment. */
  lemma ExtentAt(segs: seq<Seg>, i: nat)
    requires i < |segs|
    ensures Extent(segs) == Extent(segs[..i]) + HDR + segs[i].length + Extent(segs[i + 1..])
  {
    assert segs == segs[..i + 1] + segs[i + 1..];
    ExtentAppend(segs[..i + 1], segs[i + 1..]);
    assert segs[..i + 1][..i] == segs[..i];
  }

  /** Replacing one segment by another of the same length keeps the extent. */
  lemma ExtentReplace(segs: seq<Seg>, i: nat, x: Seg)
    requires i < |segs| && x.length == segs[i].length
    ensures Extent(segs[i := x]) == Extent(segs)
  {
    ExtentAt(segs, i);
    ExtentAt(segs[i := x], i);
    assert segs[i := x][..i] == segs[..i] && segs[i := x][i + 1..] == segs[i + 1..];
  }

  /** No segment is longer than the run it belongs to. */
  lemma SegWithin(segs: seq<Seg>, i: nat)
    requires i < |segs|
    ensures HDR + segs[i].length <= Extent(segs)
    ensures Extent(segs[..i + 1]) <= Extent(segs)
  {
    ExtentAt(segs, i);
    assert segs[..i + 1][..i] == segs[..i];
  }

  /** Two neighbours cover what one segment spanning both, and the header between, covers. */
  lemma ExtentPair(x: Seg, y: Seg, m: Seg)
    requires m.length == x.length + HDR + y.length
    ensures Extent([x, y]) == Extent([m])
  {
    assert [x, y][..1] == [x] && [x][..0] == [] && [m][..0] == [];
  }

  /** The extent of a run, read around its segments `i` and `i+1`. */
  lemma ExtentAround(segs: seq<Seg>, i: nat)
    requires i + 1 < |segs|
    ensures Extent(segs) == Extent(segs[..i]) + Extent([segs[i], segs[i + 1]]) + Extent(segs[i + 2..])
  {
    var pair := [segs[i], segs[i + 1]];
    assert segs == segs[..i] + pair + segs[i + 2..];
    ExtentAppend(segs[..i] + pair, segs[i + 2..]);
    ExtentAppend(segs[..i], pair);
  }

  /** The extent of a merged run, read around the merged segment. */
  lemma ExtentOfMerged(segs: seq<Seg>, i: nat)
    requires i + 1 < |segs|
    ensures Extent(Merged(segs, i)) == Extent(segs[..i]) + Extent([Merged(segs, i)[i]]) + Extent(segs[i + 2..])
  {
    var m := [Merged(segs, i)[i]];
    assert Merged(segs, i) == segs[..i] + m + segs[i + 2..];
    ExtentAppend(segs[..i] + m, segs[i + 2..]);
    ExtentAppend(segs[..i], m);
  }

  /** Merging keeps every byte of the heap covered exactly once. */
  lemma MergedKeepsExtent(segs: seq<Seg>, i: nat)
    requires i + 1 < |segs|
    ensures Extent(Merged(segs, i)) == Extent(segs)
  {
    ExtentAround(segs, i);
    ExtentOfMerged(segs, i);
    ExtentPair(segs[i], segs[i + 1], Merged(segs, i)[i]);
  }

  /** heap_combine_forward: merge only when a next segment exists and is free. */
  function CombinedForward(segs: seq<Seg>, i: nat): seq<Seg>
    requires i < |segs|
  {
    if i + 1 < |segs| && segs[i + 1].free then Merged(segs, i) else segs
  }

  /** heap_combine_backward: a free predecessor absorbs the segment, if it is free itself. */
  function CombinedBackward(segs: seq<Seg>, i: nat): seq<Seg>
    requires i < |segs|
  {
    if 0 < i && segs[i - 1].free then CombinedForward(segs, i - 1) else segs
  }

  lemma CombinedForwardFacts(segs: seq<Seg>, i: nat)
    requires i < |segs|
    ensures Extent(CombinedForward(segs, i)) == Extent(segs)
    ensures |CombinedForward(segs, i)| == (if i + 1 < |segs| && segs[i + 1].free then |segs| - 1 else |segs|)
    ensures CombinedForward(segs, i)[i].free == segs[i].free
    ensures i + 1 < |segs| && segs[i + 1].free ==>
      CombinedForward(segs, i)[i].length == segs[i].length + HDR + segs[i + 1].length
  {
    if i + 1 < |segs| && segs[i + 1].free {
      MergedKeepsExtent(segs, i);
    }
  }

  // ---- heap_combine_split ---------------------------------------------------------

  /** `int split_seg_length = seg->length - length - sizeof(heap_seg_hdr_t)` in 32-bit arithmetic. */
  function SplitLength(seg: Seg, length: u32): int
  {
    Signed32(Wrap32(seg.length - length - HDR))
  }

  /** The remainder, when it is at least 16, is exactly what is left after the new header. */
  lemma SplitLengthExact(seg: Seg, length: u32)
    requires seg.length < B32 && length < seg.length
    ensures SplitLength(seg, length) >= MIN_SPLIT ==> SplitLength(seg, length) == seg.length - length - HDR
  {
    WrapNear(seg.length - length - HDR);
  }

  predicate SplitHappens(seg: Seg, length: u32)
  {
    length >= MIN_SPLIT && SplitLength(seg, length) >= MIN_SPLIT
  }

  /**
   * heap_combine_split: the segment keeps `length` bytes and a new header after them
   * takes the remainder, inheriting the free flag; nothing happens when either part
   * would be smaller than 16 bytes.
   */
  function Split(segs: seq<Seg>, i: nat, length: u32): (r: seq<Seg>)
    requires i < |segs|
    ensures !SplitHappens(segs[i], length) ==> r == segs
    ensures SplitHappens(segs[i], length) ==>
      |r| == |segs| + 1 && r[i] == Seg(length, segs[i].free) &&
      r[i + 1] == Seg(SplitLength(segs[i], length), segs[i].free) &&
      r[..i] == segs[..i] && r[i + 2..] == segs[i + 1..]
  {
    if SplitHappens(segs[i], length) then
      segs[..i] + [Seg(length, segs[i].free), Seg(SplitLength(segs[i], length), segs[i].free)] + segs[i + 1..]
    else
      segs
  }

  /** Splitting a segment smaller than 4 GiB keeps every byte covered exactly once. */
  lemma SplitKeepsExtent(segs: seq<Seg>, i: nat, length: u32)
    requires i < |segs| && segs[i].length < B32 && length < segs[i].length
    ensures Extent(Split(segs, i, length)) == Extent(segs)
  {
    var r := Split(segs, i, length);
    if SplitHappens(segs[i], length) {
      SplitLengthExact(segs[i], length);
      ExtentAt(r, i);
      ExtentAt(segs, i);
      var tail := r[i + 1..];
      ExtentAt(tail, 0);
      assert tail[..0] == [] && tail[1..] == segs[i + 1..];
    }
  }

  // ---- malloc and heap_expand ------------------------------------------------------

  /** malloc's rounding of the request up to a multiple of 16, in 32-bit arithmetic. */
  function RoundUp16(size: u32): u32
  {
    if size % 0x10 != 0 then Wrap32(size - size % 0x10 + 0x10) else size
  }

  /** The rounded size is the least multiple of 16 not below the request, or 0 once it passes 2^32. */
  lemma RoundUp16Bounds(size: u32)
    ensures RoundUp16(size) % 0x10 == 0
    ensures RoundUp16(size) == 0 <==> size == 0 || size > B32 - 0x10
    ensures RoundUp16(size) != 0 ==> size <= RoundUp16(size) < size + 0x10
  {
    if size % 0x10 != 0 {
      WrapNear(size - size % 0x10 + 0x10);
    }
  }

  /** heap_expand's rounding of a length up to whole pages. */
  function PageRound(length: u32): u32
  {
    if length % PAGE != 0 then Wrap32(length - length % PAGE + PAGE) else length
  }

  lemma PageRoundBounds(length: u32)
    requires length <= B32 - PAGE
    ensures PageRound(length) % PAGE == 0
    ensures length <= PageRound(length) < length + PAGE
  {
    if length % PAGE != 0 {
      WrapNear(length - length % PAGE + PAGE);
    }
  }

  /**
   * heap_expand: one free segment filling the new pages after the last header, which
   * the previous last segment then absorbs if it is free.
   */
  function Expanded(segs: seq<Seg>, length: u32): (r: seq<Seg>)
    requires |segs| > 0 && MIN_SPLIT <= length <= B32 - PAGE
    ensures |r| > 0 && r[|r| - 1].free
    ensures segs[|segs| - 1].free ==>
      r == segs[..|segs| - 1] + [Seg(segs[|segs| - 1].length + PageRound(length), true)]
    ensures !segs[|segs| - 1].free ==> r == segs + [Seg(PageRound(length) - HDR, true)]
  {
    PageRoundBounds(length);
    CombinedBackward(segs + [Seg(PageRound(length) - HDR, true)], |segs|)
  }

  /** Growing the heap adds exactly the rounded length to the bytes it covers. */
  lemma ExpandedExtent(segs: seq<Seg>, length: u32)
    requires |segs| > 0 && MIN_SPLIT <= length <= B32 - PAGE
    ensures Extent(Expanded(segs, length)) == Extent(segs) + PageRound(length)
  {
    PageRoundBounds(length);
    var grown := segs + [Seg(PageRound(length) - HDR, true)];
    assert grown[..|segs|] == segs && grown[|segs| + 1..] == [];
    ExtentAt(grown, |segs|);
    CombinedForwardFacts(grown, |segs| - 1);
  }

  /** The first free segment from `from` on that can hold `size` bytes. */
  function FirstFit(segs: seq<Seg>, size: nat, from: nat): (r: Option<nat>)
    requires from <= |segs|
    ensures r.Some? ==> from <= r.value < |segs| && segs[r.value].free && segs[r.value].length >= size
    ensures forall j :: from <= j < (if r.Some? then r.value else |segs|) ==>
      !(segs[j].free && segs[j].length >= size)
    decreases |segs| - from
  {
    if from == |segs| then None
    else if segs[from].free && segs[from].length >= size then Some(from)
    else FirstFit(segs, size, from + 1)
  }

  /** How many times malloc must grow the heap before its scan succeeds: at most twice. */
  function Growths(segs: seq<Seg>, size: nat): (n: nat)
    requires |segs| > 0
    ensures n <= 2
    ensures n == 0 ==> FirstFit(segs, size, 0).Some?
  {
    var last := segs[|segs| - 1];
    if last.free && last.length >= size then 0 else if last.free then 1 else 2
  }

  /** A failed scan means growing brings the heap strictly closer to a fit. */
  lemma GrowthsDecrease(segs: seq<Seg>, size: u32)
    requires |segs| > 0 && MIN_SPLIT <= size <= B32 - PAGE
    requires FirstFit(segs, size, 0).None?
    ensures 0 < Growths(segs, size) && Growths(Expanded(segs, size), size) < Growths(segs, size)
  {
    PageRoundBounds(size);
  }

  /** The heap malloc ends up scanning successfully: grown until a free segment fits. */
  function Grown(segs: seq<Seg>, size: u32): (r: seq<Seg>)
    requires |segs| > 0 && MIN_SPLIT <= size <= B32 - PAGE
    ensures |r| > 0 && FirstFit(r, size, 0).Some?
    ensures FirstFit(segs, size, 0).Some? ==> r == segs
    decreases Growths(segs, size)
  {
    if FirstFit(segs, size, 0).Some? then segs
    else
      GrowthsDecrease(segs, size);
      Grown(Expanded(segs, size), size)
  }

  /** Segment `i` handed out for `size` bytes: split when it is larger, then marked in use. */
  function Taken(segs: seq<Seg>, i: nat, size: u32): (r: seq<Seg>)
    requires i < |segs| && segs[i].length >= size
    ensures |r| >= |segs| && r[..i] == segs[..i] && !r[i].free && r[i].length >= size
  {
    var s := if segs[i].length > size then Split(segs, i, size) else segs;
    s[i := s[i].(free := false)]
  }

  lemma TakenKeepsExtent(segs: seq<Seg>, i: nat, size: u32)
    requires i < |segs| && segs[i].length >= size && segs[i].length < B32
    ensures Extent(Taken(segs, i, size)) == Extent(segs)
  {
    var s := if segs[i].length > size then Split(segs, i, size) else segs;
    if segs[i].length > size {
      SplitKeepsExtent(segs, i, size);
    }
    ExtentReplace(s, i, s[i].(free := false));
  }

  // ---- heap_init, heap_expand, malloc and free on the heap object ------------------

  class Heap {
    var start: nat
    var end: nat
    var segs: seq<Seg>

    /** The segments tile [start, end) in order, inside the 32-bit address space. */
    ghost predicate Valid()
      reads this
    {
      |segs| > 0 && end == start + Extent(segs) && end <= B32
    }

    /** heap_init: one free segment spanning `pageCount` pages minus its header. */
    constructor (heapAddress: nat, pageCount: nat)
      requires pageCount > 0 && heapAddress + pageCount * PAGE <= B32
      ensures Valid() && start == heapAddress && end == heapAddress + pageCount * PAGE
      ensures segs == [Seg(pageCount * PAGE - HDR, true)]
    {
      start := heapAddress;
      end := heapAddress + pageCount * PAGE;
      segs := [Seg(pageCount * PAGE - HDR, true)];
      new;
      assert segs[..0] == [];
    }

    /** heap_expand: the heap grows by `length` rounded up to pages. */
    method Expand(length: u32)
      requires Valid() && MIN_SPLIT <= length <= B32 - PAGE && end + PageRound(length) <= B32
      modifies this
      ensures Valid() && start == old(start)
      ensures segs == Expanded(old(segs), length) && end == old(end) + PageRound(length)
    {
      ExpandedExtent(segs, length);
      segs := Expanded(segs, length);
      end := end + PageRound(length);
    }

    /** malloc's scan from the first header. */
    method FindFit(size: u32) returns (found: Option<nat>)
      requires Valid()
      ensures found == FirstFit(segs, size, 0)
    {
      var i := 0;
      while i < |segs|
        invariant 0 <= i <= |segs| && FirstFit(segs, size, 0) == FirstFit(segs, size, i)
      {
        if segs[i].free && segs[i].length >= size {
          return Some(i);
        }
        i := i + 1;
      }
      return None;
    }

    /** The fitting segment is split and marked in use. */
    method Take(i: nat, size: u32)
      requires Valid() && i < |segs| && segs[i].length >= size
      modifies this`segs
      ensures Valid() && segs == Taken(old(segs), i, size)
    {
      SegWithin(segs, i);
      TakenKeepsExtent(segs, i, size);
      segs := Taken(segs, i, size);
    }

    /**
     * malloc: the request is rounded up to 16 bytes (0 returns null); the heap grows
     * until a free segment is large enough, and the first such segment is split and
     * marked in use; the result is the address just past its header.
     */
    method Malloc(size: u32) returns (address: nat)
      requires Valid() && RoundUp16(size) <= B32 - PAGE
      requires end + 2 * PageRound(RoundUp16(size)) <= B32
      modifies this
      ensures Valid() && start == old(start)
      ensures RoundUp16(size) == 0 ==> address == 0 && segs == old(segs) && end == old(end)
      ensures RoundUp16(size) != 0 ==>
        var grown := Grown(old(segs), RoundUp16(size));
        var i := FirstFit(grown, RoundUp16(size), 0).value;
        segs == Taken(grown, i, RoundUp16(size)) && address == Addr(start, segs, i) + HDR
    {
      var rounded := RoundUp16(size);
      RoundUp16Bounds(size);
      if rounded == 0 {
        return 0;
      }
      var found := FindFit(rounded);
      while found.None?
        invariant Valid() && start == old(start) && |segs| > 0
        invariant end + (if Growths(segs, rounded) == 2 then 2 * PageRound(rounded)
                         else if Growths(segs, rounded) == 1 then PageRound(rounded) else 0) <= B32
        invariant found == FirstFit(segs, rounded, 0)
        invariant Grown(segs, rounded) == Grown(old(segs), rounded)
        decreases Growths(segs, rounded)
      {
        GrowthsDecrease(segs, rounded);
        Expand(rounded);
        found := FindFit(rounded);
      }
      var i := found.value;
      Take(i, rounded);
      address := Addr(start, segs, i) + HDR;
    }

    /**
     * free: the segment whose payload starts at `address` is marked free, then merged
     * with a free successor and with a free predecessor.
     */
    method Free(address: nat)
      requires Valid() && exists i :: 0 <= i < |segs| && Addr(start, segs, i) + HDR == address
      modifies this`segs
      ensures Valid()
      ensures exists i :: (0 <= i < |old(segs)| && Addr(start, old(segs), i) + HDR == address &&
                           segs == CombinedBackward(CombinedForward(old(segs)[i := old(segs)[i].(free := true)], i), i))
    {
      var i :| 0 <= i < |segs| && Addr(start, segs, i) + HDR == address;
      ghost var s0 := segs;
      ExtentReplace(segs, i, segs[i].(free := true));
      segs := segs[i := segs[i].(free := true)];
      CombinedForwardFacts(segs, i);
      segs := CombinedForward(segs, i);
      if 0 < i {
        CombinedForwardFacts(segs, i - 1);
      }
      segs := CombinedBackward(segs, i);
      assert segs == CombinedBackward(CombinedForward(s0[i := s0[i].(free := true)], i), i);
    }
  }

  // ---- heap_combine_forward as written: the header graph ---------------------------

  /** One header as the C stores it: pointers are addresses, 0 for none. */
  datatype Header = Header(length: nat, next: nat, last: nat, free: bool)

  /**
   * heap_combine_forward exactly as written: it moves last_header, repoints the
   * successor's successor back at `seg` and grows `seg`, but leaves `seg->next`
   * pointing at the header it absorbed. Returns the headers and the new last_header.
   */
  function CombineForwardAsWritten(h: map<nat, Header>, lastHeader: nat, seg: nat): (map<nat, Header>, nat)
    requires seg in h && (h[seg].next != 0 ==> h[seg].next in h)
    requires h[seg].next != 0 && h[h[seg].next].next != 0 ==> h[h[seg].next].next in h
  {
    var s := h[seg];
    if s.next == 0 || !h[s.next].free then (h, lastHeader)
    else
      var n := h[s.next];
      var last' := if s.next == lastHeader then seg else lastHeader;
      var h1 := if n.next != 0 then h[n.next := h[n.next].(last := seg)] else h;
      (h1[seg := h1[seg].(length := s.length + n.length + HDR)], last')
  }

  /**
   * Two adjacent free segments of 32 bytes at 0x1000 and 0x1030: after the merge the
   * first covers 80 bytes, yet its `next` still names the absorbed header, which now
   * sits inside its payload, free, so malloc's walk can hand out memory inside a
   * segment that is also handed out whole.
   */
  lemma CombineForwardAsWrittenKeepsAbsorbed()
    ensures var h := map[0x1000 := Header(32, 0x1030, 0, true), 0x1030 := Header(32, 0, 0x1000, true)];
      var (h', last') := CombineForwardAsWritten(h, 0x1030, 0x1000);
      h'[0x1000].length == 80 && last' == 0x1000 &&
      h'[0x1000].next == 0x1030 && 0x1030 in h' && h'[0x1030].free &&
      0x1000 + HDR <= 0x1030 < 0x1000 + HDR + h'[0x1000].length
  {
  }
}
