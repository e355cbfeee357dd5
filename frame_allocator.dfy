/**
 * The physical frame allocator of src/cpu/paging.c: a bitmap with one bit per
 * 4 KiB frame (most significant bit first within each byte), the three global
 * byte counters free_memory, used_memory and reserved_memory, and the static
 * cursor page_index from which pfa_request_page searches.
 *
 * The class `Allocator` mirrors pfa_t together with those globals; its methods
 * are proved against the pure transition functions on `PfaState` below, and the
 * lemmas about those functions state what the allocator promises.
 */
module FrameAllocator {
  import opened CInt
  import opened Wrappers

  const PAGE_SIZE: int := 0x1000

  /** Largest bitmap (in bytes) that a 32-bit physical address space needs: 2^20 frames. */
  const MAX_BITMAP: int := 0x2_0000

  /** (1 << 7) >> bit: the mask selecting frame bit `bit` of a bitmap byte. */
  function Mask(bit: nat): bv8
    requires bit < 8
  {
    (0x80 as bv8) >> bit
  }
  predicate TestBit(b: bv8, bit: nat)
    requires bit < 8
  {
    b & Mask(bit) != 0
  }
  /** The byte after `buffer[byte] |= mask` or `buffer[byte] &= ~mask`. */
  function WriteBit(b: bv8, bit: nat, value: bool): bv8
    requires bit < 8
  {
    if value then b | Mask(bit) else b & !Mask(bit)
  }
  /** Two frame masks of one byte overlap exactly when they are the same mask. */
  lemma MaskDisjoint(bit: nat, j: nat)
    requires bit < 8 && j < 8
    ensures Mask(bit) & Mask(j) == if bit == j then Mask(bit) else 0
    ensures Mask(j) != 0
  {
    if bit == 0 {} else if bit == 1 {} else if bit == 2 {} else if bit == 3 {}
    else if bit == 4 {} else if bit == 5 {} else if bit == 6 {} else {}
  }
  /** Writing one bit of a byte leaves its seven other bits as they were. */
  lemma WriteBitAt(b: bv8, bit: nat, value: bool, j: nat)
    requires bit < 8 && j < 8
    ensures TestBit(WriteBit(b, bit, value), j) == if j == bit then value else TestBit(b, j)
  {
    MaskDisjoint(bit, j);
    var m, n := Mask(bit), Mask(j);
    assert (b | m) & n == (b & n) | (m & n);
    assert (b & !m) & n == (b & n) & !(m & n);
  }

  /** The eight frame bits of one bitmap byte, most significant first. */
  function ByteBits(b: bv8): (r: seq<bool>)
    ensures |r| == 8
  {
    seq(8, j requires 0 <= j < 8 => TestBit(b, j))
  }
  /** The bitmap read as one boolean per frame. */
  function BitsOf(bm: seq<bv8>): (bits: seq<bool>)
    ensures |bits| == |bm| * 8
  {
    if bm == [] then [] else ByteBits(bm[0]) + BitsOf(bm[1..])
  }
  /** Frame i lives in byte i/8 under mask 0x80 >> (i%8). */
  lemma {:induction false} BitsOfAt(bm: seq<bv8>, i: nat)
    requires i < |bm| * 8
    ensures BitsOf(bm)[i] == TestBit(bm[i / 8], i % 8)
  {
    if i >= 8 {
      BitsOfAt(bm[1..], i - 8);
      assert BitsOf(bm)[i] == BitsOf(bm[1..])[i - 8];
    } else {
      assert BitsOf(bm)[i] == ByteBits(bm[0])[i];
    }
  }
  /** Setting or clearing one frame bit in the bitmap changes that frame and no other. */
  lemma {:induction false} BitsOfWrite(bm: seq<bv8>, index: nat, value: bool)
    requires index < |bm| * 8
    ensures BitsOf(bm[index / 8 := WriteBit(bm[index / 8], index % 8, value)]) == BitsOf(bm)[index := value]
  {
    var bm' := bm[index / 8 := WriteBit(bm[index / 8], index % 8, value)];
    assert BitsOf(bm) == ByteBits(bm[0]) + BitsOf(bm[1..]);
    assert BitsOf(bm') == ByteBits(bm'[0]) + BitsOf(bm'[1..]);
    if index < 8 {
      assert bm'[0] == WriteBit(bm[0], index, value) && bm'[1..] == bm[1..];
      ByteBitsWrite(bm[0], index, value);
      UpdateFront(ByteBits(bm[0]), BitsOf(bm[1..]), index, value);
    } else {
      var k := index - 8;
      DivMod(index, 8, k / 8 + 1, k % 8);
      assert bm'[0] == bm[0];
      assert bm'[1..] == bm[1..][k / 8 := WriteBit(bm[1..][k / 8], k % 8, value)];
      BitsOfWrite(bm[1..], k, value);
      UpdateBack(ByteBits(bm[0]), BitsOf(bm[1..]), k, value);
    }
  }
  /** Writing one bit of a byte, read as the byte's eight frame bits. */
  lemma ByteBitsWrite(b: bv8, bit: nat, value: bool)
    requires bit < 8
    ensures ByteBits(WriteBit(b, bit, value)) == ByteBits(b)[bit := value]
  {
    forall j | 0 <= j < 8
      ensures ByteBits(WriteBit(b, bit, value))[j] == ByteBits(b)[bit := value][j]
    {
      WriteBitAt(b, bit, value, j);
    }
  }
  lemma UpdateFront<T>(a: seq<T>, b: seq<T>, i: nat, v: T)
    requires i < |a|
    ensures (a + b)[i := v] == a[i := v] + b
  {
  }
  lemma UpdateBack<T>(a: seq<T>, b: seq<T>, i: nat, v: T)
    requires i < |b|
    ensures (a + b)[|a| + i := v] == a + b[i := v]
  {
  }

  /** Number of frames whose bit is set. */
  function Ones(bits: seq<bool>): (n: nat)
    ensures n <= |bits|
  {
    if bits == [] then 0 else (if bits[0] then 1 else 0) + Ones(bits[1..])
  }

  lemma {:induction false} OnesUpdate(bits: seq<bool>, i: nat, v: bool)
    requires i < |bits|
    ensures Ones(bits[i := v]) + (if bits[i] then 1 else 0) == Ones(bits) + (if v then 1 else 0)
  {
    if i > 0 {
      assert bits[i := v][1..] == bits[1..][i - 1 := v];
      OnesUpdate(bits[1..], i - 1, v);
    }
  }

  /** The abstract state: frame bits, the three counters and the search cursor. */
  datatype PfaState = PfaState(bits: seq<bool>, free: u32, used: u32, reserved: u32, pageIndex: u32)

  /** The accounting sum that lock, free and reserve keep constant (mod 2^32). */
  function Total(s: PfaState): u32
  {
    Wrap32(s.free + s.used + s.reserved)
  }

  function PageOf(address: u32): nat
  {
    address / PAGE_SIZE
  }

  /** pfa_free_page: a set bit is cleared and 4 KiB move from used to free; otherwise nothing. */
  function Freed(s: PfaState, index: nat): (r: PfaState)
    ensures r.pageIndex == s.pageIndex && |r.bits| == |s.bits|
    ensures index >= |s.bits| || !s.bits[index] ==> r == s
    ensures index < |s.bits| ==> !r.bits[index]
  {
    if index < |s.bits| && s.bits[index] then
      s.(bits := s.bits[index := false], free := Wrap32(s.free + PAGE_SIZE), used := Wrap32(s.used - PAGE_SIZE))
    else s
  }

  /**
   * pfa_lock_page: a clear bit is set and 4 KiB move from free to used. A frame past
   * the bitmap reads as clear, cannot be set, and still moves the counters.
   */
  function Locked(s: PfaState, index: nat): (r: PfaState)
    ensures r.pageIndex == s.pageIndex && |r.bits| == |s.bits|
    ensures index < |s.bits| && s.bits[index] ==> r == s
    ensures index < |s.bits| ==> r.bits[index]
    ensures index >= |s.bits| ==> r.bits == s.bits && r.free != s.free
  {
    if index < |s.bits| && s.bits[index] then s
    else if index < |s.bits| then
      s.(bits := s.bits[index := true], free := Wrap32(s.free - PAGE_SIZE), used := Wrap32(s.used + PAGE_SIZE))
    else
      s.(free := Wrap32(s.free - PAGE_SIZE), used := Wrap32(s.used + PAGE_SIZE))
  }

  /**
   * pfa_reserve_page: a clear bit inside the bitmap is set, 4 KiB move from free to
   * reserved and the search cursor is lowered to the frame; anything else is a no-op.
   */
  function Reserved(s: PfaState, index: nat): (r: PfaState)
    ensures |r.bits| == |s.bits|
    ensures index >= |s.bits| || s.bits[index] ==> r == s
    ensures index < |s.bits| && !s.bits[index] ==>
      r.bits == s.bits[index := true] && r.pageIndex <= s.pageIndex && r.pageIndex <= index
  {
    if index < |s.bits| && !s.bits[index] then
      s.(bits := s.bits[index := true], free := Wrap32(s.free - PAGE_SIZE), reserved := Wrap32(s.reserved + PAGE_SIZE),
         pageIndex := if s.pageIndex > index then index else s.pageIndex)
    else s
  }

  /** The frame visited in step i of the pfa_*_pages loops. */
  function StepPage(address: u32, i: nat): nat
  {
    PageOf(Wrap32(address + i * PAGE_SIZE))
  }

  datatype RangeOp = FreeOp | LockOp | ReserveOp

  function Apply(op: RangeOp, s: PfaState, index: nat): PfaState
  {
    match op
    case FreeOp => Freed(s, index)
    case LockOp => Locked(s, index)
    case ReserveOp => Reserved(s, index)
  }

  /** The first `count` iterations of pfa_free_pages, pfa_lock_pages or pfa_reserve_pages. */
  function ApplyRange(op: RangeOp, s: PfaState, address: u32, count: nat): (r: PfaState)
    ensures |r.bits| == |s.bits|
  {
    if count == 0 then s
    else Apply(op, ApplyRange(op, s, address, count - 1), StepPage(address, count - 1))
  }

  /** The first clear bit at or after `from`, as the pfa_request_page loop finds it. */
  function FirstClear(bits: seq<bool>, from: nat): (r: Option<nat>)
    decreases |bits| - from
    ensures r.Some? ==> from <= r.value < |bits| && !bits[r.value]
    ensures r.Some? ==> forall j :: from <= j < r.value ==> bits[j]
    ensures r.None? ==> forall j :: from <= j < |bits| ==> bits[j]
  {
    if from >= |bits| then None
    else if !bits[from] then Some(from)
    else FirstClear(bits, from + 1)
  }

  /**
   * pfa_request_page: the first clear frame at or after page_index is locked and its
   * address returned, with page_index left on it; when none is left page_index ends at
   * the bitmap's end (or stays, if it was already past it) and 0 is returned.
   */
  function Requested(s: PfaState): (r: (PfaState, u32))
    requires |s.bits| <= MAX_BITMAP * 8
  {
    match FirstClear(s.bits, s.pageIndex)
    case Some(i) => (Locked(s.(pageIndex := i), i), i * PAGE_SIZE)
    case None => (s.(pageIndex := if s.pageIndex < |s.bits| then |s.bits| else s.pageIndex), 0)
  }

  /** Freeing, locking and reserving a frame keep free+used+reserved constant. */
  /** Moving 4 KiB from one counter to another keeps the wrapped sum of all three. */
  lemma TransferKeepsSum(x: u32, y: u32, z: u32, d: int)
    requires -B32 < d < B32
    ensures Wrap32(Wrap32(x - d) + Wrap32(y + d) + z) == Wrap32(x + y + z)
  {
    WrapNear(x - d);
    WrapNear(y + d);
    var t, u := x + y + z, Wrap32(x - d) + Wrap32(y + d) + z;
    assert u == t || u == t + B32 || u == t - B32 || u == t + 2 * B32 || u == t - 2 * B32;
  }

  lemma TransferKeepsSumOuter(x: u32, y: u32, z: u32, d: int)
    requires -B32 < d < B32
    ensures Wrap32(Wrap32(x - d) + y + Wrap32(z + d)) == Wrap32(x + y + z)
  {
    WrapNear(x - d);
    WrapNear(z + d);
    var t, u := x + y + z, Wrap32(x - d) + y + Wrap32(z + d);
    assert u == t || u == t + B32 || u == t - B32 || u == t + 2 * B32 || u == t - 2 * B32;
  }

  lemma FreedKeepsTotal(s: PfaState, index: nat)
    ensures Total(Freed(s, index)) == Total(s)
  {
    if index < |s.bits| && s.bits[index] {
      TransferKeepsSum(s.free, s.used, s.reserved, -PAGE_SIZE);
    }
  }

  lemma LockedKeepsTotal(s: PfaState, index: nat)
    ensures Total(Locked(s, index)) == Total(s)
  {
    if !(index < |s.bits| && s.bits[index]) {
      TransferKeepsSum(s.free, s.used, s.reserved, PAGE_SIZE);
    }
  }

  lemma ReservedKeepsTotal(s: PfaState, index: nat)
    ensures Total(Reserved(s, index)) == Total(s)
  {
    if index < |s.bits| && !s.bits[index] {
      TransferKeepsSumOuter(s.free, s.used, s.reserved, PAGE_SIZE);
    }
  }

  lemma SingleOpKeepsTotal(op: RangeOp, s: PfaState, index: nat)
    ensures Total(Apply(op, s, index)) == Total(s)
  {
    match op
    case FreeOp => FreedKeepsTotal(s, index);
    case LockOp => LockedKeepsTotal(s, index);
    case ReserveOp => ReservedKeepsTotal(s, index);
  }

  lemma {:induction false} RangeKeepsTotal(op: RangeOp, s: PfaState, address: u32, count: nat)
    ensures Total(ApplyRange(op, s, address, count)) == Total(s)
  {
    if count > 0 {
      RangeKeepsTotal(op, s, address, count - 1);
      SingleOpKeepsTotal(op, ApplyRange(op, s, address, count - 1), StepPage(address, count - 1));
    }
  }

  /**
   * The bit counters move in step with the bitmap: locking or reserving a clear frame
   * inside the bitmap sets exactly one more bit; freeing a set frame clears one.
   */
  lemma {:induction false} OpChangesOneBit(op: RangeOp, s: PfaState, index: nat)
    requires index < |s.bits|
    ensures var r := Apply(op, s, index);
      if op == FreeOp then Ones(r.bits) + (if s.bits[index] then 1 else 0) == Ones(s.bits)
      else Ones(r.bits) == Ones(s.bits) + (if s.bits[index] then 0 else 1)
  {
    OnesUpdate(s.bits, index, op != FreeOp);
  }

  /** Freeing a frame that was just locked restores the allocator state. */
  lemma FreeUndoesLock(s: PfaState, index: nat)
    requires index < |s.bits| && !s.bits[index]
    ensures Freed(Locked(s, index), index) == s
  {
    assert Locked(s, index).bits[index := false] == s.bits;
  }

  /** Locking a frame that was just freed restores the allocator state. */
  lemma LockUndoesFree(s: PfaState, index: nat)
    requires index < |s.bits| && s.bits[index]
    ensures Locked(Freed(s, index), index) == s
  {
    assert Freed(s, index).bits[index := true] == s.bits;
  }

  /**
   * The bound check of pfa_get_bit and pfa_set_bit as written: `index > size * 8`
   * rejects the index, so the byte `index / 8` is touched for every other index.
   */
  predicate GuardPassesAsWritten(size: nat, index: nat)
  {
    !(index > size * 8)
  }

  /** The guard as written lets index size*8 through, whose byte `size` lies one past the bitmap. */
  lemma GuardAdmitsPastEnd(size: nat)
    ensures GuardPassesAsWritten(size, size * 8) && (size * 8) / 8 == size
    ensures forall index: nat :: GuardPassesAsWritten(size, index) && index / 8 >= size ==> index == size * 8
  {
  }

  /** The frame bits currently held in a bitmap array. */
  ghost function BitsIn(a: array<bv8>): seq<bool>
    reads a
  {
    BitsOf(a[..])
  }

  class Allocator {
    var size: u32
    var buffer: array<bv8>
    var freeMemory: u32
    var usedMemory: u32
    var reservedMemory: u32
    var pageIndex: u32

    ghost predicate Valid()
      reads this
    {
      buffer.Length == size && size <= MAX_BITMAP
    }

    ghost function State(): PfaState
      reads this, buffer
    {
      PfaState(BitsIn(buffer), freeMemory, usedMemory, reservedMemory, pageIndex)
    }

    constructor (bitmap: array<bv8>, free: u32, used: u32, reserved: u32)
      requires bitmap.Length <= MAX_BITMAP
      ensures Valid() && buffer == bitmap && size == bitmap.Length
      ensures freeMemory == free && usedMemory == used && reservedMemory == reserved && pageIndex == 0
    {
      size := bitmap.Length;
      buffer := bitmap;
      freeMemory, usedMemory, reservedMemory := free, used, reserved;
      pageIndex := 0;
    }

    /** pfa_get_bit, with the bound check corrected to `index >= size * 8`. */
    method GetBit(index: u32) returns (bit: bool)
      requires Valid()
      ensures bit <==> index < size * 8 && BitsIn(buffer)[index]
    {
      if index >= size * 8 {
        return false;
      }
      BitsOfAt(buffer[..], index);
      bit := TestBit(buffer[index / 8], index % 8);
    }

    /** pfa_set_bit, with the bound check corrected to `index >= size * 8`. */
    method SetBit(index: u32, value: bool) returns (ok: bool)
      requires Valid()
      modifies buffer
      ensures Valid()
      ensures ok <==> index < old(size) * 8
      ensures State() == if ok then old(State()).(bits := old(State()).bits[index := value]) else old(State())
    {
      if index >= size * 8 {
        return false;
      }
      BitsOfWrite(buffer[..], index, value);
      buffer[index / 8] := WriteBit(buffer[index / 8], index % 8, value);
      return true;
    }

    method FreePage(address: u32)
      requires Valid()
      modifies this, buffer
      ensures Valid() && buffer == old(buffer) && size == old(size)
      ensures State() == Freed(old(State()), PageOf(address))
    {
      var index := address / PAGE_SIZE;
      var bit := GetBit(index);
      if !bit {
        return;
      }
      var _ := SetBit(index, false);
      freeMemory := Wrap32(freeMemory + PAGE_SIZE);
      usedMemory := Wrap32(usedMemory - PAGE_SIZE);
    }

    method LockPage(address: u32)
      requires Valid()
      modifies this, buffer
      ensures Valid() && buffer == old(buffer) && size == old(size)
      ensures State() == Locked(old(State()), PageOf(address))
    {
      var index := address / PAGE_SIZE;
      var bit := GetBit(index);
      if bit {
        return;
      }
      var _ := SetBit(index, true);
      freeMemory := Wrap32(freeMemory - PAGE_SIZE);
      usedMemory := Wrap32(usedMemory + PAGE_SIZE);
    }

    method ReservePage(address: u32)
      requires Valid()
      modifies this, buffer
      ensures Valid() && buffer == old(buffer) && size == old(size)
      ensures State() == Reserved(old(State()), PageOf(address))
    {
      var index := address / PAGE_SIZE;
      var bit := GetBit(index);
      if bit {
        return;
      }
      var ok := SetBit(index, true);
      if ok {
        freeMemory := Wrap32(freeMemory - PAGE_SIZE);
        reservedMemory := Wrap32(reservedMemory + PAGE_SIZE);
        if pageIndex > index {
          pageIndex := index;
        }
      }
    }

    method FreePages(address: u32, count: u32)
      requires Valid()
      modifies this, buffer
      ensures Valid() && buffer == old(buffer) && size == old(size)
      ensures State() == ApplyRange(FreeOp, old(State()), address, count)
    {
      var i: u32 := 0;
      while i < count
        invariant Valid() && buffer == old(buffer) && size == old(size)
        invariant i <= count
        invariant State() == ApplyRange(FreeOp, old(State()), address, i)
      {
        FreePage(Wrap32(address + i * PAGE_SIZE));
        i := i + 1;
      }
    }

    method LockPages(address: u32, count: u32)
      requires Valid()
      modifies this, buffer
      ensures Valid() && buffer == old(buffer) && size == old(size)
      ensures State() == ApplyRange(LockOp, old(State()), address, count)
    {
      var i: u32 := 0;
      while i < count
        invariant Valid() && buffer == old(buffer) && size == old(size)
        invariant i <= count
        invariant State() == ApplyRange(LockOp, old(State()), address, i)
      {
        LockPage(Wrap32(address + i * PAGE_SIZE));
        i := i + 1;
      }
    }

    method ReservePages(address: u32, count: u32)
      requires Valid()
      modifies this, buffer
      ensures Valid() && buffer == old(buffer) && size == old(size)
      ensures State() == ApplyRange(ReserveOp, old(State()), address, count)
    {
      var i: u32 := 0;
      while i < count
        invariant Valid() && buffer == old(buffer) && size == old(size)
        invariant i <= count
        invariant State() == ApplyRange(ReserveOp, old(State()), address, i)
      {
        ReservePage(Wrap32(address + i * PAGE_SIZE));
        i := i + 1;
      }
    }

    /** The search loop of pfa_request_page: page_index moves past frames whose bit is set. */
    method SeekClear() returns (found: bool)
      requires Valid()
      modifies this`pageIndex
      ensures found <==> FirstClear(State().bits, old(pageIndex)).Some?
      ensures found ==> pageIndex == FirstClear(State().bits, old(pageIndex)).value
      ensures !found ==> pageIndex == if old(pageIndex) < size * 8 then size * 8 else old(pageIndex)
    {
      ghost var bits := State().bits;
      found := false;
      while !found && pageIndex < size * 8
        invariant old(pageIndex) <= pageIndex
        invariant pageIndex <= size * 8 || pageIndex == old(pageIndex)
        invariant FirstClear(bits, old(pageIndex)) == FirstClear(bits, pageIndex)
        invariant found ==> pageIndex < size * 8 && !bits[pageIndex]
        decreases size * 8 - pageIndex, if found then 0 else 1
      {
        var bit := GetBit(pageIndex);
        if !bit {
          found := true;
        } else {
          assert FirstClear(bits, pageIndex) == FirstClear(bits, pageIndex + 1);
          pageIndex := pageIndex + 1;
        }
      }
      if found {
        assert FirstClear(bits, pageIndex) == Some(pageIndex);
      } else {
        assert FirstClear(bits, pageIndex) == None;
      }
    }

    method RequestPage() returns (address: u32)
      requires Valid()
      modifies this, buffer
      ensures Valid() && buffer == old(buffer) && size == old(size)
      ensures (State(), address) == Requested(old(State()))
    {
      var found := SeekClear();
      if !found {
        return 0;
      }
      address := pageIndex * PAGE_SIZE;
      assert PageOf(address) == pageIndex;
      LockPage(address);
    }
  }
}
