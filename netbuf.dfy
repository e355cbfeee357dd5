/**
 * The packet buffers of src/net/buf.c. Each buffer is one 4 KiB frame; the bytes of
 * the packet are those between `start` and `end`, which begin 256 bytes into the
 * frame so that lower layers can prepend their headers in place. Released buffers
 * go on a freelist, threaded in C through each buffer's `link` field and here the
 * sequence `freeList`, head first.
 */
module NetBuf {
  import opened CInt
  import opened FrameAllocator
  import opened Checksum

  /** NET_BUF_START: where a fresh buffer's packet begins, leaving room for headers. */
  const NET_BUF_START: nat := 256

  class Buf {
    /** The frame holding the buffer, as bytes. */
    const data: array<byte>
    /** Address of the frame, as the allocator returned it. */
    const address: u32
    var start: nat
    var end: nat
    var refCount: u32
    var seqNo: u32
    var flags: u32

    ghost predicate Valid()
      reads this
    {
      data.Length == PAGE_SIZE && start <= end <= PAGE_SIZE
    }

    /** The packet: the bytes from `start` up to `end`. */
    function Payload(): (p: seq<byte>)
      reads this, data
      requires Valid()
      ensures |p| == end - start
    {
      data[start..end]
    }

    /** How each layer prepends its header: `start` moves back over `bytes`, written in place. */
    method Prepend(bytes: seq<byte>)
      requires Valid() && |bytes| <= start
      modifies this`start, data
      ensures Valid() && start == old(start) - |bytes| && end == old(end)
      ensures Payload() == bytes + old(Payload())
    {
      ghost var p := Payload();
      var at := start - |bytes|;
      var k := 0;
      while k < |bytes|
        invariant 0 <= k <= |bytes|
        invariant data[at..at + k] == bytes[..k]
        invariant data[start..end] == p
        modifies data
      {
        data[at + k] := bytes[k];
        assert data[at..at + k + 1] == data[at..at + k] + [bytes[k]];
        k := k + 1;
      }
      assert data[at..end] == data[at..start] + data[start..end];
      start := at;
    }

    /** How a layer fills a buffer: `bytes` are copied at `end`, which moves past them. */
    method Append(bytes: seq<byte>)
      requires Valid() && end + |bytes| <= PAGE_SIZE
      modifies this`end, data
      ensures Valid() && start == old(start) && end == old(end) + |bytes|
      ensures Payload() == old(Payload()) + bytes
    {
      ghost var p := Payload();
      var k := 0;
      while k < |bytes|
        invariant 0 <= k <= |bytes|
        invariant data[end..end + k] == bytes[..k]
        invariant data[start..end] == p
        modifies data
      {
        data[end + k] := bytes[k];
        assert data[end..end + k + 1] == data[end..end + k] + [bytes[k]];
        k := k + 1;
      }
      assert data[start..end + |bytes|] == data[start..end] + data[end..end + |bytes|];
      end := end + |bytes|;
    }

    /** How a layer fills in a 16-bit field once the packet is in place, such as a checksum. */
    method Patch(k: nat, a: byte, b: byte)
      requires Valid() && start + k + 2 <= end
      modifies data
      ensures Valid() && Payload() == Patched(old(Payload()), k, a, b)
    {
      data[start + k] := a;
      data[start + k + 1] := b;
      assert Payload() == Patched(old(Payload()), k, a, b);
    }

    /** How a layer strips what surrounds its payload: the packet becomes `[skip, len)` of itself. */
    method Narrow(skip: nat, len: nat)
      requires Valid() && skip <= len <= end - start
      modifies this`start, this`end
      ensures Valid() && start == old(start) + skip && end == old(start) + len
      ensures Payload() == old(Payload())[skip..len]
    {
      ghost var p := Payload();
      assert forall i :: skip <= i < len ==> p[i] == data[start + i];
      assert p[skip..len] == data[start + skip..start + len];
      end := start + len;
      start := start + skip;
    }

    constructor (address: u32)
      ensures fresh(data) && data.Length == PAGE_SIZE && this.address == address
      ensures start == NET_BUF_START && end == NET_BUF_START && refCount == 1
    {
      this.address := address;
      data := new byte[PAGE_SIZE](_ => 0);
      start := NET_BUF_START;
      end := NET_BUF_START;
      refCount := 1;
    }
  }

  class Pool {
    var freeList: seq<Buf>
    /** net_buf_alloc_count. */
    var allocCount: int
    /** The buffers handed out and not yet released for the last time. */
    ghost var live: set<Buf>

    /** Free buffers are distinct whole frames, and none of them is in use. */
    ghost predicate Valid()
      reads this
    {
      (forall i, j :: 0 <= i < j < |freeList| ==> freeList[i] != freeList[j]) &&
      (forall b :: b in freeList ==> b !in live && b.data.Length == PAGE_SIZE)
    }

    /** The counter counts the buffers in use. */
    ghost predicate Counted()
      reads this
    {
      allocCount == |live|
    }

    /** Free buffers hold no reference; every buffer in use holds one. */
    ghost predicate Referenced()
      reads this, freeList`refCount, live`refCount
    {
      (forall b :: b in freeList ==> b.refCount == 0) && (forall b :: b in live ==> b.refCount > 0)
    }

    /** What filling a newly allocated buffer may write: a reused buffer and its frame. */
    function Reused(): set<object>
      reads this
    {
      if freeList == [] then {} else {freeList[0], freeList[0].data}
    }

    constructor ()
      ensures Valid() && Counted() && Referenced() && freeList == [] && allocCount == 0 && live == {}
    {
      freeList := [];
      allocCount := 0;
      live := {};
    }

    /**
     * net_alloc_buf: the freelist head is reused, or else a new frame is requested;
     * either way the buffer comes back with one reference and an empty packet at
     * offset 256, and the counter rises by one.
     */
    method Alloc(pfa: Allocator) returns (buf: Buf)
      requires Valid() && pfa.Valid()
      modifies this, pfa, pfa.buffer, if freeList == [] then {} else {freeList[0]}
      ensures Valid() && pfa.Valid() && pfa.buffer == old(pfa.buffer)
      ensures buf.Valid() && buf.refCount == 1 && buf.start == NET_BUF_START && buf.end == NET_BUF_START
      ensures buf !in old(live) && live == old(live) + {buf} && allocCount == old(allocCount) + 1
      ensures old(freeList) == [] ==>
        fresh(buf) && fresh(buf.data) && freeList == [] &&
        (pfa.State(), buf.address) == Requested(old(pfa.State()))
      ensures old(freeList) != [] ==>
        buf == old(freeList[0]) && freeList == old(freeList[1..]) && pfa.State() == old(pfa.State())
    {
      if freeList == [] {
        buf := AllocFresh(pfa);
      } else {
        buf := TakeFree();
      }
    }

    /** An empty freelist: a new frame from the allocator becomes the buffer. */
    method AllocFresh(pfa: Allocator) returns (buf: Buf)
      requires Valid() && pfa.Valid()
      modifies this`allocCount, this`live, pfa, pfa.buffer
      ensures Valid() && pfa.Valid() && pfa.buffer == old(pfa.buffer)
      ensures fresh(buf) && fresh(buf.data) && (pfa.State(), buf.address) == Requested(old(pfa.State()))
      ensures buf.Valid() && buf.refCount == 1 && buf.start == NET_BUF_START && buf.end == NET_BUF_START
      ensures live == old(live) + {buf} && allocCount == old(allocCount) + 1
      ensures old(Counted()) ==> Counted()
      ensures old(Referenced()) ==> Referenced()
    {
      var address := pfa.RequestPage();
      buf := new Buf(address);
      allocCount := allocCount + 1;
      live := live + {buf};
    }

    /** A nonempty freelist: its head is unlinked and reset for use. */
    method TakeFree() returns (buf: Buf)
      requires Valid() && freeList != []
      modifies this, freeList[0]
      ensures Valid() && buf == old(freeList[0]) && freeList == old(freeList[1..]) && buf !in old(live)
      ensures buf.Valid() && buf.refCount == 1 && buf.start == NET_BUF_START && buf.end == NET_BUF_START
      ensures live == old(live) + {buf} && allocCount == old(allocCount) + 1
      ensures old(Counted()) ==> Counted()
      ensures old(Referenced()) ==> Referenced()
    {
      buf := freeList[0];
      freeList := freeList[1..];
      buf.start := NET_BUF_START;
      buf.end := NET_BUF_START;
      buf.refCount := 1;
      allocCount := allocCount + 1;
      live := live + {buf};
    }

    /**
     * net_free_buf: drops one reference; the last one returns the buffer to the head
     * of the freelist and lowers the counter. The caller holds a reference.
     */
    method Release(buf: Buf)
      requires Valid() && buf in live && buf.refCount > 0 && buf.data.Length == PAGE_SIZE
      modifies this, buf`refCount
      ensures Valid() && buf.refCount == old(buf.refCount) - 1
      ensures old(Counted()) ==> Counted()
      ensures old(Referenced()) ==> Referenced()
      ensures old(buf.refCount) == 1 ==>
        freeList == [buf] + old(freeList) && live == old(live) - {buf} && allocCount == old(allocCount) - 1
      ensures old(buf.refCount) > 1 ==>
        freeList == old(freeList) && live == old(live) && allocCount == old(allocCount)
    {
      buf.refCount := buf.refCount - 1;
      if buf.refCount == 0 {
        allocCount := allocCount - 1;
        freeList := [buf] + freeList;
        live := live - {buf};
      }
    }
  }
}
