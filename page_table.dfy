/**
 * The two-level i386 page tables of src/cpu/paging.c: a page directory with 1024
 * table pointers (0 for none) and their physical addresses, each table holding 1024
 * page entries. The contents of the table frames live in `memory`, keyed by frame
 * address, so two pointers to one frame see the same entries, as they do in C.
 */
module PageTable {
  import opened CInt
  import opened Wrappers
  import opened FrameAllocator

  const ENTRIES: int := 1024

  type u20 = x: int | 0 <= x < 0x10_0000

  /** page_t: the packed bit fields of one page-table entry. */
  datatype PageEntry = PageEntry(
    present: bool, readWrite: bool, userSupervisor: bool, accessed: bool, dirty: bool,
    unused: int, address: u20)

  /** The entry a zero-filled frame holds. */
  const ZeroEntry: PageEntry := PageEntry(false, false, false, false, false, 0, 0)

  function ZeroTable(): (t: seq<PageEntry>)
    ensures |t| == ENTRIES && forall k :: 0 <= k < ENTRIES ==> t[k] == ZeroEntry
  {
    seq(ENTRIES, _ => ZeroEntry)
  }

  /** Directory slot and table slot of a virtual address. */
  function DirIndex(virt: u32): (i: nat)
    ensures i < ENTRIES
  {
    virt / PAGE_SIZE / ENTRIES
  }

  function TableIndex(virt: u32): (i: nat)
    ensures i < ENTRIES
  {
    virt / PAGE_SIZE % ENTRIES
  }

  /** Two addresses on the same 4 KiB page share both indices. */
  lemma SamePageSameSlots(v: u32, w: u32)
    requires v / PAGE_SIZE == w / PAGE_SIZE
    ensures DirIndex(v) == DirIndex(w) && TableIndex(v) == TableIndex(w)
  {
  }

  /** `frame | 0x07`: present, writable and user bits on a page-aligned frame address. */
  function WithFlags(frame: u32): u32
  {
    frame - frame % 8 + 7
  }

  class Directory {
    var tables: seq<u32>
    var physicalTables: seq<u32>
    var memory: map<u32, seq<PageEntry>>

    ghost predicate Valid()
      reads this
    {
      |tables| == ENTRIES && |physicalTables| == ENTRIES &&
      (forall f :: f in memory ==> |memory[f]| == ENTRIES) &&
      (forall i :: 0 <= i < ENTRIES && tables[i] != 0 ==> tables[i] in memory) &&
      (forall i, j :: 0 <= i < j < ENTRIES && tables[i] != 0 ==> tables[i] != tables[j])
    }

    /** Every table frame the directory points at is page aligned and marked used in the allocator. */
    ghost predicate TablesLocked(pfa: Allocator)
      reads this, pfa, pfa.buffer
      requires Valid()
    {
      forall i :: 0 <= i < ENTRIES && tables[i] != 0 ==>
        tables[i] % PAGE_SIZE == 0 && PageOf(tables[i]) < |pfa.State().bits| && pfa.State().bits[PageOf(tables[i])]
    }

    /** Whether pde_get_phys_addr can read the entry for `virt` from a known frame. */
    predicate Readable(virt: u32)
      reads this
      requires Valid()
    {
      tables[DirIndex(virt)] in memory
    }

    function Entry(virt: u32): PageEntry
      reads this
      requires Valid() && Readable(virt)
    {
      memory[tables[DirIndex(virt)]][TableIndex(virt)]
    }

    /** pde_get_phys_addr: the frame of the entry plus the offset within the page. */
    function PhysAddr(virt: u32): (phys: u32)
      reads this
      requires Valid() && Readable(virt)
      ensures phys % PAGE_SIZE == virt % PAGE_SIZE
      ensures phys / PAGE_SIZE == Entry(virt).address
    {
      Entry(virt).address * PAGE_SIZE + virt % PAGE_SIZE
    }

    constructor ()
      ensures Valid() && memory == map[]
      ensures forall i :: 0 <= i < ENTRIES ==> tables[i] == 0 && physicalTables[i] == 0
    {
      tables := seq(ENTRIES, _ => 0);
      physicalTables := seq(ENTRIES, _ => 0);
      memory := map[];
    }

    /**
     * The first half of pde_map_memory: when directory slot `d` is null, a frame is
     * requested from the allocator, zero-filled and installed with flags 0x07.
     */
    method EnsureTable(pfa: Allocator, d: nat)
      requires Valid() && pfa.Valid() && TablesLocked(pfa) && d < ENTRIES
      modifies this, pfa, pfa.buffer
      ensures Valid() && pfa.Valid() && pfa.buffer == old(pfa.buffer) && TablesLocked(pfa)
      ensures tables[d] in memory
      ensures old(tables[d]) != 0 ==>
        tables == old(tables) && physicalTables == old(physicalTables) && memory == old(memory) &&
        pfa.State() == old(pfa.State())
      ensures old(tables[d]) == 0 ==>
        tables == old(tables)[d := tables[d]] &&
        physicalTables == old(physicalTables)[d := WithFlags(tables[d])] &&
        memory == old(memory)[tables[d] := ZeroTable()] &&
        (forall i :: 0 <= i < ENTRIES && old(tables[i]) != 0 ==> old(tables[i]) != tables[d]) &&
        (pfa.State(), tables[d]) == Requested(old(pfa.State()))
    {
      if tables[d] != 0 {
        return;
      }
      ghost var bits0 := pfa.State().bits;
      ghost var found := FirstClear(bits0, pfa.pageIndex);
      var t := pfa.RequestPage();
      ghost var bits1 := pfa.State().bits;
      if found.Some? {
        assert t == found.value * PAGE_SIZE && PageOf(t) == found.value;
        assert bits1 == bits0[found.value := true];
      } else {
        assert t == 0 && bits1 == bits0;
      }
      forall i | 0 <= i < ENTRIES && tables[i] != 0
        ensures tables[i] != t && bits1[PageOf(tables[i])]
      {
        assert bits0[PageOf(tables[i])];
      }
      tables := tables[d := t];
      memory := memory[t := ZeroTable()];
      physicalTables := physicalTables[d := WithFlags(t)];
    }

    /**
     * pde_map_memory: a missing table is taken from the allocator and zero-filled, then
     * the entry of `virt` is marked present and pointed at the frame of `phys`; its other
     * bits are left as they were.
     */
    method MapMemory(pfa: Allocator, virt: u32, phys: u32)
      requires Valid() && pfa.Valid() && TablesLocked(pfa)
      modifies this, pfa, pfa.buffer
      ensures Valid() && pfa.Valid() && pfa.buffer == old(pfa.buffer) && TablesLocked(pfa)
      ensures var d := DirIndex(virt);
        if old(tables[d]) != 0 then
          tables == old(tables) && physicalTables == old(physicalTables) && pfa.State() == old(pfa.State())
        else
          tables == old(tables)[d := tables[d]] &&
          physicalTables == old(physicalTables)[d := WithFlags(tables[d])] &&
          tables[d] in memory && (forall k :: 0 <= k < ENTRIES && k != TableIndex(virt) ==> memory[tables[d]][k] == ZeroEntry) &&
          (pfa.State(), tables[d]) == Requested(old(pfa.State()))
      ensures Readable(virt)
      ensures Entry(virt) == (if old(tables[DirIndex(virt)]) != 0 then old(Entry(virt)) else ZeroEntry)
                               .(present := true, address := PageOf(phys))
      ensures forall w: u32 :: w / PAGE_SIZE == virt / PAGE_SIZE ==>
        Readable(w) && PhysAddr(w) == phys / PAGE_SIZE * PAGE_SIZE + w % PAGE_SIZE
      ensures forall w: u32 :: old(tables[DirIndex(w)]) != 0 && w / PAGE_SIZE != virt / PAGE_SIZE ==>
        Readable(w) && Entry(w) == old(Entry(w))
    {
      var address := virt / PAGE_SIZE;
      var d := address / ENTRIES;
      EnsureTable(pfa, d);
      var t := tables[d];
      var e := memory[t][address % ENTRIES];
      ghost var before := memory;
      SetEntry(t, address % ENTRIES, e.(present := true, address := phys / PAGE_SIZE));
      forall w: u32 | w / PAGE_SIZE == virt / PAGE_SIZE
        ensures Readable(w) && PhysAddr(w) == phys / PAGE_SIZE * PAGE_SIZE + w % PAGE_SIZE
      {
        SamePageSameSlots(w, virt);
      }
      forall w: u32 | old(tables[DirIndex(w)]) != 0 && w / PAGE_SIZE != virt / PAGE_SIZE
        ensures Readable(w) && Entry(w) == old(Entry(w))
      {
        assert tables[DirIndex(w)] == old(tables[DirIndex(w)]);
        if DirIndex(w) != d {
          assert tables[DirIndex(w)] != t;
        } else {
          assert TableIndex(w) != address % ENTRIES;
        }
      }
    }

    /** Overwrites one entry of one table frame. */
    method SetEntry(t: u32, k: nat, e: PageEntry)
      requires Valid() && t in memory && k < ENTRIES
      modifies this`memory
      ensures Valid() && memory == old(memory)[t := old(memory)[t][k := e]]
    {
      memory := memory[t := memory[t][k := e]];
    }
  }
}
