/**
 * Segment descriptors and the task-state segment of src/cpu/gdt.c. A descriptor is the
 * eight bytes of a gdt_entry_t, written one by one into the descriptor table: the 20-bit
 * limit in bytes 0, 1 and the low nibble of byte 6, the base in bytes 2, 3, 4 and 7, the
 * access byte in byte 5 and the flags in the high nibble of byte 6 (the layout of section
 * 3.4.5 of the Intel 64 and IA-32 Architectures Software Developer's Manual, Volume 3A).
 *
 * `x & 0xFF` is `x % 0x100` and `x >> n` is `x / 2^n` on the unsigned operands here.
 */
module Gdt {
  import opened CInt

  const DescriptorSize := 8

  /** The descriptor gdt_encode_entry writes, bytes 0 to 7. */
  function Descriptor(base: u32, limit: u32, access: byte, flags: byte): (e: seq<byte>)
    ensures |e| == DescriptorSize
  {
    var low := limit / 0x1_0000 % 0x10;
    FlagsNibble(low, flags);
    [limit % 0x100, limit / 0x100 % 0x100, base % 0x100, base / 0x100 % 0x100, base / 0x1_0000 % 0x100, access,
     BitOr(low, Wrap8(flags * 0x10)), base / 0x100_0000]
  }

  /** The processor reads back the base, the low 20 bits of the limit, the access byte and the low nibble of the flags. */
  lemma DescriptorFields(base: u32, limit: u32, access: byte, flags: byte)
    ensures var e := Descriptor(base, limit, access, flags);
      BaseOf(e) == base && LimitOf(e) == limit % 0x10_0000 && AccessOf(e) == access && FlagsOf(e) == flags % 0x10
  {
    var e := Descriptor(base, limit, access, flags);
    var low := limit / 0x1_0000 % 0x10;
    FlagsNibble(low, flags);
    NibbleOf(low, flags % 0x10);
    assert e[6] % 0x10 == low && e[6] / 0x10 == flags % 0x10;
    assert BaseOf(e) == base by {
      assert e[2] == base % 0x100 && e[3] == base / 0x100 % 0x100 && e[4] == base / 0x1_0000 % 0x100;
      FourBytes(base);
    }
    assert LimitOf(e) == limit % 0x10_0000 by {
      assert e[0] == limit % 0x100 && e[1] == limit / 0x100 % 0x100;
      TwentyBits(limit);
    }
  }

  /** A byte made of two nibbles gives them back. */
  lemma NibbleOf(low: nat, high: nat)
    requires low < 0x10
    ensures (low + high * 0x10) % 0x10 == low && (low + high * 0x10) / 0x10 == high
  {
  }

  /** Byte 6: the limit's top nibble or-ed with `flags << 4` kept to a byte. */
  lemma FlagsNibble(low: nat, flags: byte)
    requires low < 0x10
    ensures Wrap8(flags * 0x10) == flags % 0x10 * 0x10
    ensures BitOr(low, Wrap8(flags * 0x10)) == low + flags % 0x10 * 0x10 < 0x100
  {
    var hi, lo := flags / 0x10, flags % 0x10;
    assert flags * 0x10 == hi * 0x100 + lo * 0x10;
    assert lo * 0x10 < 0x100;
    WrapBelow(hi, lo * 0x10);
    assert Pow2(4) == 0x10;
    BitOrDisjoint(low, lo, 4);
  }

  /** Dropping whole multiples of 0x100. */
  lemma WrapBelow(q: nat, r: nat)
    requires r < 0x100
    ensures Wrap8(q * 0x100 + r) == r
  {
  }

  /** A 32-bit value is the sum of its four bytes, least significant first. */
  lemma FourBytes(x: u32)
    ensures x == x % 0x100 + x / 0x100 % 0x100 * 0x100 + x / 0x1_0000 % 0x100 * 0x1_0000 + x / 0x100_0000 * 0x100_0000
  {
    var b0, q1 := x % 0x100, x / 0x100;
    var b1, q2 := q1 % 0x100, q1 / 0x100;
    var b2, q3 := q2 % 0x100, q2 / 0x100;
    DivMod(x, 0x1_0000, q2, b0 + b1 * 0x100);
    DivMod(x, 0x100_0000, q3, b0 + b1 * 0x100 + b2 * 0x1_0000);
  }

  /** The low 20 bits of a value are its two low bytes and the low nibble of the third. */
  lemma TwentyBits(x: u32)
    ensures x % 0x10_0000 == x % 0x100 + x / 0x100 % 0x100 * 0x100 + x / 0x1_0000 % 0x10 * 0x1_0000
  {
    var b0, q1 := x % 0x100, x / 0x100;
    var b1, q2 := q1 % 0x100, q1 / 0x100;
    var n, h := q2 % 0x10, q2 / 0x10;
    DivMod(x, 0x1_0000, q2, b0 + b1 * 0x100);
    DivMod(x, 0x10_0000, h, b0 + b1 * 0x100 + n * 0x1_0000);
  }

  /** The fields as the processor reads them back out of the eight bytes. */
  function BaseOf(e: seq<byte>): nat
    requires |e| == DescriptorSize
  {
    e[2] as nat + e[3] as nat * 0x100 + e[4] as nat * 0x1_0000 + e[7] as nat * 0x100_0000
  }

  function LimitOf(e: seq<byte>): nat
    requires |e| == DescriptorSize
  {
    e[0] as nat + e[1] as nat * 0x100 + e[6] as nat % 0x10 * 0x1_0000
  }

  function AccessOf(e: seq<byte>): byte
    requires |e| == DescriptorSize
  {
    e[5]
  }

  function FlagsOf(e: seq<byte>): byte
    requires |e| == DescriptorSize
  {
    e[6] / 0x10
  }

  /** Every eight bytes are the descriptor of the fields read out of them: the encoding loses nothing else. */
  lemma DescriptorOfFields(e: seq<byte>)
    requires |e| == DescriptorSize
    ensures BaseOf(e) < 0x1_0000_0000 && LimitOf(e) < 0x10_0000
    ensures Descriptor(BaseOf(e), LimitOf(e), AccessOf(e), FlagsOf(e)) == e
  {
    BaseBytes(e);
    LimitBytes(e);
    var d := Descriptor(BaseOf(e), LimitOf(e), AccessOf(e), FlagsOf(e));
    assert d[6] == e[6] by {
      FlagsNibble(e[6] % 0x10, FlagsOf(e));
      assert e[6] == e[6] % 0x10 + e[6] / 0x10 * 0x10;
    }
    assert d[0] == e[0] && d[1] == e[1] && d[2] == e[2] && d[3] == e[3];
    assert d[4] == e[4] && d[5] == e[5] && d[7] == e[7];
  }

  /** The base read out of a descriptor gives back its four bytes. */
  lemma BaseBytes(e: seq<byte>)
    requires |e| == DescriptorSize
    ensures BaseOf(e) < 0x1_0000_0000
    ensures BaseOf(e) % 0x100 == e[2] && BaseOf(e) / 0x100 % 0x100 == e[3]
    ensures BaseOf(e) / 0x1_0000 % 0x100 == e[4] && BaseOf(e) / 0x100_0000 == e[7]
  {
    ByteDigits(e[2], e[3], e[4], e[7]);
  }

  /** The limit read out of a descriptor gives back bytes 0 and 1 and the low nibble of byte 6. */
  lemma LimitBytes(e: seq<byte>)
    requires |e| == DescriptorSize
    ensures LimitOf(e) < 0x10_0000
    ensures LimitOf(e) % 0x100 == e[0] && LimitOf(e) / 0x100 % 0x100 == e[1]
    ensures LimitOf(e) / 0x1_0000 % 0x10 == e[6] % 0x10
  {
    ByteDigits(e[0], e[1], e[6] % 0x10, 0);
  }

  /** The flat 4 GiB segments the kernel sets up: limit 0xFFFFF with flags 0xC (4 KiB granularity, 32-bit). */
  lemma FlatSegment(access: byte)
    ensures Descriptor(0, 0xF_FFFF, access, 0xC) == [0xFF, 0xFF, 0, 0, 0, access, 0xCF, 0]
  {
    var d := Descriptor(0, 0xF_FFFF, access, 0xC);
    FlagsNibble(0xF, 0xC);
    assert d[6] == 0xCF;
    assert d[0] == 0xFF && d[1] == 0xFF && d[2] == 0 && d[3] == 0 && d[4] == 0 && d[7] == 0;
  }

  /** gdt_encode_entry: the eight bytes at `at` in the table are written; nothing else changes. */
  method EncodeEntry(table: array<byte>, at: nat, base: u32, limit: u32, access: byte, flags: byte)
    requires at + DescriptorSize <= table.Length
    modifies table
    ensures table[..] == old(table[..at]) + Descriptor(base, limit, access, flags) + old(table[at + DescriptorSize..])
  {
    table[at + 0] := limit % 0x100;
    table[at + 1] := limit / 0x100 % 0x100;
    table[at + 6] := limit / 0x1_0000 % 0x10;
    table[at + 2] := base % 0x100;
    table[at + 3] := base / 0x100 % 0x100;
    table[at + 4] := base / 0x1_0000 % 0x100;
    table[at + 7] := base / 0x100_0000;
    table[at + 5] := access;
    FlagsNibble(table[at + 6], flags);
    table[at + 6] := BitOr(table[at + 6], Wrap8(flags * 0x10));
    assert table[at..at + DescriptorSize] == Descriptor(base, limit, access, flags);
    assert table[..] == table[..at] + table[at..at + DescriptorSize] + table[at + DescriptorSize..];
  }

  /**
   * The 27 fields of the 32-bit task-state segment in their order (section 7.2.1 of the same
   * manual), by index: the previous task link, esp0, ss0, esp1, ss1, esp2, ss2, cr3, eip, eflags,
   * eight general registers, es, cs, ss, ds, fs, gs, the LDT selector, the trap flag and the
   * I/O map base.
   */
  const TssFields := 27
  const Esp0 := 1
  const Ss0 := 2
  const Es := 18
  const Cs := 19
  const Ss := 20
  const Ds := 21
  const Fs := 22
  const Gs := 23
  const Iopb := 26

  /** sizeof(tss_entry_t): the 104 bytes of the hardware layout. */
  const TssSize := 104
  /** The kernel code selector with requested privilege 3, and the kernel data selector likewise. */
  const TssCode := 0x0B
  const TssData := 0x13
  /** The access byte of the TSS descriptor: present, privilege 3, a 32-bit available TSS. */
  const TssAccess := 0xE9

  /** The segment selectors tss_encode_entry sets to the data selector. */
  const DataSegments: set<nat> := {Es, Ss, Ds, Fs, Gs}

  /** The segment limit of the TSS descriptor as written: the TSS's end address, `base + sizeof(tss_entry)`. */
  function TssLimitAsWritten(base: u32): (limit: u32)
    ensures base + TssSize < 0x1_0000_0000 ==> limit == base + TssSize
  {
    Wrap32(base + TssSize)
  }

  /** A TSS at 0x00105000 gets a segment of 0x5069 bytes, not 104: the limit holds the end address's low 20 bits. */
  lemma TssLimitAsWrittenTooLarge()
    ensures LimitOf(Descriptor(0x0010_5000, TssLimitAsWritten(0x0010_5000), TssAccess, 0)) == 0x5068
    ensures 0x5068 > TssSize - 1
  {
  }

  /** The limit intended: a segment limit is the offset of the segment's last byte. */
  const TssLimit := TssSize - 1

  /** The TSS tss_encode_entry leaves: zeroed, then the ring-0 stack, the selectors and the I/O map base. */
  function Initialized(ss0: u16, esp0: u32): (m: seq<nat>)
    ensures |m| == TssFields
  {
    seq(TssFields, _ => 0)[Ss0 := ss0][Esp0 := esp0][Cs := TssCode][Ss := TssData][Ds := TssData]
      [Es := TssData][Fs := TssData][Gs := TssData][Iopb := TssSize]
  }

  /** In it, the ring-0 stack is the one given, the code and data selectors are those of ring 3, and every other field is 0. */
  lemma InitializedFields(ss0: u16, esp0: u32)
    ensures var m := Initialized(ss0, esp0);
      && m[Ss0] == ss0 && m[Esp0] == esp0 && m[Cs] == TssCode && m[Iopb] == TssSize
      && (forall f :: f in DataSegments ==> m[f] == TssData)
      && (forall f :: 0 <= f < TssFields && f !in DataSegments && f !in {Ss0, Esp0, Cs, Iopb} ==> m[f] == 0)
  {
  }

  /** The global tss_entry at its address. */
  class TaskState {
    const address: u32
    var fields: seq<nat>

    predicate Valid()
      reads this
    {
      |fields| == TssFields
    }

    constructor(at: u32)
      ensures Valid() && address == at && forall f :: 0 <= f < TssFields ==> fields[f] == 0
    {
      address := at;
      fields := seq(TssFields, _ => 0);
    }

    /**
     * tss_encode_entry, with the limit corrected to TssLimit: the descriptor of the TSS goes
     * into the table, then the TSS is zeroed and given the ring-0 stack, the selectors and
     * the I/O map base.
     */
    method EncodeTss(table: array<byte>, at: nat, ss0: u16, esp0: u32)
      requires Valid() && at + DescriptorSize <= table.Length
      modifies this, table
      ensures Valid()
      ensures table[..] == old(table[..at]) + Descriptor(address, TssLimit, TssAccess, 0) + old(table[at + DescriptorSize..])
      ensures fields == Initialized(ss0, esp0)
    {
      var base := address;
      var limit := TssLimit;
      EncodeEntry(table, at, base, limit, TssAccess, 0x00);
      fields := seq(TssFields, _ => 0);
      fields := fields[Ss0 := ss0];
      fields := fields[Esp0 := esp0];
      fields := fields[Cs := TssCode];
      fields := fields[Ss := TssData];
      fields := fields[Ds := TssData];
      fields := fields[Es := TssData];
      fields := fields[Fs := TssData];
      fields := fields[Gs := TssData];
      fields := fields[Iopb := TssSize];
    }

    /** set_kernel_stack: only esp0 changes. */
    method SetKernelStack(stack: u32)
      requires Valid()
      modifies this
      ensures Valid() && fields == old(fields)[Esp0 := stack]
    {
      fields := fields[Esp0 := stack];
    }
  }

  /** The descriptor of the corrected TSS spans exactly the TSS: its bytes run from the base through base + 103. */
  lemma TssDescriptorSpansTss(base: u32)
    ensures var e := Descriptor(base, TssLimit, TssAccess, 0);
      BaseOf(e) == base && LimitOf(e) + 1 == TssSize && AccessOf(e) == TssAccess
  {
    DescriptorFields(base, TssLimit, TssAccess, 0);
  }
}
