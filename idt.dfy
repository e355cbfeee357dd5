/**
 * Interrupt gate descriptors of src/idt.c: idt_encode_entry fills the five fields of an
 * idt_entry_t, the handler's offset split in two halves around the selector, the zero
 * byte and the type-attributes byte (present bit, privilege level, gate type; the layout
 * of section 6.11 of the Intel 64 and IA-32 Architectures Software Developer's Manual,
 * Volume 3A).
 *
 * `x & (2^k - 1)` is `x % 2^k`, `x << k` is `x * 2^k` and `x >> k` is `x / 2^k` on the
 * unsigned operands here.
 */
module Idt {
  import opened CInt

  /** The present bit, 1 << 7. */
  const Present := 0x80

  /** `(1 << 7) | ((dpl & 0x3) << 5) | (gate_type & 0xF)`: three fields that do not overlap. */
  function TypeAttributes(dpl: byte, gateType: byte): (t: byte)
    ensures t == Present + dpl % 4 * 0x20 + gateType % 0x10
  {
    var d, g := dpl % 4, gateType % 0x10;
    Pow2Small();
    BitOrDisjoint(d * 0x20, 1, 7);
    BitOrCommutes(Present, d * 0x20);
    BitOrDisjoint(g, 8 + 2 * d, 4);
    BitOrCommutes(Present + d * 0x20, g);
    BitOr(BitOr(Present, d * 0x20), g)
  }

  /** The processor reads back a present gate, the privilege level and the gate type; bit 4 stays clear. */
  lemma TypeAttributesFields(dpl: byte, gateType: byte)
    ensures var t := TypeAttributes(dpl, gateType);
      t / 0x80 == 1 && t / 0x20 % 4 == dpl % 4 && t % 0x10 == gateType % 0x10 && t / 0x10 % 2 == 0
  {
    AttributeBits(dpl % 4, gateType % 0x10);
  }

  /** The three fields read back from their sum, free of the bitwise definitions. */
  lemma AttributeBits(d: nat, g: nat)
    requires d < 4 && g < 0x10
    ensures var t := Present + d * 0x20 + g;
      t / 0x80 == 1 && t / 0x20 % 4 == d && t % 0x10 == g && t / 0x10 % 2 == 0
  {
    var t := Present + d * 0x20 + g;
    DivMod(t, 0x10, 8 + 2 * d, g);
    DivMod(t, 0x20, 4 + d, g);
    DivMod(4 + d, 4, 1, d);
    DivMod(8 + 2 * d, 2, 4 + d, 0);
    DivMod(t, 0x80, 1, d * 0x20 + g);
  }

  /** An idt_entry_t in the table. */
  class GateDescriptor {
    var offset1: u16
    var selector: u16
    var zero: byte
    var typeAttributes: byte
    var offset2: u16

    constructor()
      ensures offset1 == 0 && selector == 0 && zero == 0 && typeAttributes == 0 && offset2 == 0
    {
      offset1, selector, zero, typeAttributes, offset2 := 0, 0, 0, 0, 0;
    }

    /** The handler's address as the processor reads it: offset2 above offset1. */
    function Offset(): nat
      reads this
    {
      offset1 + offset2 * 0x1_0000
    }

    /**
     * idt_encode_entry: the low half of the offset, the selector unchanged, the zero byte,
     * the attributes, the high half of the offset; the gate jumps to offset.
     */
    method Encode(offset: u32, selector: u16, dpl: byte, gateType: byte)
      modifies this
      ensures offset1 == offset % 0x1_0000 && offset2 == offset / 0x1_0000
      ensures this.selector == selector && zero == 0 && typeAttributes == TypeAttributes(dpl, gateType)
      ensures Offset() == offset
    {
      offset1 := offset % 0x1_0000;
      this.selector := selector;
      zero := 0;
      typeAttributes := TypeAttributes(dpl, gateType);
      offset2 := offset / 0x1_0000;
    }
  }

  /** The gates the kernel installs: selector 0x08, privilege 0, type 0xE (a 32-bit interrupt gate) give attributes 0x8E. */
  lemma KernelGate()
    ensures TypeAttributes(0, 0xE) == 0x8E
  {
    assert TypeAttributes(0, 0xE) == Present + 0 % 4 * 0x20 + 0xE % 0x10;
  }
}
