/** One x86-64 page table entry: the packed 64-bit word and the record that the other
    modules use instead of it. */
module PageTableEntry {

  /** An entry split into its three fields: the flags in bits 0-11, the frame number in
      bits 12-51 and the flags in bits 52-63. */
  datatype Entry = Entry(frame: nat, low: nat, high: nat)

  const FRAME_LIMIT: nat := 0x100_0000_0000
  const HIGH_UNIT: nat := 0x10_0000_0000_0000

  const PRESENT: nat := 1
  const WRITABLE: nat := 2
  const ACCESSED: nat := 0x20
  const DIRTY: nat := 0x40
  const HUGE_PAGE: nat := 0x80
  const NO_EXECUTE: nat := 0x800 // bit 63

  predicate Present(e: Entry) { e.low % 2 == 1 }

  predicate Huge(e: Entry) { e.low / HUGE_PAGE % 2 == 1 }

  /** A zeroed entry. */
  const UNUSED := Entry(0, 0, 0)

  /** An entry that points to a table, with the flags Linux expects there. */
  function TableEntry(frame: nat): Entry {
    Entry(frame, PRESENT + WRITABLE + ACCESSED + DIRTY, 0)
  }

  datatype Prot = Prot(write: bool, exec: bool)

  /** A leaf entry with the flags of `page_table_flags`. */
  function LeafEntry(frame: nat, p: Prot): Entry {
    Entry(frame, PRESENT + ACCESSED + (if p.write then WRITABLE else 0),
          if p.exec then 0 else NO_EXECUTE)
  }

  predicate Fits(e: Entry) { e.frame < FRAME_LIMIT && e.low < 4096 && e.high < 4096 }

  function Encode(e: Entry): nat { e.low + 4096 * e.frame + HIGH_UNIT * e.high }

  function Decode(raw: nat): Entry {
    Entry(raw / 4096 % FRAME_LIMIT, raw % 4096, raw / HIGH_UNIT)
  }

  /** Splitting a word and packing it again gives the word back, so a table that is read
      and later restored gets its old bytes back. */
  lemma EncodeDecode(raw: nat)
    requires raw < 0x1_0000_0000_0000_0000
    ensures Fits(Decode(raw)) && Encode(Decode(raw)) == raw
  {
  }

  lemma DecodeEncode(e: Entry)
    requires Fits(e)
    ensures Encode(e) < 0x1_0000_0000_0000_0000 && Decode(Encode(e)) == e
  {
    var raw, upper := Encode(e), e.frame + FRAME_LIMIT * e.high;
    assert raw == e.low + 4096 * upper;
    assert raw / 4096 == upper && raw % 4096 == e.low;
    assert upper / FRAME_LIMIT == e.high && upper % FRAME_LIMIT == e.frame;
    assert raw == e.low + 4096 * e.frame + HIGH_UNIT * e.high;
  }

  const ADDR_MASK: bv64 := 0x000f_ffff_ffff_f000

  function RawAddr(raw: bv64): bv64 { raw & ADDR_MASK }

  function RawFlags(raw: bv64): bv64 { raw & !ADDR_MASK }

  function RawSet(addr: bv64, flags: bv64): bv64 { addr | flags }

  /** An entry written by `set_addr` reads back as the address and the flags it was given
      exactly when the address has no bit outside the address field, that is, when it is a
      page aligned address below 2^52, and the flags have none inside.  The bitwise or is then a
      sum, as in `Encode`. */
  lemma SetAddrReadsBack(addr: bv64, flags: bv64)
    ensures RawAddr(RawSet(addr, flags)) == addr && RawFlags(RawSet(addr, flags)) == flags
            <==> addr & !ADDR_MASK == 0 && flags & ADDR_MASK == 0
    ensures addr & !ADDR_MASK == 0 && flags & ADDR_MASK == 0 ==> RawSet(addr, flags) == addr + flags
  {
  }
}
