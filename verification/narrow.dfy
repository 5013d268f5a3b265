/** Tables shared by a narrow and a wide paging mode: marking in the one moves a
    page of the other. */
module NarrowExample {
  import opened Words
  import opened Memory
  import opened Paging
  import opened WalkStability
  import Division

  /** One megabyte: page-directory-pointer table at 0x1000, page directory at 0x2000,
      page table at 0x3000 whose first entry names frame 0x1_0000_5000; and at 0x4000
      the page directory of a legacy mode that takes the same page table for its own. */
  function Shared(): (mem: Ram)
    ensures mem.Valid()
  {
    Ram(seq<u8>(0x10_0000, i requires 0 <= i < 0x10_0000 =>
      if i == 0x1000 || i == 0x2000 || i == 0x3000 || i == 0x3004 || i == 0x4000 then 0x01
      else if i == 0x1001 then 0x20
      else if i == 0x2001 || i == 0x4001 then 0x30
      else if i == 0x3001 then 0x50 else 0), 0x10_0000)
  }

  /** `Shared` after a legacy walk of 0x1000. */
  function MarkedTables(): (mem: Ram)
    ensures mem.Valid()
  {
    WriteU8(WriteU8(Shared(), 0x4000, 0x21), 0x3004, 0x21)
  }

  /** A number of which only the two low bytes are not zero. */
  lemma LowBytes(data: seq<u8>, i: nat, n: nat)
    requires n >= 2 && i + n <= |data| && forall k :: i + 2 <= k < i + n ==> data[k] == 0
    ensures Cells(data, i, n) == data[i] as int + 0x100 * data[i + 1] as int
  {
    ZeroCells(data, i + 2, n - 2);
    assert Cells(data, i + 1, n - 1) == data[i + 1] as int + 0x100 * Cells(data, i + 2, n - 2);
  }

  lemma TableEntries(mem: Ram, high: u8)
    requires if high == 0x01 then mem == Shared() else high == 0x21 && mem == MarkedTables()
    ensures ReadU64(mem, 0x1000) == 0x2001 && ReadU64(mem, 0x2000) == 0x3001
    ensures ReadU64(mem, 0x3000) == high as int * TWO32 + 0x5001
    ensures high == 0x01 ==> ReadU32(mem, 0x4000) == 0x3001 && ReadU32(mem, 0x3004) == 1
  {
    hide Cells, ReadU64, ReadU32;
    LowReads(mem, 0x1000);
    LowBytes(mem.data, 0x1000, 8);
    LowReads(mem, 0x2000);
    LowBytes(mem.data, 0x2000, 8);
    LowReads(mem, 0x3000);
    LowBytes(mem.data, 0x3000, 4);
    LowReads(mem, 0x3004);
    LowBytes(mem.data, 0x3004, 4);
    CellsConcat(mem.data, 0x3000, 4, 4);
    ByteRanges();
    LowReads(mem, 0x4000);
    if high == 0x01 { LowBytes(mem.data, 0x4000, 4); }
  }

  /** The PAE walk of linear address 0 through those entries. */
  lemma PaeWalk(mem: Ram, cr3: u64, linear: u64, pte: u64)
    requires mem.Valid() && cr3 == 0x1000 && linear == 0 && pte % 0x1000 == 1 && pte < 0x100_0000_0000
    requires ReadU64(mem, 0x1000) == 0x2001 && ReadU64(mem, 0x2000) == 0x3001 && ReadU64(mem, 0x3000) == pte
    ensures TranslateMode(mem, cr3, linear, Pae, false)
         == Some(Mapping(pte - 1, false, false, true, [0x1000, 0x2000, 0x3000], 8))
  {
    hide ReadU64, Entry8, PdptEntry, Frame4K;
    PaePlaces(cr3, linear, ReadU64(mem, 0x1000), ReadU64(mem, 0x2000));
    FrameOf(pte);
  }

  lemma PaePlaces(cr3: u64, linear: u64, pdpte: u64, pde: u64)
    requires cr3 == 0x1000 && linear == 0 && pdpte == 0x2001 && pde == 0x3001
    ensures PdptEntry(cr3, linear % TWO32 / 0x4000_0000) == 0x1000
    ensures Entry8(Frame4K(pdpte), linear % TWO32 / 0x20_0000 % 0x200) == 0x2000
    ensures Entry8(Frame4K(pde), linear % TWO32 / 0x1000 % 0x200) == 0x3000
  {
    hide Frame4K, Present, Rw, Us;
    Division.DivUnique(cr3, 0x20, 0x80, 0);
    Division.DivUnique(linear, TWO32, 0, 0);
    FrameOf(pdpte);
    FrameOf(pde);
  }

  lemma FrameOf(pte: u64)
    requires pte % 0x1000 == 1 && pte < 0x100_0000_0000
    ensures Present(pte) && !Rw(pte) && !Us(pte) && Frame4K(pte) == pte - 1
  {
    Division.BitOfField(pte, 1, 0x800);
    Division.BitOfField(pte, 2, 0x400);
    Division.BitOfField(pte, 4, 0x200);
  }

  /** The legacy walk of 0x1000 goes through the upper half of the last of them. */
  lemma LegacyWalk(mem: Ram, cr3: u64, linear: u64)
    requires mem.Valid() && cr3 == 0x4000 && linear == 0x1000
    requires ReadU32(mem, 0x4000) == 0x3001 && ReadU32(mem, 0x3004) == 1
    ensures TranslateMode(mem, cr3, linear, Legacy, false)
         == Some(Mapping(0, false, false, true, [0x4000, 0x3004], 4))
  {
    hide ReadU32, Ram.Valid, Entry4, LegacyFrame4K;
    LegacyPlaces(cr3, linear);
  }

  lemma LegacyPlaces(cr3: u64, linear: u64)
    requires cr3 == 0x4000 && linear == 0x1000
    ensures Entry4(LegacyFrame4K(cr3), linear % TWO32 / 0x40_0000) == 0x4000
    ensures Entry4(LegacyFrame4K(0x3001), linear % TWO32 / 0x1000 % 0x400) == 0x3004
    ensures LegacyFrame4K(1) == 0
  {
    Division.DivUnique(linear, TWO32, 0, 0x1000);
    Division.DivUnique(0x1000, 0x40_0000, 0, 0x1000);
    assert linear % TWO32 == 0x1000 && 0x1000 / 0x40_0000 == 0 && 0x1000 / 0x1000 % 0x400 == 1;
    assert LegacyFrame4K(0x4000) == 0x4000 && LegacyFrame4K(0x3001) == 0x3000;
  }

  lemma LegacyMarks()
    ensures SetAccessedBits(Shared(), Mapping(0, false, false, true, [0x4000, 0x3004], 4), false) == MarkedTables()
  {
    hide MarkEntry, Mark;
    var mem := Shared();
    MarkEntryIsByte(mem, 0x4000, 4, false);
    var mem1 := MarkEntry(mem, 0x4000, 4, false);
    MarkEntryIsByte(mem1, 0x3004, 4, false);
    MarkOne();
  }

  lemma MarkOne()
    ensures Mark(0x01, false) == 0x21
  {
  }

  /** On these tables a 4 KiB page of a PAE address space moves when the accessed
      bits of one legacy walk are set: the width condition of walk stability cannot
      be dropped. */
  lemma MarkingMovesPage()
    ensures var mp := TranslateMode(Shared(), 0x4000, 0x1000, Legacy, false);
            && mp.Some? && WellFormed(mp.value)
            && var mem' := SetAccessedBits(Shared(), mp.value, false);
            && TranslateMode(Shared(), 0x1000, 0, Pae, false).Some?
            && TranslateMode(Shared(), 0x1000, 0, Pae, false).value.phys == 0x1_0000_5000
            && TranslateMode(mem', 0x1000, 0, Pae, false).Some?
            && TranslateMode(mem', 0x1000, 0, Pae, false).value.phys == 0x21_0000_5000
  {
    hide TranslateMode, SetAccessedBits, Shared, MarkedTables, ReadU64, ReadU32;
    TableEntries(Shared(), 0x01);
    TableEntries(MarkedTables(), 0x21);
    LegacyWalk(Shared(), 0x4000, 0x1000);
    LegacyMarks();
    PaeWalk(Shared(), 0x1000, 0, 0x1_0000_5001);
    PaeWalk(MarkedTables(), 0x1000, 0, 0x21_0000_5001);
  }
}
