/** Page-table walks for the three paging structures, and why the accessed and
    dirty bits the processor writes into them never feed back into a walk. */
module Paging {
  import opened Words
  import opened Memory
  import Division

  datatype PagingMode = Off | Legacy | Pae | Long

  /** Bytes per entry of a paging structure. */
  function Width(mode: PagingMode): nat {
    match mode
    case Off => 0
    case Legacy => 4
    case Pae => 8
    case Long => 8
  }

  /** The result of a walk. `walk` holds the entry addresses, outermost first. */
  datatype Mapping = Mapping(phys: u64, writable: bool, user: bool, exec: bool,
                             walk: seq<u64>, entryBytes: nat)

  // ---- Entry fields ----

  predicate Present(e: u64) { e % 2 == 1 }
  predicate Rw(e: u64) { e / 2 % 2 == 1 }
  predicate Us(e: u64) { e / 4 % 2 == 1 }
  predicate Accessed(e: u64) { e / 0x20 % 2 == 1 }
  predicate Dirty(e: u64) { e / 0x40 % 2 == 1 }
  predicate Ps(e: u64) { e / 0x80 % 2 == 1 }
  predicate Nx(e: u64) { e >= 0x8000_0000_0000_0000 }

  /** A physical address of at most 52 bits. */
  type PageBase = x: int | 0 <= x < 0x10_0000_0000_0000

  /** Bits 51:12, 51:21 and 51:30 of an 8-byte entry. */
  function Frame4K(e: u64): PageBase { e / 0x1000 % 0x100_0000_0000 * 0x1000 }
  function Frame2M(e: u64): PageBase { e / 0x20_0000 % 0x8000_0000 * 0x20_0000 }
  function Frame1G(e: u64): PageBase { e / 0x4000_0000 % 0x40_0000 * 0x4000_0000 }
  /** Bits 31:12 and 31:22 of a 4-byte entry. */
  function LegacyFrame4K(e: u64): PageBase { e / 0x1000 % 0x10_0000 * 0x1000 }
  function LegacyFrame4M(e: u64): PageBase { e / 0x40_0000 % 0x400 * 0x40_0000 }

  /** Naturally aligned addresses of 4- and 8-byte entries. */
  predicate EntryStart(a: nat, n: nat) { if n == 4 then a % 4 == 0 else a % 8 == 0 }

  /** The bytes `n` entries take up. */
  function Stride(n: nat, width: nat): nat { if n == 0 then 0 else width + Stride(n - 1, width) }

  lemma {:induction false} StrideIs(n: nat, width: nat)
    ensures Stride(n, width) == n * width
  {
    if n > 0 { StrideIs(n - 1, width); }
  }

  function Entry4(table: PageBase, index: nat): (a: u64)
    requires index < 0x400
  {
    StrideIs(index, 4);
    table + Stride(index, 4)
  }

  function Entry8(table: PageBase, index: nat): (a: u64)
    requires index < 0x200
  {
    StrideIs(index, 8);
    table + Stride(index, 8)
  }

  /** CR3 names the four PAE root entries to a multiple of 32 bytes. */
  function PdptEntry(cr3: u64, index: nat): (a: u64)
    requires index < 4
  {
    StrideIs(index, 8);
    cr3 - cr3 % 0x20 + Stride(index, 8)
  }

  /** Frames are page aligned, so the entries indexed from them are aligned too. */
  lemma EntryAligned(e: u64, index: nat)
    ensures index < 0x400 ==> EntryStart(Entry4(LegacyFrame4K(e), index), 4)
    ensures index < 0x200 ==> EntryStart(Entry8(Frame4K(e), index), 8)
  {
    StrideIs(index, 4);
    StrideIs(index, 8);
    Division.DivUnique(LegacyFrame4K(e) + index * 4, 4, LegacyFrame4K(e) / 0x1000 * 0x400 + index, 0);
    Division.DivUnique(Frame4K(e) + index * 8, 8, Frame4K(e) / 0x1000 * 0x200 + index, 0);
  }

  lemma AlignedEntries()
    ensures forall e: u64, i: nat :: i < 0x400 ==> EntryStart(Entry4(LegacyFrame4K(e), i), 4)
    ensures forall e: u64, i: nat :: i < 0x200 ==> EntryStart(Entry8(Frame4K(e), i), 8)
    ensures forall cr3: u64, i: nat :: i < 4 ==> EntryStart(PdptEntry(cr3, i), 8)
  {
    hide Entry4, Entry8, LegacyFrame4K, Frame4K, EntryStart, PdptEntry;
    forall e: u64, i: nat
      ensures i < 0x400 ==> EntryStart(Entry4(LegacyFrame4K(e), i), 4)
      ensures i < 0x200 ==> EntryStart(Entry8(Frame4K(e), i), 8)
    {
      EntryAligned(e, i);
    }
    forall cr3: u64, i: nat | i < 4 ensures EntryStart(PdptEntry(cr3, i), 8) { PdptAligned(cr3, i); }
  }

  lemma PdptAligned(cr3: u64, index: nat)
    requires index < 4
    ensures EntryStart(PdptEntry(cr3, index), 8)
  {
    StrideIs(index, 8);
  }

  predicate Canonical(linear: u64) {
    var top := linear / 0x8000_0000_0000;
    top == 0 || top == 0x1FFFF
  }

  // ---- The walks ----

  function TranslateMode(mem: Ram, cr3: u64, linear: u64, mode: PagingMode, nxe: bool): Option<Mapping>
    requires mem.Valid()
  {
    match mode
    case Off => Some(Mapping(linear, true, true, true, [], 0))
    case Legacy => TranslateLegacy(mem, cr3, linear % TWO32)
    case Pae => TranslatePae(mem, cr3, linear % TWO32, nxe)
    case Long => TranslateLong(mem, cr3, linear, nxe)
  }

  function TranslateLegacy(mem: Ram, cr3: u64, linear: u32): Option<Mapping>
    requires mem.Valid()
  {
    var pdeAddr := Entry4(LegacyFrame4K(cr3), linear / 0x40_0000);
    var pde := ReadU32(mem, pdeAddr);
    if !Present(pde) then None
    else if Ps(pde) then
      Some(Mapping(LegacyFrame4M(pde) + linear % 0x40_0000, Rw(pde), Us(pde), true, [pdeAddr], 4))
    else
      var pteAddr := Entry4(LegacyFrame4K(pde), linear / 0x1000 % 0x400);
      var pte := ReadU32(mem, pteAddr);
      if !Present(pte) then None
      else
        Some(Mapping(LegacyFrame4K(pte) + linear % 0x1000, Rw(pde) && Rw(pte), Us(pde) && Us(pte),
                     true, [pdeAddr, pteAddr], 4))
  }

  function TranslatePae(mem: Ram, cr3: u64, linear: u32, nxe: bool): Option<Mapping>
    requires mem.Valid()
  {
    var pdpteAddr := PdptEntry(cr3, linear / 0x4000_0000);
    var pdpte := ReadU64(mem, pdpteAddr);
    if !Present(pdpte) then None
    else
      var pdeAddr := Entry8(Frame4K(pdpte), linear / 0x20_0000 % 0x200);
      var pde := ReadU64(mem, pdeAddr);
      if !Present(pde) then None
      else if Ps(pde) then
        Some(Mapping(Frame2M(pde) + linear % 0x20_0000, Rw(pde), Us(pde), !nxe || !Nx(pde),
                     [pdpteAddr, pdeAddr], 8))
      else
        var pteAddr := Entry8(Frame4K(pde), linear / 0x1000 % 0x200);
        var pte := ReadU64(mem, pteAddr);
        if !Present(pte) then None
        else
          Some(Mapping(Frame4K(pte) + linear % 0x1000, Rw(pde) && Rw(pte), Us(pde) && Us(pte),
                       !nxe || (!Nx(pde) && !Nx(pte)), [pdpteAddr, pdeAddr, pteAddr], 8))
  }

  function TranslateLong(mem: Ram, cr3: u64, linear: u64, nxe: bool): Option<Mapping>
    requires mem.Valid()
  {
    var pml4eAddr := Entry8(Frame4K(cr3), linear / 0x80_0000_0000 % 0x200);
    var pml4e := ReadU64(mem, pml4eAddr);
    if !Present(pml4e) then None
    else
      var pdpteAddr := Entry8(Frame4K(pml4e), linear / 0x4000_0000 % 0x200);
      var pdpte := ReadU64(mem, pdpteAddr);
      if !Present(pdpte) then None
      else if Ps(pdpte) then
        Some(Mapping(Frame1G(pdpte) + linear % 0x4000_0000, Rw(pml4e) && Rw(pdpte),
                     Us(pml4e) && Us(pdpte), !nxe || (!Nx(pml4e) && !Nx(pdpte)),
                     [pml4eAddr, pdpteAddr], 8))
      else
        var pdeAddr := Entry8(Frame4K(pdpte), linear / 0x20_0000 % 0x200);
        var pde := ReadU64(mem, pdeAddr);
        if !Present(pde) then None
        else if Ps(pde) then
          Some(Mapping(Frame2M(pde) + linear % 0x20_0000, Rw(pml4e) && Rw(pdpte) && Rw(pde),
                       Us(pml4e) && Us(pdpte) && Us(pde),
                       !nxe || (!Nx(pml4e) && !Nx(pdpte) && !Nx(pde)),
                       [pml4eAddr, pdpteAddr, pdeAddr], 8))
        else
          var pteAddr := Entry8(Frame4K(pde), linear / 0x1000 % 0x200);
          var pte := ReadU64(mem, pteAddr);
          if !Present(pte) then None
          else
            Some(Mapping(Frame4K(pte) + linear % 0x1000,
                         Rw(pml4e) && Rw(pdpte) && Rw(pde) && Rw(pte),
                         Us(pml4e) && Us(pdpte) && Us(pde) && Us(pte),
                         !nxe || (!Nx(pml4e) && !Nx(pdpte) && !Nx(pde) && !Nx(pte)),
                         [pml4eAddr, pdpteAddr, pdeAddr, pteAddr], 8))
  }

  // ---- Accessed and dirty bits ----

  /** `e | A`, and `e | A | D` when `dirty`. */
  function Mark(e: u64, dirty: bool): (m: u64)
    ensures Accessed(m) && (dirty ==> Dirty(m)) && SameEntry(e, m)
    ensures !dirty ==> (Dirty(m) <==> Dirty(e))
    ensures Accessed(e) && (dirty ==> Dirty(e)) ==> m == e
  {
    BitsTurnOn(e, dirty);
    e + (if Accessed(e) then 0 else 0x20) + (if dirty && !Dirty(e) then 0x40 else 0)
  }

  lemma BitsTurnOn(e: u64, dirty: bool)
    ensures var m: int := e + (if Accessed(e) then 0 else 0x20) + (if dirty && !Dirty(e) then 0x40 else 0);
            && 0 <= m < TWO64 && Accessed(m) && (Dirty(m) <==> dirty || Dirty(e)) && SameEntry(e, m)
  {
    EntryParts(e);
    FromParts(e % 0x20, 1, if dirty then 1 else e / 0x40 % 2, e / 0x80);
  }

  /** An entry as its low five bits, A, D, and everything from bit 7 up. */
  lemma EntryParts(e: u64)
    ensures e == e % 0x20 + 0x20 * (e / 0x20 % 2) + 0x40 * (e / 0x40 % 2) + 0x80 * (e / 0x80)
  {
    Division.ModSplit(e, 0x20, 2);
    Division.ModSplit(e, 0x40, 2);
  }

  lemma FromParts(low: int, a: int, d: int, hi: int)
    requires 0 <= low < 0x20 && 0 <= a < 2 && 0 <= d < 2
    ensures var e := low + 0x20 * a + 0x40 * d + 0x80 * hi;
            e % 0x20 == low && e / 0x20 % 2 == a && e / 0x40 % 2 == d && e / 0x80 == hi
  {
    var e := low + 0x20 * a + 0x40 * d + 0x80 * hi;
    Division.DivUnique(e, 0x20, a + 2 * d + 4 * hi, low);
    Division.DivUnique(e, 0x40, d + 2 * hi, low + 0x20 * a);
    Division.DivUnique(e, 0x80, hi, low + 0x20 * a + 0x40 * d);
    Division.DivUnique(a + 2 * d + 4 * hi, 2, d + 2 * hi, a);
    Division.DivUnique(d + 2 * hi, 2, hi, d);
  }

  /** The bits of an entry below bit 8 are those of its first byte. */
  lemma FirstByte(b: u8, rest: nat)
    ensures var e := b + 0x100 * rest;
            && e % 0x20 == b % 0x20 && e / 0x80 == b / 0x80 + 2 * rest
            && e / 0x20 % 2 == b / 0x20 % 2 && e / 0x40 % 2 == b / 0x40 % 2
  {
    EntryParts(b);
    FromParts(b % 0x20, b / 0x20 % 2, b / 0x40 % 2, b / 0x80 + 2 * rest);
  }

  lemma MarkFirstByte(b: u8, rest: nat, dirty: bool)
    requires b + 0x100 * rest < TWO64
    ensures Mark(b, dirty) < 0x100
    ensures Mark(b + 0x100 * rest, dirty) == Mark(b, dirty) + 0x100 * rest
  {
    FirstByte(b, rest);
    var a := if Accessed(b) then b else b + 0x20;
    MarkByteFits(b);
    FirstByte(a, rest);
  }

  lemma MarkByteFits(b: u8)
    ensures !Accessed(b) ==> b + 0x20 < 0x100
    ensures Mark(b, false) < 0x100 && Mark(b, true) < 0x100
  {
    EntryParts(b);
    assert b / 0x80 < 2;
  }

  function ReadEntry(mem: Ram, a: u64, n: nat): u64
    requires mem.Valid()
  {
    if n == 4 then ReadU32(mem, a) else ReadU64(mem, a)
  }

  function MarkEntry(mem: Ram, a: u64, n: nat, dirty: bool): (mem': Ram)
    requires mem.Valid() && (n == 4 || n == 8)
    ensures mem'.Valid() && |mem'.data| == |mem.data|
  {
    WriteWide(mem, a, n, Mark(ReadEntry(mem, a, n), dirty))
  }

  /** Mark the entries of a walk from position `i` on: every one accessed,
      the last one dirty too if the access is a store. */
  function MarkWalk(mem: Ram, walk: seq<u64>, n: nat, write: bool, i: nat): (mem': Ram)
    requires mem.Valid() && i <= |walk| && (i < |walk| ==> n == 4 || n == 8)
    ensures mem'.Valid() && |mem'.data| == |mem.data|
    decreases |walk| - i
  {
    if i == |walk| then mem
    else MarkWalk(MarkEntry(mem, walk[i], n, write && i + 1 == |walk|), walk, n, write, i + 1)
  }

  predicate WellFormed(mp: Mapping) {
    && (|mp.walk| > 0 ==> mp.entryBytes == 4 || mp.entryBytes == 8)
    && forall i :: 0 <= i < |mp.walk| ==> EntryStart(mp.walk[i], mp.entryBytes)
  }

  function SetAccessedBits(mem: Ram, mp: Mapping, write: bool): (mem': Ram)
    requires mem.Valid() && WellFormed(mp)
    ensures mem'.Valid() && |mem'.data| == |mem.data|
  {
    MarkWalk(mem, mp.walk, mp.entryBytes, write, 0)
  }

  /** Every entry of the walk is accessed, and for a store the leaf is dirty. */
  predicate Marked(mem: Ram, mp: Mapping, write: bool)
    requires mem.Valid()
  {
    && (forall i :: 0 <= i < |mp.walk| ==> Accessed(ReadU8(mem, mp.walk[i])))
    && (write && |mp.walk| > 0 ==> Dirty(ReadU8(mem, mp.walk[|mp.walk| - 1])))
  }

  // ---- Memories that differ in accessed and dirty bits only ----

  /** Two entries a walk cannot tell apart: equal but for bits 5 and 6. */
  predicate SameEntry(e: nat, e': nat) { e % 0x20 == e' % 0x20 && e / 0x80 == e' / 0x80 }

  /** `mem'` is `mem` with some accessed and dirty bits of entries turned on. */
  ghost predicate MoreMarked(mem: Ram, mem': Ram, n: nat)
    requires mem.Valid()
  {
    && mem'.Valid() && |mem'.data| == |mem.data|
    && forall a: nat {:trigger MarkedByte(ReadU8(mem, a), ReadU8(mem', a), EntryStart(a, n))} ::
         MarkedByte(ReadU8(mem, a), ReadU8(mem', a), EntryStart(a, n))
  }

  predicate MarkedByte(b: u8, b': u8, start: bool) {
    if start then
      && SameEntry(b, b')
      && (Accessed(b) ==> Accessed(b'))
      && (Dirty(b) ==> Dirty(b'))
    else b == b'
  }

  lemma MoreMarkedTransitive(m0: Ram, m1: Ram, m2: Ram, n: nat)
    requires m0.Valid() && MoreMarked(m0, m1, n) && MoreMarked(m1, m2, n)
    ensures MoreMarked(m0, m2, n)
  {
    forall a: nat
      ensures MarkedByte(ReadU8(m0, a), ReadU8(m2, a), EntryStart(a, n))
    {
      assert MarkedByte(ReadU8(m0, a), ReadU8(m1, a), EntryStart(a, n));
      assert MarkedByte(ReadU8(m1, a), ReadU8(m2, a), EntryStart(a, n));
    }
  }

  lemma AlignedIsWhole(mem: Ram, a: nat, n: nat)
    requires mem.Valid() && (n == 4 || n == 8) && EntryStart(a, n)
    ensures Whole(mem, a, n)
  {
  }

  /** An entry is its first byte plus bits the marking never touches. */
  lemma EntryBytes(mem: Ram, a: u64, n: nat)
    requires mem.Valid() && (n == 4 || n == 8) && EntryStart(a, n)
    ensures ReadEntry(mem, a, n) == ReadU8(mem, a) + 0x100 * Read(mem, a + 1, n - 1)
  {
    AlignedIsWhole(mem, a, n);
    WideReads(mem, a);
  }

  lemma NotEntryStart(a: nat, n: nat, m: nat, k: nat)
    requires (n == 4 || n == 8) && (m == n || m == 8) && EntryStart(a, n) && a < k < a + n
    ensures !EntryStart(k, m)
  {
    if m == 4 || n == 4 {
      Division.DivUnique(k, 4, a / 4, k - a);
    } else {
      Division.DivUnique(k, 8, a / 8, k - a);
    }
  }

  lemma TailUnmarked(mem: Ram, mem': Ram, a: u64, n: nat, m: nat)
    requires mem.Valid() && (n == 4 || n == 8) && (m == n || m == 8) && EntryStart(a, n)
    requires MoreMarked(mem, mem', m)
    ensures Read(mem', a + 1, n - 1) == Read(mem, a + 1, n - 1)
  {
    forall k | a + 1 <= k < a + 1 + (n - 1)
      ensures ReadU8(mem', k) == ReadU8(mem, k)
    {
      NotEntryStart(a, n, m, k);
      assert MarkedByte(ReadU8(mem, k), ReadU8(mem', k), EntryStart(k, m));
    }
    SameBytesSameRead(mem, mem', a + 1, n - 1);
  }

  lemma SameFirstByte(b: u8, b': u8, rest: nat)
    requires SameEntry(b, b')
    ensures SameEntry(b + 0x100 * rest, b' + 0x100 * rest)
  {
    FirstByte(b, rest);
    FirstByte(b', rest);
  }

  lemma MarkedEntryReads(mem: Ram, mem': Ram, a: u64, n: nat, m: nat)
    requires mem.Valid() && (n == 4 || n == 8) && (m == n || m == 8) && EntryStart(a, n)
    requires MoreMarked(mem, mem', m)
    ensures SameEntry(ReadEntry(mem, a, n), ReadEntry(mem', a, n))
  {
    EntryBytes(mem, a, n);
    EntryBytes(mem', a, n);
    assert MarkedByte(ReadU8(mem, a), ReadU8(mem', a), EntryStart(a, m));
    TailUnmarked(mem, mem', a, n, m);
    SameFirstByte(ReadU8(mem, a), ReadU8(mem', a), Read(mem, a + 1, n - 1));
  }

  lemma SameQuotient(e: u64, e': u64, k: int)
    requires SameEntry(e, e') && k > 0
    ensures 0x80 * k > 0 && e / (0x80 * k) == e' / (0x80 * k)
  {
    Division.DivDiv(e, 0x80, k);
    Division.DivDiv(e', 0x80, k);
  }

  lemma LowBits(e: u64)
    ensures Present(e) <==> e % 0x20 / 1 % 2 == 1
    ensures Rw(e) <==> e % 0x20 / 2 % 2 == 1
    ensures Us(e) <==> e % 0x20 / 4 % 2 == 1
  {
    Division.BitOfField(e, 1, 16);
    Division.BitOfField(e, 2, 8);
    Division.BitOfField(e, 4, 4);
  }

  /** Two entries with the same meaning to every walk: they may differ in the
      accessed and dirty bits, and in the bits no walk looks at -- caching, global,
      and those left to software. */
  predicate SameFields(e: u64, e': u64) {
    && Present(e) == Present(e') && Rw(e) == Rw(e') && Us(e) == Us(e') && Ps(e) == Ps(e') && Nx(e) == Nx(e')
    && Frame4K(e) == Frame4K(e') && Frame2M(e) == Frame2M(e') && Frame1G(e) == Frame1G(e')
    && LegacyFrame4K(e) == LegacyFrame4K(e') && LegacyFrame4M(e) == LegacyFrame4M(e')
  }

  lemma SameEntryFields(e: u64, e': u64)
    requires SameEntry(e, e')
    ensures SameFields(e, e')
  {
    SameQuotient(e, e', 0x20);
    SameQuotient(e, e', 0x4000);
    SameQuotient(e, e', 0x80_0000);
    SameQuotient(e, e', 0x8000);
    SameQuotient(e, e', 0x100_0000_0000_0000);
    LowBits(e);
    LowBits(e');
  }
}
