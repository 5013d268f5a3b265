/** Which bytes of memory a walk reads, and what a store elsewhere leaves alone. */
module PageTables {
  import opened Words
  import opened Memory
  import opened Paging

  // ---- The entries a walk reads, whether or not it succeeds ----

  function Entries(mem: Ram, cr3: u64, linear: u64, mode: PagingMode): seq<u64>
    requires mem.Valid()
  {
    match mode
    case Off => []
    case Legacy => LegacyEntries(mem, cr3, linear % TWO32)
    case Pae => PaeEntries(mem, cr3, linear % TWO32)
    case Long => LongEntries(mem, cr3, linear)
  }

  function LegacyEntries(mem: Ram, cr3: u64, linear: u32): seq<u64>
    requires mem.Valid()
  {
    var pdeAddr := Entry4(LegacyFrame4K(cr3), linear / 0x40_0000);
    var pde := ReadU32(mem, pdeAddr);
    if !Present(pde) || Ps(pde) then [pdeAddr]
    else [pdeAddr, Entry4(LegacyFrame4K(pde), linear / 0x1000 % 0x400)]
  }

  function PaeEntries(mem: Ram, cr3: u64, linear: u32): seq<u64>
    requires mem.Valid()
  {
    var pdpteAddr := PdptEntry(cr3, linear / 0x4000_0000);
    var pdpte := ReadU64(mem, pdpteAddr);
    if !Present(pdpte) then [pdpteAddr]
    else
      var pdeAddr := Entry8(Frame4K(pdpte), linear / 0x20_0000 % 0x200);
      var pde := ReadU64(mem, pdeAddr);
      if !Present(pde) || Ps(pde) then [pdpteAddr, pdeAddr]
      else [pdpteAddr, pdeAddr, Entry8(Frame4K(pde), linear / 0x1000 % 0x200)]
  }

  function LongEntries(mem: Ram, cr3: u64, linear: u64): seq<u64>
    requires mem.Valid()
  {
    var pml4eAddr := Entry8(Frame4K(cr3), linear / 0x80_0000_0000 % 0x200);
    var pml4e := ReadU64(mem, pml4eAddr);
    if !Present(pml4e) then [pml4eAddr]
    else
      var pdpteAddr := Entry8(Frame4K(pml4e), linear / 0x4000_0000 % 0x200);
      var pdpte := ReadU64(mem, pdpteAddr);
      if !Present(pdpte) || Ps(pdpte) then [pml4eAddr, pdpteAddr]
      else
        var pdeAddr := Entry8(Frame4K(pdpte), linear / 0x20_0000 % 0x200);
        var pde := ReadU64(mem, pdeAddr);
        if !Present(pde) || Ps(pde) then [pml4eAddr, pdpteAddr, pdeAddr]
        else [pml4eAddr, pdpteAddr, pdeAddr, Entry8(Frame4K(pde), linear / 0x1000 % 0x200)]
  }

  /** The entries recorded by a successful walk are exactly those it read. */
  lemma WalkIsEntries(mem: Ram, cr3: u64, linear: u64, mode: PagingMode, nxe: bool)
    requires mem.Valid()
    ensures var t := TranslateMode(mem, cr3, linear, mode, nxe);
            t.Some? ==> t.value.walk == Entries(mem, cr3, linear, mode)
  {
    hide ReadU32, ReadU64, Present, Rw, Us, Ps, Nx, Frame4K, Frame2M, Frame1G,
      LegacyFrame4K, LegacyFrame4M, Entry4, Entry8, PdptEntry, EntryStart;
  }

  lemma EntriesAligned(mem: Ram, cr3: u64, linear: u64, mode: PagingMode)
    requires mem.Valid()
    ensures forall i :: 0 <= i < |Entries(mem, cr3, linear, mode)|
                        ==> EntryStart(Entries(mem, cr3, linear, mode)[i], Width(mode))
  {
    hide ReadU32, ReadU64, Present, Ps, Frame4K, LegacyFrame4K, Entry4, Entry8, PdptEntry, EntryStart;
    AlignedEntries();
  }

  // ---- Memories alike where a walk looks ----

  /** At each of the entries, `mem'` has one with the same meaning. */
  ghost predicate AlikeEntries(mem: Ram, mem': Ram, entries: seq<u64>, n: nat)
    requires mem.Valid() && mem'.Valid()
  {
    forall i :: 0 <= i < |entries| ==> SameFields(ReadEntry(mem, entries[i], n), ReadEntry(mem', entries[i], n))
  }

  lemma LegacyAlike(mem: Ram, mem': Ram, cr3: u64, linear: u32)
    requires mem.Valid() && mem'.Valid() && AlikeEntries(mem, mem', LegacyEntries(mem, cr3, linear), 4)
    ensures TranslateLegacy(mem', cr3, linear) == TranslateLegacy(mem, cr3, linear)
    ensures LegacyEntries(mem', cr3, linear) == LegacyEntries(mem, cr3, linear)
  {
    hide ReadU32, Present, Rw, Us, Ps, Nx, Frame4K, Frame2M, Frame1G, LegacyFrame4K, LegacyFrame4M, Entry4;
    var es := LegacyEntries(mem, cr3, linear);
    assert SameFields(ReadEntry(mem, es[0], 4), ReadEntry(mem', es[0], 4));
    assert |es| > 1 ==> SameFields(ReadEntry(mem, es[1], 4), ReadEntry(mem', es[1], 4));
  }

  lemma PaeAlike(mem: Ram, mem': Ram, cr3: u64, linear: u32, nxe: bool)
    requires mem.Valid() && mem'.Valid() && AlikeEntries(mem, mem', PaeEntries(mem, cr3, linear), 8)
    ensures TranslatePae(mem', cr3, linear, nxe) == TranslatePae(mem, cr3, linear, nxe)
    ensures PaeEntries(mem', cr3, linear) == PaeEntries(mem, cr3, linear)
  {
    hide ReadU64, Present, Rw, Us, Ps, Nx, Frame4K, Frame2M, Frame1G, LegacyFrame4K, LegacyFrame4M, Entry8, PdptEntry;
    var es := PaeEntries(mem, cr3, linear);
    assert SameFields(ReadEntry(mem, es[0], 8), ReadEntry(mem', es[0], 8));
    assert |es| > 1 ==> SameFields(ReadEntry(mem, es[1], 8), ReadEntry(mem', es[1], 8));
    assert |es| > 2 ==> SameFields(ReadEntry(mem, es[2], 8), ReadEntry(mem', es[2], 8));
  }

  lemma LongAlike(mem: Ram, mem': Ram, cr3: u64, linear: u64, nxe: bool)
    requires mem.Valid() && mem'.Valid() && AlikeEntries(mem, mem', LongEntries(mem, cr3, linear), 8)
    ensures TranslateLong(mem', cr3, linear, nxe) == TranslateLong(mem, cr3, linear, nxe)
    ensures LongEntries(mem', cr3, linear) == LongEntries(mem, cr3, linear)
  {
    hide ReadU64, Present, Rw, Us, Ps, Nx, Frame4K, Frame2M, Frame1G, LegacyFrame4K, LegacyFrame4M, Entry8;
    var es := LongEntries(mem, cr3, linear);
    assert SameFields(ReadEntry(mem, es[0], 8), ReadEntry(mem', es[0], 8));
    assert |es| > 1 ==> SameFields(ReadEntry(mem, es[1], 8), ReadEntry(mem', es[1], 8));
    assert |es| > 2 ==> SameFields(ReadEntry(mem, es[2], 8), ReadEntry(mem', es[2], 8));
    assert |es| > 3 ==> SameFields(ReadEntry(mem, es[3], 8), ReadEntry(mem', es[3], 8));
  }

  /** A walk depends on nothing but the meaning of the entries it reads -- and
      that meaning decides which entries those are. */
  lemma WalkAlike(mem: Ram, mem': Ram, cr3: u64, linear: u64, mode: PagingMode, nxe: bool)
    requires mem.Valid() && mem'.Valid()
    requires AlikeEntries(mem, mem', Entries(mem, cr3, linear, mode), Width(mode))
    ensures TranslateMode(mem', cr3, linear, mode, nxe) == TranslateMode(mem, cr3, linear, mode, nxe)
    ensures Entries(mem', cr3, linear, mode) == Entries(mem, cr3, linear, mode)
  {
    hide TranslateLegacy, TranslatePae, TranslateLong, LegacyEntries, PaeEntries, LongEntries, AlikeEntries;
    match mode
    case Off =>
    case Legacy => LegacyAlike(mem, mem', cr3, linear % TWO32);
    case Pae => PaeAlike(mem, mem', cr3, linear % TWO32, nxe);
    case Long => LongAlike(mem, mem', cr3, linear, nxe);
  }

  // ---- Memories equal where a walk looks ----

  ghost predicate AgreeOnEntries(mem: Ram, mem': Ram, entries: seq<u64>, n: nat)
    requires mem.Valid()
  {
    && mem'.Valid() && |mem'.data| == |mem.data|
    && forall i, k :: 0 <= i < |entries| && entries[i] <= k < entries[i] + n ==> ReadU8(mem', k) == ReadU8(mem, k)
  }

  lemma SameEntryRead(mem: Ram, mem': Ram, a: u64, n: nat)
    requires mem.Valid() && mem'.Valid() && |mem'.data| == |mem.data| && (n == 4 || n == 8) && EntryStart(a, n)
    requires forall k :: a <= k < a + n ==> ReadU8(mem', k) == ReadU8(mem, k)
    ensures ReadEntry(mem', a, n) == ReadEntry(mem, a, n)
  {
    AlignedIsWhole(mem, a, n);
    hide Whole, EntryStart;
    WideReads(mem, a);
    WideReads(mem', a);
    SameBytesSameRead(mem, mem', a, n);
  }

  /** A store that misses the entries of a walk leaves it alone. */
  lemma WalkFrame(mem: Ram, mem': Ram, cr3: u64, linear: u64, mode: PagingMode, nxe: bool)
    requires mem.Valid()
    requires AgreeOnEntries(mem, mem', Entries(mem, cr3, linear, mode), Width(mode))
    ensures TranslateMode(mem', cr3, linear, mode, nxe) == TranslateMode(mem, cr3, linear, mode, nxe)
    ensures Entries(mem', cr3, linear, mode) == Entries(mem, cr3, linear, mode)
  {
    hide TranslateMode, LegacyEntries, PaeEntries, LongEntries, EntryStart, SameFields, ReadEntry;
    var es, n := Entries(mem, cr3, linear, mode), Width(mode);
    EntriesAligned(mem, cr3, linear, mode);
    forall i | 0 <= i < |es| ensures SameFields(ReadEntry(mem, es[i], n), ReadEntry(mem', es[i], n)) {
      SameEntryRead(mem, mem', es[i], n);
      SameToItself(ReadEntry(mem, es[i], n));
    }
    WalkAlike(mem, mem', cr3, linear, mode, nxe);
  }

  lemma SameToItself(e: u64)
    ensures SameFields(e, e)
  {
  }
}
