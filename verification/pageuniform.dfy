/** A walk depends on the page of an address only; the offset rides along. */
module PageUniform {
  import opened Words
  import opened Memory
  import opened Paging
  import Division

  function PageOf(linear: u64): u64 { linear / 0x1000 * 0x1000 }

  /** Dividing or reducing by a multiple of the page size sees the page number. */
  lemma PageParts(x: nat, k: nat)
    requires k > 0
    ensures var b := x / 0x1000 * 0x1000;
            && 0x1000 * k > 0
            && b / (0x1000 * k) == x / (0x1000 * k)
            && x % (0x1000 * k) == b % (0x1000 * k) + x % 0x1000
            && b % (0x1000 * k) % 0x1000 == 0
  {
    var b := x / 0x1000 * 0x1000;
    Division.DivUnique(b, 0x1000, x / 0x1000, 0);
    Division.TwoDigits(x, 0x1000, k);
    Division.TwoDigits(b, 0x1000, k);
    Division.DivUnique(b % (0x1000 * k), 0x1000, x / 0x1000 % k, 0);
  }

  lemma PageFields(x: nat)
    ensures var b := x / 0x1000 * 0x1000;
            && b / 0x1000 == x / 0x1000 && b % 0x1000 == 0
            && b / 0x20_0000 == x / 0x20_0000 && b / 0x40_0000 == x / 0x40_0000
            && b / 0x4000_0000 == x / 0x4000_0000 && b / 0x80_0000_0000 == x / 0x80_0000_0000
    ensures var b := x / 0x1000 * 0x1000;
            && x % 0x20_0000 == b % 0x20_0000 + x % 0x1000 && b % 0x20_0000 % 0x1000 == 0
            && x % 0x40_0000 == b % 0x40_0000 + x % 0x1000 && b % 0x40_0000 % 0x1000 == 0
            && x % 0x4000_0000 == b % 0x4000_0000 + x % 0x1000 && b % 0x4000_0000 % 0x1000 == 0
            && x % TWO32 == b % TWO32 + x % 0x1000 && b % TWO32 % 0x1000 == 0
  {
    PageParts(x, 1);
    PageParts(x, 0x200);
    PageParts(x, 0x400);
    PageParts(x, 0x4_0000);
    PageParts(x, 0x10_0000);
    PageParts(x, 0x800_0000);
  }

  /** `t` is `u` moved by `offset` within its page. */
  predicate Moved(u: Option<Mapping>, t: Option<Mapping>, offset: nat) {
    match t
    case None => u.None?
    case Some(mp) =>
      && u.Some?
      && mp == u.value.(phys := mp.phys)
      && mp.phys == u.value.phys + offset
      && u.value.phys % 0x1000 == 0
  }

  lemma BaseSum(x: nat, y: nat)
    requires x % 0x1000 == 0 && y % 0x1000 == 0
    ensures (x + y) % 0x1000 == 0
  {
  }

  lemma FrameAligned(e: u64)
    ensures Frame4K(e) % 0x1000 == 0 && Frame2M(e) % 0x1000 == 0 && Frame1G(e) % 0x1000 == 0
    ensures LegacyFrame4K(e) % 0x1000 == 0 && LegacyFrame4M(e) % 0x1000 == 0
  {
    WholePages(e / 0x1000 % 0x100_0000_0000, 1);
    WholePages(e / 0x20_0000 % 0x8000_0000, 0x200);
    WholePages(e / 0x4000_0000 % 0x40_0000, 0x4_0000);
    WholePages(e / 0x1000 % 0x10_0000, 1);
    WholePages(e / 0x40_0000 % 0x400, 0x400);
  }

  lemma WholePages(x: nat, k: nat)
    ensures x * (k * 0x1000) % 0x1000 == 0
  {
    Division.Distribute(x, k, 0x1000);
    Division.DivUnique(x * (k * 0x1000), 0x1000, x * k, 0);
  }

  lemma FramesAligned()
    ensures forall e: u64 :: Frame4K(e) % 0x1000 == 0
    ensures forall e: u64 :: Frame2M(e) % 0x1000 == 0
    ensures forall e: u64 :: Frame1G(e) % 0x1000 == 0
    ensures forall e: u64 :: LegacyFrame4K(e) % 0x1000 == 0
    ensures forall e: u64 :: LegacyFrame4M(e) % 0x1000 == 0
  {
    hide Frame4K, Frame2M, Frame1G, LegacyFrame4K, LegacyFrame4M;
    forall e: u64
      ensures Frame4K(e) % 0x1000 == 0 && Frame2M(e) % 0x1000 == 0 && Frame1G(e) % 0x1000 == 0
      ensures LegacyFrame4K(e) % 0x1000 == 0 && LegacyFrame4M(e) % 0x1000 == 0
    {
      FrameAligned(e);
    }
  }

  lemma LegacyUniform(mem: Ram, cr3: u64, linear: u32, b: u32)
    requires mem.Valid() && b == linear / 0x1000 * 0x1000
    ensures Moved(TranslateLegacy(mem, cr3, b), TranslateLegacy(mem, cr3, linear), linear % 0x1000)
  {
    hide ReadU32, Present, Rw, Us, Ps, LegacyFrame4K, LegacyFrame4M, Entry4;
    FramesAligned();
    PageFields(linear);
    var pde := ReadU32(mem, Entry4(LegacyFrame4K(cr3), b / 0x40_0000));
    BaseSum(LegacyFrame4M(pde), b % 0x40_0000);
  }

  lemma PaeUniform(mem: Ram, cr3: u64, linear: u32, b: u32, nxe: bool)
    requires mem.Valid() && b == linear / 0x1000 * 0x1000
    ensures Moved(TranslatePae(mem, cr3, b, nxe), TranslatePae(mem, cr3, linear, nxe), linear % 0x1000)
  {
    hide ReadU64, Present, Rw, Us, Ps, Nx, Frame4K, Frame2M, Entry8, PdptEntry;
    FramesAligned();
    PageFields(linear);
    var pdpte := ReadU64(mem, PdptEntry(cr3, b / 0x4000_0000));
    var pde := ReadU64(mem, Entry8(Frame4K(pdpte), b / 0x20_0000 % 0x200));
    BaseSum(Frame2M(pde), b % 0x20_0000);
  }

  lemma LongUniform(mem: Ram, cr3: u64, linear: u64, b: u64, nxe: bool)
    requires mem.Valid() && b == linear / 0x1000 * 0x1000
    ensures Moved(TranslateLong(mem, cr3, b, nxe), TranslateLong(mem, cr3, linear, nxe), linear % 0x1000)
  {
    hide ReadU64, Present, Rw, Us, Ps, Nx, Frame4K, Frame2M, Frame1G, Entry8;
    FramesAligned();
    PageFields(linear);
    var pml4e := ReadU64(mem, Entry8(Frame4K(cr3), b / 0x80_0000_0000 % 0x200));
    var pdpte := ReadU64(mem, Entry8(Frame4K(pml4e), b / 0x4000_0000 % 0x200));
    var pde := ReadU64(mem, Entry8(Frame4K(pdpte), b / 0x20_0000 % 0x200));
    BaseSum(Frame1G(pdpte), b % 0x4000_0000);
    BaseSum(Frame2M(pde), b % 0x20_0000);
  }

  lemma TruncatedPage(linear: u64)
    ensures PageOf(linear) % TWO32 == linear % TWO32 / 0x1000 * 0x1000
    ensures linear % TWO32 % 0x1000 == linear % 0x1000
  {
    PageFields(linear);
    var b := PageOf(linear) % TWO32;
    Division.DivUnique(linear % TWO32, 0x1000, b / 0x1000, linear % 0x1000);
  }

  /** In every paging structure and for every page size, translating an address
      is translating the start of its 4 KiB page and adding the offset: same
      entries read, same permissions, and a page-aligned frame. */
  lemma OffsetRidesAlong(mem: Ram, cr3: u64, linear: u64, mode: PagingMode, nxe: bool)
    requires mem.Valid()
    ensures Moved(TranslateMode(mem, cr3, PageOf(linear), mode, nxe),
                  TranslateMode(mem, cr3, linear, mode, nxe), linear % 0x1000)
  {
    TruncatedPage(linear);
    match mode
    case Off =>
    case Legacy => LegacyUniform(mem, cr3, linear % TWO32, PageOf(linear) % TWO32);
    case Pae => PaeUniform(mem, cr3, linear % TWO32, PageOf(linear) % TWO32, nxe);
    case Long => LongUniform(mem, cr3, linear, PageOf(linear), nxe);
  }
}
