/** The page tables firmware builds before it hands over in long mode. */
module Boot {
  import opened Words
  import opened Memory
  import opened Paging
  import opened Store
  import Division

  const PML4_ADDR: nat := 0x2000
  const PDPT_ADDR: nat := 0x3000
  /** One page directory per GiB covered. */
  const PD_ADDR: nat := 0x4000
  const TABLES_END: nat := 0x8000
  const IDENTITY_MAP_BYTES: nat := 0x1_0000_0000
  const GIB: nat := 0x4000_0000
  const LARGE_PAGE: nat := 0x20_0000

  const PRESENT_RW: nat := 3
  const PS: nat := 0x80

  function EntryAt(r: Ram, table: nat, i: nat): u64
    requires r.Valid()
  {
    ReadU64(r, table + 8 * i)
  }

  /** What a map of the low 4 GiB is: canonical addresses below it translate to
      themselves, for supervisor reads, writes and fetches; no others translate. */
  ghost predicate IdentityMap(r: Ram, pml4: u64)
    requires r.Valid()
  {
    forall linear: u64, nxe: bool :: Canonical(linear) ==>
      var t := TranslateLong(r, pml4, linear, nxe);
      && (t.Some? <==> linear < IDENTITY_MAP_BYTES)
      && (t.Some? ==> t.value.phys == linear && t.value.writable && !t.value.user && t.value.exec)
  }

  // ---- The tables ----

  function Pml4Value(i: nat): u64 { if i == 0 then PDPT_ADDR + PRESENT_RW else 0 }

  function PdptValue(i: nat): u64 { if i < 4 then PD_ADDR + i * 0x1000 + PRESENT_RW else 0 }

  function PdValue(g: nat, i: nat): u64
    requires g < 4 && i < 512
  {
    g * GIB + i * LARGE_PAGE + PRESENT_RW + PS
  }

  ghost predicate DirectoryBuilt(r: Ram, g: nat, n: nat)
    requires r.Valid() && g < 4 && n <= 512
  {
    forall i: nat :: i < n ==> EntryAt(r, PD_ADDR + g * 0x1000, i) == PdValue(g, i)
  }

  ghost predicate RootBuilt(r: Ram, n: nat)
    requires r.Valid()
  {
    forall i: nat :: i < n ==> EntryAt(r, PML4_ADDR, i) == Pml4Value(i)
  }

  ghost predicate PdptBuilt(r: Ram, n: nat)
    requires r.Valid()
  {
    forall i: nat :: i < n ==> EntryAt(r, PDPT_ADDR, i) == PdptValue(i)
  }

  ghost predicate TablesBuilt(r: Ram)
    requires r.Valid()
  {
    && RootBuilt(r, 512) && PdptBuilt(r, 512)
    && forall g: nat :: g < 4 ==> DirectoryBuilt(r, g, 512)
  }

  // ---- One store of an entry ----

  /** `r'` is `r` but for the entry at `a`, which is `v`. */
  ghost predicate Stored(r: Ram, a: nat, v: u64, r': Ram)
    requires r.Valid()
  {
    && r'.Valid() && |r'.data| == |r.data|
    && (forall t: nat, i: nat :: t % 8 == 0 && t + 8 * i + 8 <= 0x10_0000 ==>
          EntryAt(r', t, i) == if t + 8 * i == a then v else EntryAt(r, t, i))
    && forall b: nat :: b < a || a + 8 <= b ==> ReadU8(r', b) == ReadU8(r, b)
  }

  lemma EntryStored(r: Ram, a: nat, v: u64)
    requires r.Valid() && a % 8 == 0 && a + 8 <= 0x10_0000
    ensures Stored(r, a, v, WriteWide(r, a, 8, v))
  {
    hide ReadU64, WriteWide;
    var r' := WriteWide(r, a, 8, v);
    WideWrite(r, a, 8, v);
    forall b: nat | b < a || a + 8 <= b
      ensures ReadU8(r', b) == ReadU8(r, b)
    {
      WriteFrame(r, a, 8, v, b);
    }
    forall t: nat, i: nat | t % 8 == 0 && t + 8 * i + 8 <= 0x10_0000
      ensures EntryAt(r', t, i) == if t + 8 * i == a then v else EntryAt(r, t, i)
    {
      OtherEntry(r, a, v, r', t, i);
    }
  }

  lemma OtherEntry(r: Ram, a: nat, v: u64, r': Ram, t: nat, i: nat)
    requires r.Valid() && a % 8 == 0 && r' == Write(r, a, 8, v) && r'.Valid()
    requires t % 8 == 0 && t + 8 * i + 8 <= 0x10_0000
    ensures EntryAt(r', t, i) == if t + 8 * i == a then v else EntryAt(r, t, i)
  {
    hide ReadU64, ReadU8, Read, Write, Slot;
    var b := t + 8 * i;
    WideReads(r, b);
    WideReads(r', b);
    if b == a {
      ByteRanges();
      LowIsBacked(r, a);
      ReadAfterWrite(r, a, 8, v);
    } else {
      Division.DivUnique(b, 8, t / 8 + i, 0);
      forall k | b <= k < b + 8 ensures ReadU8(r', k) == ReadU8(r, k) { WriteFrame(r, a, 8, v, k); }
      SameBytesSameRead(r, r', b, 8);
    }
  }

  lemma LowIsBacked(r: Ram, a: nat)
    requires r.Valid() && a + 8 <= 0x10_0000
    ensures Backed(r, a, 8)
  {
  }

  // ---- What the walk finds ----

  lemma TopIndex(linear: u64)
    requires Canonical(linear)
    ensures linear / 0x80_0000_0000 % 0x200 == 0 <==> linear < 0x80_0000_0000
  {
    Division.DivDiv(linear, 0x80_0000_0000, 0x100);
    var q := linear / 0x80_0000_0000;
    if linear / 0x8000_0000_0000 == 0 {
      assert q < 0x100;
    } else {
      assert 0x1FFFF00 <= q < 0x2000000;
      Division.DivUnique(q, 0x200, 0xFFFF, q - 0x1FFFE00);
    }
  }

  lemma TableFields(v: u64, base: nat)
    requires v == base + PRESENT_RW && base % 0x1000 == 0 && base < 0x10_0000
    ensures Present(v) && Rw(v) && !Us(v) && !Ps(v) && !Nx(v) && Frame4K(v) == base
  {
    LowBits(v);
    Division.DivUnique(v, 0x1000, base / 0x1000, 3);
    Division.BitOfField(v, 0x80, 0x10);
  }

  lemma LeafFields(g: nat, i: nat)
    requires g < 4 && i < 512
    ensures var v := PdValue(g, i);
            Present(v) && Rw(v) && !Us(v) && Ps(v) && !Nx(v) && Frame2M(v) == g * GIB + i * LARGE_PAGE
  {
    var v := PdValue(g, i);
    Division.DivUnique(v, 0x20_0000, g * 512 + i, 0x83);
    LowBits(v);
    Division.ModSplit(v, 0x20, 0x1_0000);
    assert v % 0x20_0000 == 0x83;
    Division.BitOfField(v, 0x80, 0x2000);
    Division.ModSplit(v, 0x20_0000, 1);
    Division.DivUnique(v, 0x20, (g * 512 + i) * 0x1_0000 + 4, 3);
  }

  lemma BuiltIsIdentity(r: Ram, linear: u64, nxe: bool)
    requires r.Valid() && TablesBuilt(r) && Canonical(linear)
    ensures var t := TranslateLong(r, PML4_ADDR, linear, nxe);
            && (t.Some? <==> linear < IDENTITY_MAP_BYTES)
            && (t.Some? ==> t.value.phys == linear && t.value.writable && !t.value.user && t.value.exec)
  {
    hide ReadU64, Present, Rw, Us, Ps, Nx, Frame2M, Frame1G, Frame4K, Canonical;
    TopIndex(linear);
    var i4, i3, i2 := linear / 0x80_0000_0000 % 0x200, linear / GIB % 0x200, linear / LARGE_PAGE % 0x200;
    StrideIs(i4, 8);
    StrideIs(i3, 8);
    StrideIs(i2, 8);
    RootFrame();
    assert EntryAt(r, PML4_ADDR, i4) == Pml4Value(i4);
    assert EntryAt(r, PDPT_ADDR, i3) == PdptValue(i3);
    NotPresent();
    if i4 == 0 {
      TableFields(Pml4Value(0), PDPT_ADDR);
      if i3 < 4 {
        TableFields(PdptValue(i3), PD_ADDR + i3 * 0x1000);
        assert DirectoryBuilt(r, i3, 512);
        assert EntryAt(r, PD_ADDR + i3 * 0x1000, i2) == PdValue(i3, i2);
        LeafFields(i3, i2);
      } else {
      }
    }
  }

  lemma RootFrame()
    ensures Frame4K(PML4_ADDR) == PML4_ADDR
  {
  }

  lemma NotPresent()
    ensures !Present(0)
  {
  }

  // ---- Building it ----

  /** Nothing but the six pages of tables has changed. */
  ghost predicate OnlyTables(r: Ram, r': Ram)
    requires r.Valid()
  {
    && r'.Valid() && |r'.data| == |r.data|
    && forall b: nat :: b < PML4_ADDR || TABLES_END <= b ==> ReadU8(r', b) == ReadU8(r, b)
  }

  /** All but the directories from `g` on, and `n` entries of that one. */
  ghost predicate BuiltSoFar(r: Ram, g: nat, n: nat)
    requires r.Valid() && g < 4 && n <= 512
  {
    && RootBuilt(r, 512) && PdptBuilt(r, 512)
    && (forall h: nat :: h < g ==> DirectoryBuilt(r, h, 512)) && DirectoryBuilt(r, g, n)
  }

  lemma NextPde(r: Ram, g: nat, i: nat)
    requires r.Valid() && g < 4 && i < 512 && BuiltSoFar(r, g, i)
    ensures var r' := WriteWide(r, PD_ADDR + g * 0x1000 + i * 8, 8, PdValue(g, i));
            r'.Valid() && BuiltSoFar(r', g, i + 1)
  {
    hide EntryAt, WriteWide, ReadU8;
    var a, v := PD_ADDR + g * 0x1000 + i * 8, PdValue(g, i);
    var r' := WriteWide(r, a, 8, v);
    EntryStored(r, a, v);
    forall h: nat, k: nat | h <= g && (if h < g then k < 512 else k < i + 1)
      ensures EntryAt(r', PD_ADDR + h * 0x1000, k) == PdValue(h, k)
    {
      var t := PD_ADDR + h * 0x1000;
      assert t % 8 == 0 by { Division.DivUnique(t, 8, 0x800 + h * 0x200, 0); }
      assert DirectoryBuilt(r, h, if h < g then 512 else i);
    }
  }

  /** Build the map, on any memory: whatever the six pages held before, and
      without touching a byte outside them. */
  method BuildIdentityMap(mem: PhysicalMemory) returns (pml4: u64)
    requires mem.Valid()
    modifies mem.data
    ensures mem.Valid() && IdentityMap(mem.State(), pml4) && OnlyTables(old(mem.State()), mem.State())
  {
    hide ReadU64, WriteWide, ReadU8, TranslateLong;
    ghost var before := mem.State();
    for i := 0 to 512
      invariant mem.Valid() && OnlyTables(before, mem.State())
      invariant forall k: nat :: k < i ==> EntryAt(mem.State(), PML4_ADDR, k) == 0
    {
      EntryStored(mem.State(), PML4_ADDR + i * 8, 0);
      mem.StoreU64(PML4_ADDR + i * 8, 0);
    }
    EntryStored(mem.State(), PML4_ADDR, PDPT_ADDR + PRESENT_RW);
    mem.StoreU64(PML4_ADDR, PDPT_ADDR + PRESENT_RW);
    assert RootBuilt(mem.State(), 512);
    var gibs := IDENTITY_MAP_BYTES / GIB;
    for i := 0 to 512
      invariant mem.Valid() && OnlyTables(before, mem.State()) && RootBuilt(mem.State(), 512)
      invariant PdptBuilt(mem.State(), i)
    {
      var e := if i < gibs then PD_ADDR + i * 0x1000 + PRESENT_RW else 0;
      EntryStored(mem.State(), PDPT_ADDR + i * 8, e);
      mem.StoreU64(PDPT_ADDR + i * 8, e);
    }
    for g := 0 to gibs
      invariant mem.Valid() && OnlyTables(before, mem.State())
      invariant g < 4 ==> BuiltSoFar(mem.State(), g, 0)
      invariant g == 4 ==> TablesBuilt(mem.State())
    {
      var pd := PD_ADDR + g * 0x1000;
      for i := 0 to 512
        invariant mem.Valid() && OnlyTables(before, mem.State()) && BuiltSoFar(mem.State(), g, i)
      {
        var phys := g * GIB + i * LARGE_PAGE;
        EntryStored(mem.State(), pd + i * 8, phys + PRESENT_RW + PS);
        NextPde(mem.State(), g, i);
        mem.StoreU64(pd + i * 8, phys + PRESENT_RW + PS);
      }
    }
    pml4 := PML4_ADDR;
    forall linear: u64, nxe: bool | Canonical(linear)
      ensures var t := TranslateLong(mem.State(), pml4, linear, nxe);
              && (t.Some? <==> linear < IDENTITY_MAP_BYTES)
              && (t.Some? ==> t.value.phys == linear && t.value.writable && !t.value.user && t.value.exec)
    {
      BuiltIsIdentity(mem.State(), linear, nxe);
    }
  }
}
