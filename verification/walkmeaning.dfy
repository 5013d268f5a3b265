/** What a page walk finds, told level by level from the bytes of the tables, for all
    three paging structures at once. */
module WalkMeaning {
  import opened Words
  import opened Memory
  import opened Paging
  import Division

  // ---- The paging structures ----

  /** The entries of one level: the bytes of address space each covers, whether its PS
      bit makes it map them as one page, and whether it bears access rights. */
  datatype Level = Level(span: nat, large: bool, rights: bool)

  function Levels(mode: PagingMode): seq<Level> {
    match mode
    case Off => []
    case Legacy => [Level(0x40_0000, true, true), Level(0x1000, false, true)]
    case Pae => [Level(0x4000_0000, false, false), Level(0x20_0000, true, true), Level(0x1000, false, true)]
    case Long => [Level(0x80_0000_0000, false, true), Level(0x4000_0000, true, true), Level(0x20_0000, true, true),
                  Level(0x1000, false, true)]
  }

  /** The part of the address that is translated. */
  function Seen(mode: PagingMode, linear: u64): u64 { if mode == Long then linear else linear % 0x1_0000_0000 }

  function Fanout(mode: PagingMode): nat { if mode == Legacy then 1024 else 512 }

  function EntrySize(mode: PagingMode): nat { if mode == Legacy then 4 else 8 }

  /** Bits 31:k or 51:k of an entry, `2^k` being `span`. */
  function HighPart(mode: PagingMode, e: u64, span: nat): int
    requires span > 0
  {
    e % (if mode == Legacy then 0x1_0000_0000 else 0x10_0000_0000_0000) - e % span
  }

  function Root(mode: PagingMode, cr3: u64): int {
    if mode == Pae then cr3 - cr3 % 32 else HighPart(mode, cr3, 0x1000)
  }

  /** Entry `i` of a walk: where it is, and the bytes there. */
  ghost predicate IsEntry(mem: Ram, cr3: u64, linear: u64, mode: PagingMode, addrs: seq<u64>, es: seq<u64>, i: nat)
    requires mem.Valid() && i < |es| == |addrs| <= |Levels(mode)|
  {
    && addrs[i] == (if i == 0 then Root(mode, cr3) else HighPart(mode, es[i - 1], 0x1000))
                   + EntrySize(mode) * (Seen(mode, linear) / Levels(mode)[i].span % Fanout(mode))
    && es[i] == Read(mem, addrs[i], EntrySize(mode))
  }

  /** An entry at which a walk ends well: the lowest level's, or a large page's. */
  predicate Maps(mode: PagingMode, i: nat, e: u64)
    requires i < |Levels(mode)|
  {
    i == |Levels(mode)| - 1 || (Levels(mode)[i].large && e / 0x80 % 2 == 1)
  }

  /** The entries a walk goes through, each present and naming the next table, down to
      the first that is absent or maps the address. */
  ghost predicate Walks(mem: Ram, cr3: u64, linear: u64, mode: PagingMode, addrs: seq<u64>, es: seq<u64>)
    requires mem.Valid()
  {
    && 0 < |es| == |addrs| <= |Levels(mode)|
    && (forall i: nat :: i < |es| ==> IsEntry(mem, cr3, linear, mode, addrs, es, i))
    && (forall i: nat :: i < |es| - 1 ==> es[i] % 2 == 1 && !Maps(mode, i, es[i]))
    && (es[|es| - 1] % 2 == 1 ==> Maps(mode, |es| - 1, es[|es| - 1]))
  }

  /** Every entry that bears rights has the bit that is worth `bit`. */
  ghost predicate Granted(mode: PagingMode, es: seq<u64>, bit: nat)
    requires |es| <= |Levels(mode)| && bit > 0
  {
    forall i :: 0 <= i < |es| && Levels(mode)[i].rights ==> es[i] / bit % 2 == 1
  }

  ghost predicate NotForbidden(mode: PagingMode, es: seq<u64>)
    requires |es| <= |Levels(mode)|
  {
    forall i :: 0 <= i < |es| && Levels(mode)[i].rights ==> es[i] / 0x8000_0000_0000_0000 == 0
  }

  /** What the walk through `es` yields: a mapping if the last entry is present. */
  ghost predicate Yields(linear: u64, mode: PagingMode, nxe: bool, addrs: seq<u64>, es: seq<u64>, t: Option<Mapping>)
    requires 0 < |es| <= |Levels(mode)| && Levels(mode)[|es| - 1].span > 0
  {
    var last := |es| - 1;
    var e, span := es[last], Levels(mode)[last].span;
    && (t.Some? <==> e % 2 == 1)
    && (t.Some? ==>
          var mp := t.value;
          && mp.phys == HighPart(mode, e, span) + Seen(mode, linear) % span
          && (mp.writable <==> Granted(mode, es, 2)) && (mp.user <==> Granted(mode, es, 4))
          && (mp.exec <==> mode == Legacy || !nxe || NotForbidden(mode, es))
          && mp.walk == addrs && mp.entryBytes == EntrySize(mode))
  }

  // ---- The fields of an entry ----

  lemma HighParts(e: u64)
    ensures HighPart(Long, e, 0x1000) == Frame4K(e) && HighPart(Long, e, 0x20_0000) == Frame2M(e)
    ensures HighPart(Long, e, 0x4000_0000) == Frame1G(e)
    ensures HighPart(Legacy, e, 0x1000) == LegacyFrame4K(e) && HighPart(Legacy, e, 0x40_0000) == LegacyFrame4M(e)
  {
    Division.ModSplit(e, 0x1000, 0x100_0000_0000);
    Division.ModSplit(e, 0x20_0000, 0x8000_0000);
    Division.ModSplit(e, 0x4000_0000, 0x40_0000);
    Division.ModSplit(e, 0x1000, 0x10_0000);
    Division.ModSplit(e, 0x40_0000, 0x400);
  }

  lemma Bits(e: u64)
    ensures Present(e) <==> e % 2 == 1
    ensures Rw(e) <==> e / 2 % 2 == 1
    ensures Us(e) <==> e / 4 % 2 == 1
    ensures Ps(e) <==> e / 0x80 % 2 == 1
    ensures Nx(e) <==> e / 0x8000_0000_0000_0000 != 0
  {
  }

  lemma EntryRead(mem: Ram, a: u64, n: nat)
    requires mem.Valid() && (n == 4 || n == 8) && EntryStart(a, n)
    ensures Read(mem, a, n) == ReadEntry(mem, a, n)
  {
    hide ReadU32, ReadU64;
    AlignedIsWhole(mem, a, n);
    WideReads(mem, a);
  }

  // ---- The three walkers ----

  /** The addresses of entries, by either way of writing them, and their alignment. */
  lemma Address8(e: u64, index: nat)
    requires index < 0x200
    ensures HighPart(Long, e, 0x1000) + 8 * index == Entry8(Frame4K(e), index)
    ensures EntryStart(Entry8(Frame4K(e), index), 8)
  {
    HighParts(e);
    EntryAligned(e, index);
    StrideIs(index, 8);
    hide HighPart, Frame4K, EntryStart;
  }

  lemma Address4(e: u64, index: nat)
    requires index < 0x400
    ensures HighPart(Legacy, e, 0x1000) + 4 * index == Entry4(LegacyFrame4K(e), index)
    ensures EntryStart(Entry4(LegacyFrame4K(e), index), 4)
  {
    HighParts(e);
    EntryAligned(e, index);
    StrideIs(index, 4);
    hide HighPart, LegacyFrame4K, EntryStart;
  }

  lemma AddressPdpt(cr3: u64, index: nat)
    requires index < 4
    ensures cr3 - cr3 % 32 + 8 * index == PdptEntry(cr3, index) && EntryStart(PdptEntry(cr3, index), 8)
  {
    PdptAligned(cr3, index);
    StrideIs(index, 8);
    hide EntryStart;
  }

  lemma SmallIndex(x: nat, n: nat)
    requires x < n
    ensures x % n == x
  {
    Division.DivUnique(x, n, 0, x);
  }

  lemma LongEntry(mem: Ram, cr3: u64, linear: u64, addrs: seq<u64>, es: seq<u64>, i: nat)
    requires mem.Valid() && i < |es| == |addrs| <= 4 && IsEntry(mem, cr3, linear, Long, addrs, es, i)
    ensures var index := linear / Levels(Long)[i].span % 0x200;
            && addrs[i] == Entry8(Frame4K(if i == 0 then cr3 else es[i - 1]), index)
            && es[i] == ReadU64(mem, addrs[i])
  {
    hide HighPart, Frame4K, ReadU64, EntryStart, Entry8, Read;
    Address8(if i == 0 then cr3 else es[i - 1], linear / Levels(Long)[i].span % 0x200);
    EntryRead(mem, addrs[i], 8);
  }

  lemma PaeEntry(mem: Ram, cr3: u64, linear: u64, addrs: seq<u64>, es: seq<u64>, i: nat)
    requires mem.Valid() && i < |es| == |addrs| <= 3 && IsEntry(mem, cr3, linear, Pae, addrs, es, i)
    ensures var l := linear % TWO32;
            && addrs[i] == (if i == 0 then PdptEntry(cr3, l / 0x4000_0000)
                            else Entry8(Frame4K(es[i - 1]), l / Levels(Pae)[i].span % 0x200))
            && es[i] == ReadU64(mem, addrs[i])
  {
    hide HighPart, Frame4K, ReadU64, EntryStart, Entry8, PdptEntry, Read;
    var l := linear % TWO32;
    if i == 0 {
      SmallIndex(l / 0x4000_0000, 0x200);
      AddressPdpt(cr3, l / 0x4000_0000);
    } else {
      SameHighPart(es[i - 1]);
      Address8(es[i - 1], l / Levels(Pae)[i].span % 0x200);
    }
    EntryRead(mem, addrs[i], 8);
  }

  lemma SameHighPart(e: u64)
    ensures HighPart(Pae, e, 0x1000) == HighPart(Long, e, 0x1000)
    ensures HighPart(Pae, e, 0x20_0000) == HighPart(Long, e, 0x20_0000)
  {
  }

  lemma LegacyEntry(mem: Ram, cr3: u64, linear: u64, addrs: seq<u64>, es: seq<u64>, i: nat)
    requires mem.Valid() && i < |es| == |addrs| <= 2 && IsEntry(mem, cr3, linear, Legacy, addrs, es, i)
    ensures var l := linear % TWO32;
            && addrs[i] == Entry4(LegacyFrame4K(if i == 0 then cr3 else es[i - 1]),
                                  if i == 0 then l / 0x40_0000 else l / 0x1000 % 0x400)
            && es[i] == ReadU32(mem, addrs[i])
  {
    hide HighPart, LegacyFrame4K, ReadU32, EntryStart, Entry4, Read;
    var l := linear % TWO32;
    if i == 0 {
      SmallIndex(l / 0x40_0000, 0x400);
      Address4(cr3, l / 0x40_0000);
    } else {
      Address4(es[0], l / 0x1000 % 0x400);
    }
    EntryRead(mem, addrs[i], 4);
  }

  lemma LongYields(mem: Ram, cr3: u64, linear: u64, nxe: bool, addrs: seq<u64>, es: seq<u64>)
    requires mem.Valid() && Walks(mem, cr3, linear, Long, addrs, es)
    ensures Yields(linear, Long, nxe, addrs, es, TranslateLong(mem, cr3, linear, nxe))
  {
    hide HighPart, Frame4K, Frame2M, Frame1G, ReadU64, Present, Rw, Us, Ps, Nx, Entry8, Read;
    LongEntry(mem, cr3, linear, addrs, es, 0);
    Bits(es[0]);
    assert |Levels(Long)| == 4;
    assert !Maps(Long, 0, es[0]);
    if |es| > 1 {
      LongEntry(mem, cr3, linear, addrs, es, 1);
      Bits(es[1]);
    }
    if |es| > 2 {
      LongEntry(mem, cr3, linear, addrs, es, 2);
      Bits(es[2]);
    }
    if |es| > 3 {
      LongEntry(mem, cr3, linear, addrs, es, 3);
      Bits(es[3]);
    }
    HighParts(es[|es| - 1]);
  }

  lemma PaeYields(mem: Ram, cr3: u64, linear: u64, nxe: bool, addrs: seq<u64>, es: seq<u64>)
    requires mem.Valid() && Walks(mem, cr3, linear, Pae, addrs, es)
    ensures Yields(linear, Pae, nxe, addrs, es, TranslatePae(mem, cr3, linear % TWO32, nxe))
  {
    hide HighPart, Frame4K, Frame2M, Frame1G, ReadU64, Present, Rw, Us, Ps, Nx, Entry8, PdptEntry, Read;
    PaeEntry(mem, cr3, linear, addrs, es, 0);
    Bits(es[0]);
    assert |Levels(Pae)| == 3;
    assert !Maps(Pae, 0, es[0]);
    if |es| > 1 {
      PaeEntry(mem, cr3, linear, addrs, es, 1);
      Bits(es[1]);
    }
    if |es| > 2 {
      PaeEntry(mem, cr3, linear, addrs, es, 2);
      Bits(es[2]);
    }
    HighParts(es[|es| - 1]);
    SameHighPart(es[|es| - 1]);
  }

  lemma LegacyYields(mem: Ram, cr3: u64, linear: u64, nxe: bool, addrs: seq<u64>, es: seq<u64>)
    requires mem.Valid() && Walks(mem, cr3, linear, Legacy, addrs, es)
    ensures Yields(linear, Legacy, nxe, addrs, es, TranslateLegacy(mem, cr3, linear % TWO32))
  {
    hide HighPart, LegacyFrame4K, LegacyFrame4M, ReadU32, Present, Rw, Us, Ps, Entry4, Read;
    LegacyEntry(mem, cr3, linear, addrs, es, 0);
    Bits(es[0]);
    assert |Levels(Legacy)| == 2;
    if |es| > 1 {
      LegacyEntry(mem, cr3, linear, addrs, es, 1);
      Bits(es[1]);
    }
    HighParts(es[|es| - 1]);
  }

  /** In every paging mode a walk goes through the entries that the tables hold for the
      address, and yields a mapping exactly if all of them are present: to the frame in
      the last one plus the offset, with the rights that every entry grants. */
  lemma WalkMeans(mem: Ram, cr3: u64, linear: u64, mode: PagingMode, nxe: bool, addrs: seq<u64>, es: seq<u64>)
    requires mem.Valid() && Walks(mem, cr3, linear, mode, addrs, es)
    ensures mode != Off
    ensures Yields(linear, mode, nxe, addrs, es, TranslateMode(mem, cr3, linear, mode, nxe))
  {
    hide Walks, Yields, TranslateLegacy, TranslatePae, TranslateLong;
    assert 0 < |es| <= |Levels(mode)| by { WalkLength(mem, cr3, linear, mode, addrs, es); }
    match mode
    case Legacy => LegacyYields(mem, cr3, linear, nxe, addrs, es);
    case Pae => PaeYields(mem, cr3, linear, nxe, addrs, es);
    case Long => LongYields(mem, cr3, linear, nxe, addrs, es);
  }

  lemma WalkLength(mem: Ram, cr3: u64, linear: u64, mode: PagingMode, addrs: seq<u64>, es: seq<u64>)
    requires mem.Valid() && Walks(mem, cr3, linear, mode, addrs, es)
    ensures 0 < |es| == |addrs| <= |Levels(mode)| && Levels(mode)[|es| - 1].span > 0
  {
  }

  /** Without paging an address is its own translation, and everything is allowed. */
  lemma OffMeans(mem: Ram, cr3: u64, linear: u64, nxe: bool)
    requires mem.Valid()
    ensures var t := TranslateMode(mem, cr3, linear, Off, nxe);
            t.Some? && t.value.phys == linear && t.value.writable && t.value.user && t.value.exec
  {
  }

  /** For every address there is such a list of entries. */
  lemma WalkExists(mem: Ram, cr3: u64, linear: u64, mode: PagingMode) returns (addrs: seq<u64>, es: seq<u64>)
    requires mem.Valid() && mode != Off
    ensures Walks(mem, cr3, linear, mode, addrs, es)
  {
    addrs, es := Descend(mem, cr3, linear, mode, [], []);
  }

  lemma HighPartBound(mode: PagingMode, e: u64)
    requires mode != Off
    ensures 0 <= HighPart(mode, e, 0x1000) < 0x10_0000_0000_0000
  {
    hide Frame4K, LegacyFrame4K;
    HighParts(e);
    if mode == Pae { SameHighPart(e); }
  }

  /** The four entries of the PAE root do not run off the address space. */
  lemma RootFits(cr3: u64, linear: u64)
    ensures 0 <= Root(Pae, cr3) + 8 * (Seen(Pae, linear) / 0x4000_0000 % 512) < TWO64
  {
    var i := Seen(Pae, linear) / 0x4000_0000;
    Division.DivUnique(i, 512, 0, i);
    Division.DivUnique(cr3, 32, cr3 / 32, cr3 % 32);
  }

  lemma {:induction false} Descend(mem: Ram, cr3: u64, linear: u64, mode: PagingMode, addrs: seq<u64>, es: seq<u64>)
      returns (addrs': seq<u64>, es': seq<u64>)
    requires mem.Valid() && mode != Off && |es| == |addrs| < |Levels(mode)|
    requires forall i: nat :: i < |es| ==> IsEntry(mem, cr3, linear, mode, addrs, es, i)
    requires forall i: nat :: i < |es| ==> es[i] % 2 == 1 && !Maps(mode, i, es[i])
    ensures Walks(mem, cr3, linear, mode, addrs', es')
    decreases |Levels(mode)| - |es|
  {
    hide HighPart, Read, Seen;
    var k := |es|;
    HighPartBound(mode, if k == 0 then cr3 else es[k - 1]);
    if mode == Pae && k == 0 { RootFits(cr3, linear); }
    var index := Seen(mode, linear) / Levels(mode)[k].span % Fanout(mode);
    var a: u64 := (if k == 0 then Root(mode, cr3) else HighPart(mode, es[k - 1], 0x1000)) + EntrySize(mode) * index;
    var e: u64 := ReadBound(mem, a, EntrySize(mode));
    addrs', es' := addrs + [a], es + [e];
    forall i: nat | i <= k ensures IsEntry(mem, cr3, linear, mode, addrs', es', i) {
      if i < k { assert IsEntry(mem, cr3, linear, mode, addrs, es, i); }
    }
    if e % 2 == 1 && !Maps(mode, k, e) {
      addrs', es' := Descend(mem, cr3, linear, mode, addrs', es');
    }
  }

  lemma ReadBound(mem: Ram, a: nat, n: nat) returns (v: u64)
    requires mem.Valid() && (n == 4 || n == 8)
    ensures v == Read(mem, a, n)
  {
    ByteRanges();
    v := Read(mem, a, n);
  }
}
