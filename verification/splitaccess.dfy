/** Straddling accesses are byte-by-byte translation, and commit all or nothing. */
module SplitAccess {
  import opened Words
  import opened Memory
  import opened Paging
  import opened PageUniform
  import opened Mmu
  import opened TlbRefinement
  import opened AddressSpace
  import opened Operands
  import Division

  // ---- Reading and writing at lists of addresses ----

  ghost predicate Distinct(addrs: seq<nat>) {
    forall i, j :: 0 <= i < j < |addrs| ==> addrs[i] != addrs[j]
  }

  ghost predicate AllBacked(mem: Ram, addrs: seq<nat>)
    requires mem.Valid()
  {
    forall a :: a in addrs ==> Slot(mem, a).Some?
  }

  lemma {:induction false} WriteAtFrame(mem: Ram, addrs: seq<nat>, v: nat, a: nat)
    requires mem.Valid() && a !in addrs
    ensures ReadU8(WriteAt(mem, addrs, v), a) == ReadU8(mem, a)
    decreases |addrs|
  {
    if addrs != [] { WriteAtFrame(WriteU8(mem, addrs[0], v % 256), addrs[1..], v / 256, a); }
  }

  lemma {:induction false} SameBytesReadAt(mem: Ram, mem': Ram, addrs: seq<nat>)
    requires mem.Valid() && mem'.Valid() && forall a :: a in addrs ==> ReadU8(mem', a) == ReadU8(mem, a)
    ensures ReadAt(mem', addrs) == ReadAt(mem, addrs)
  {
    if addrs != [] { SameBytesReadAt(mem, mem', addrs[1..]); }
  }

  lemma {:induction false} ReadAfterWriteAt(mem: Ram, addrs: seq<nat>, v: nat)
    requires mem.Valid() && Distinct(addrs) && AllBacked(mem, addrs) && v < ByteRange(|addrs|)
    ensures ReadAt(WriteAt(mem, addrs, v), addrs) == v
    decreases |addrs|
  {
    if addrs != [] {
      var mem1 := WriteU8(mem, addrs[0], v % 256);
      assert forall a :: a in addrs[1..] ==> a in addrs;
      assert Slot(mem, addrs[0]).Some?;
      forall a | a in addrs[1..] ensures Slot(mem1, a).Some? { assert Slot(mem, a).Some?; }
      ReadAfterWriteAt(mem1, addrs[1..], v / 256);
      WriteAtFrame(mem1, addrs[1..], v / 256, addrs[0]);
    }
  }

  // ---- A wide access inside one page is its bytes ----

  function Run(a: nat, n: nat): (addrs: seq<nat>)
    ensures |addrs| == n
  {
    seq(n, i requires 0 <= i < n => a + i)
  }

  lemma {:induction false} RunIsBytes(mem: Ram, a: nat, n: nat, v: nat)
    requires mem.Valid()
    ensures Read(mem, a, n) == ReadAt(mem, Run(a, n))
    ensures Write(mem, a, n, v) == WriteAt(mem, Run(a, n), v)
    decreases n
  {
    if n > 0 {
      assert Run(a, n)[1..] == Run(a + 1, n - 1);
      RunIsBytes(mem, a + 1, n - 1, v);
      RunIsBytes(WriteU8(mem, a, v % 256), a + 1, n - 1, v / 256);
    }
  }

  lemma PageIsWhole(mem: Ram, a: nat, n: nat)
    requires mem.Valid() && !Straddles(a, n)
    ensures Whole(mem, a, n)
  {
    assert a == a / 0x1000 * 0x1000 + a % 0x1000;
    if mem.lowSize < |mem.data| {
      assert mem.lowSize == 0xC_0000 * 0x1000;
      if a / 0x1000 < 0xC_0000 {
        assert a / 0x1000 * 0x1000 + 0x1000 <= mem.lowSize;
      } else {
        assert a / 0x1000 * 0x1000 >= mem.lowSize;
      }
    }
  }

  /** A wide access that does not run past the end of low RAM is its bytes. */
  lemma WholeIsRun(mem: Ram, a: nat, n: Size, v: u64)
    requires mem.Valid() && Whole(mem, a, n)
    ensures ReadSize(mem, a, n) == ReadAt(mem, Run(a, n))
    ensures WriteSize(mem, a, n, v) == WriteAt(mem, Run(a, n), v)
  {
    hide Whole, ReadU16, ReadU32, ReadU64, WriteWide;
    WideReads(mem, a);
    RunIsBytes(mem, a, n, v);
    if n == 1 {
      assert Run(a, 1)[1..] == [];
      assert ReadAt(mem, []) == 0;
    } else {
      WideWrite(mem, a, n, v);
    }
  }

  lemma InPage(mem: Ram, a: nat, n: Size, v: u64)
    requires mem.Valid() && !Straddles(a, n)
    ensures ReadSize(mem, a, n) == ReadAt(mem, Run(a, n))
    ensures WriteSize(mem, a, n, v) == WriteAt(mem, Run(a, n), v)
  {
    hide Straddles, Whole, ReadSize, WriteSize;
    PageIsWhole(mem, a, n);
    WholeIsRun(mem, a, n, v);
  }

  // ---- Where each byte of a linear operand lives ----

  /** The physical address the tables give for one linear address. */
  function PhysOf(s: State, linear: u64): (a: nat)
    requires s.Valid()
    ensures a < TWO64
  {
    match Walk(s, linear)
    case Some(mp) => mp.phys
    case None => UNBACKED
  }

  /** The simple form: every byte translated on its own. */
  function LinearAddrs(s: State, linear: u64, n: nat): (addrs: seq<nat>)
    requires s.Valid()
    ensures |addrs| == n
  {
    seq<nat>(n, i requires 0 <= i < n => PhysOf(s, Wrap64(linear + i)))
  }

  lemma PhysOffset(s: State, linear: u64)
    requires s.Valid() && Walk(s, linear).Some?
    ensures PhysOf(s, linear) % 0x1000 == linear % 0x1000
  {
    hide TranslateMode;
    OffsetRidesAlong(s.mem, s.cr3, linear, Mode(s), s.efer.nxe);
    var base := PhysOf(s, PageOf(linear));
    Division.DivUnique(base + linear % 0x1000, 0x1000, base / 0x1000, linear % 0x1000);
  }

  /** Within a page, the bytes of an operand are consecutive in memory. */
  lemma SamePage(s: State, linear: u64, i: nat)
    requires s.Valid() && Walk(s, linear).Some? && linear % 0x1000 + i < 0x1000
    ensures Wrap64(linear + i) == linear + i
    ensures PhysOf(s, linear + i) == PhysOf(s, linear) + i
  {
    hide TranslateMode, Ram.Valid;
    var q := linear / 0x1000;
    Division.DivUnique(linear + i, 0x1000, q, linear % 0x1000 + i);
    assert linear + i < TWO64 by { assert q < 0x10_0000_0000_0000; }
    OffsetRidesAlong(s.mem, s.cr3, linear, Mode(s), s.efer.nxe);
    OffsetRidesAlong(s.mem, s.cr3, linear + i, Mode(s), s.efer.nxe);
    assert PageOf(linear + i) == PageOf(linear);
  }

  lemma NextPageByte(linear: u64, i: nat)
    requires linear % 0x1000 + i >= 0x1000 && i < 8
    ensures var j := i - (0x1000 - linear % 0x1000);
            && NextPage(linear) % 0x1000 == 0 && 0 <= j < 8
            && NextPage(linear) + j < TWO64
            && Wrap64(linear + i) == NextPage(linear) + j
  {
    var q, j := linear / 0x1000, i - (0x1000 - linear % 0x1000);
    assert linear + i == (q + 1) * 0x1000 + j;
    assert q < 0x10_0000_0000_0000;
    if q + 1 == 0x10_0000_0000_0000 {
      assert NextPage(linear) == 0;
      assert linear + i == TWO64 + j;
    } else {
      assert NextPage(linear) == (q + 1) * 0x1000;
    }
  }

  /** The addresses a straddling access uses are those of byte-by-byte translation. */
  lemma SplitIsLinear(s: State, linear: u64, n: Size)
    requires s.Valid() && Walk(s, linear).Some?
    requires linear % 0x1000 + n > 0x1000 ==> Walk(s, NextPage(linear)).Some?
    ensures SplitAddrs(PhysOf(s, linear), PhysOf(s, NextPage(linear)), n) == LinearAddrs(s, linear, n)
    ensures linear % 0x1000 + n <= 0x1000 ==> Run(PhysOf(s, linear), n) == LinearAddrs(s, linear, n)
  {
    hide Walk, NextPage, Wrap64, PhysOf;
    PhysOffset(s, linear);
    forall i: nat | i < n
      ensures SplitAddrs(PhysOf(s, linear), PhysOf(s, NextPage(linear)), n)[i] == LinearAddrs(s, linear, n)[i]
      ensures linear % 0x1000 + n <= 0x1000 ==> PhysOf(s, linear) + i == LinearAddrs(s, linear, n)[i]
    {
      if linear % 0x1000 + i < 0x1000 {
        SamePage(s, linear, i);
      } else {
        NextPageByte(linear, i);
        SamePage(s, NextPage(linear), i - (0x1000 - linear % 0x1000));
      }
    }
  }

  /** However its two pages are placed -- even on the same frame -- an operand's
      bytes live at different addresses. */
  lemma LinearAddrsDistinct(s: State, linear: u64, n: Size)
    requires s.Valid() && Walk(s, linear).Some?
    requires linear % 0x1000 + n > 0x1000 ==> Walk(s, NextPage(linear)).Some?
    ensures Distinct(LinearAddrs(s, linear, n))
  {
    hide Walk, NextPage, Wrap64, PhysOf;
    PhysOffset(s, linear);
    SplitIsLinear(s, linear, n);
    if linear % 0x1000 + n > 0x1000 {
      NextPageByte(linear, n - 1);
      PhysOffset(s, NextPage(linear));
      var p, p2 := PhysOf(s, linear), PhysOf(s, NextPage(linear));
    }
  }

  // ---- The operand as a whole ----

  /** Both pages of the operand can be reached for the access. */
  predicate OperandReachable(s: State, linear: u64, n: Size, write: bool)
    requires s.Valid()
  {
    && Reachable(s, linear, write, false)
    && (linear % 0x1000 + n > 0x1000 ==> Reachable(s, NextPage(linear), write, false))
  }

  /** What holds of a page holds of its bytes. */
  lemma SamePageReachable(s: State, linear: u64, j: nat, write: bool)
    requires s.Valid() && Reachable(s, linear, write, false) && linear % 0x1000 + j < 0x1000
    ensures Wrap64(linear + j) == linear + j
    ensures Walk(s, linear + j).Some? && Reachable(s, linear + j, write, false)
  {
    hide TranslateMode, Permits;
    SamePage(s, linear, j);
    OffsetRidesAlong(s.mem, s.cr3, linear, Mode(s), s.efer.nxe);
    OffsetRidesAlong(s.mem, s.cr3, linear + j, Mode(s), s.efer.nxe);
    Division.DivUnique(linear + j, 0x1000, linear / 0x1000, linear % 0x1000 + j);
    assert PageOf(linear + j) == PageOf(linear);
  }

  /** ... and what holds of both pages of an operand holds of all its bytes. */
  lemma ByteReachable(s: State, linear: u64, n: Size, j: nat, write: bool)
    requires s.Valid() && OperandReachable(s, linear, n, write) && j < n
    ensures Walk(s, Wrap64(linear + j)).Some? && Reachable(s, Wrap64(linear + j), write, false)
  {
    hide Walk, Wrap64, NextPage, Reachable;
    if linear % 0x1000 + j < 0x1000 {
      SamePageReachable(s, linear, j, write);
    } else {
      NextPageByte(linear, j);
      SamePageReachable(s, NextPage(linear), j - (0x1000 - linear % 0x1000), write);
    }
  }

  /** Same registers and same walk: the same pages can be reached. */
  lemma ReachableSame(s: State, s': State, linear: u64)
    requires s.Valid() && s'.Valid() && Walk(s', linear) == Walk(s, linear)
    requires s' == s.(mem := s'.mem, tlb := s'.tlb, cr2 := s'.cr2, pending := s'.pending)
    ensures forall write :: Reachable(s', linear, write, false) == Reachable(s, linear, write, false)
  {
    hide Walk, Permits, Canonical;
  }

  lemma SameStraddle(s: State, linear: u64, n: Size)
    requires s.Valid() && Walk(s, linear).Some?
    ensures Straddles(PhysOf(s, linear), n) <==> linear % 0x1000 + n > 0x1000
  {
    PhysOffset(s, linear);
  }

  /** The translations behind a load or store, without the data transfer. */
  ghost function Reach(s: State, linear: u64, n: Size, write: bool): (s': State)
    requires s.Valid()
    ensures s'.Valid()
  {
    var (s1, phys) := Access(s, linear, write, false);
    if s1.pending.None? && n > 1 && Straddles(phys, n) then Access(s1, NextPage(linear), write, false).0
    else s1
  }

  lemma ReachOutcome(s: State, linear: u64, n: Size, write: bool)
    requires Inv(s) && s.pending.None?
    ensures var s' := Reach(s, linear, n, write);
            && Inv(s') && Translated(s, s')
            && (s'.pending.None? <==> OperandReachable(s, linear, n, write))
            && (s'.pending.None? ==> s'.cr2 == s.cr2)
  {
    hide TranslateMode, Canonical, Permits, MoreMarked, Agrees, Marked, Access, Walk, Mode;
    AccessOutcome(s, linear, write, false);
    var (s1, phys) := Access(s, linear, write, false);
    if s1.pending.None? {
      SameStraddle(s, linear, n);
      if linear % 0x1000 + n > 0x1000 {
        AccessOutcome(s1, NextPage(linear), write, false);
        WalksStay(s, s1, NextPage(linear));
        ReachableSame(s, s1, NextPage(linear));
        var s2 := Access(s1, NextPage(linear), write, false).0;
        TranslatedTransitive(s, s1, s2);
      }
    }
  }

  lemma ReachKeepsData(s: State, linear: u64, n: Size, write: bool, D: iset<nat>)
    requires Inv(s) && s.pending.None? && Separate(s, D)
    ensures var s' := Reach(s, linear, n, write); SameInside(s.mem, s'.mem, D) && Separate(s', D)
  {
    hide TranslateMode, Canonical, Permits, MoreMarked, Agrees, Marked, Access, Walk, Mode, Separate;
    AccessOutcome(s, linear, write, false);
    AccessKeepsData(s, linear, write, false, D);
    var (s1, phys) := Access(s, linear, write, false);
    if s1.pending.None? && n > 1 && Straddles(phys, n) {
      AccessKeepsData(s1, NextPage(linear), write, false, D);
    }
  }

  /** A load that does not fault returns byte `i` from wherever `linear + i`
      translates to, for every `i`, whichever pages those are; and it faults
      exactly when one of its pages cannot be reached. */
  lemma LoadIsBytewise(s: State, linear: u64, n: Size)
    requires Inv(s) && s.pending.None?
    ensures var (s', v) := Load(s, linear, n);
            && s' == Reach(s, linear, n, false)
            && (s'.pending.None? <==> OperandReachable(s, linear, n, false))
            && (s'.pending.None? ==> v == ReadAt(s'.mem, LinearAddrs(s, linear, n)))
  {
    hide TranslateMode, Canonical, Permits, MoreMarked, Agrees, Marked, Access, Walk, Mode, ReadAt, ReadSize;
    ReachOutcome(s, linear, n, false);
    AccessOutcome(s, linear, false, false);
    var (s1, phys) := Access(s, linear, false, false);
    if s1.pending.None? {
      SameStraddle(s, linear, n);
      if linear % 0x1000 + n > 0x1000 {
        AccessOutcome(s1, NextPage(linear), false, false);
        WalksStay(s, s1, NextPage(linear));
        ReachableSame(s, s1, NextPage(linear));
        if Access(s1, NextPage(linear), false, false).0.pending.None? {
          SplitIsLinear(s, linear, n);
        }
      } else {
        SplitIsLinear(s, linear, n);
        InPage(s1.mem, phys, n, 0);
      }
    }
  }

  /** A store puts byte `i` wherever `linear + i` translates to, and it is all or
      nothing: a fault on either page, permissions included, stores no byte. */
  lemma StoreIsBytewise(s: State, linear: u64, n: Size, v: u64)
    requires Inv(s) && s.pending.None?
    ensures var s', r := Store(s, linear, n, v), Reach(s, linear, n, true);
            && (s'.pending.None? <==> OperandReachable(s, linear, n, true))
            && s' == if s'.pending.None? then r.(mem := WriteAt(r.mem, LinearAddrs(s, linear, n), v)) else r
  {
    hide TranslateMode, Canonical, Permits, MoreMarked, Agrees, Marked, Access, Walk, Mode, WriteAt, WriteSize;
    ReachOutcome(s, linear, n, true);
    AccessOutcome(s, linear, true, false);
    var (s1, phys) := Access(s, linear, true, false);
    if s1.pending.None? {
      SameStraddle(s, linear, n);
      if linear % 0x1000 + n > 0x1000 {
        AccessOutcome(s1, NextPage(linear), true, false);
        WalksStay(s, s1, NextPage(linear));
        ReachableSame(s, s1, NextPage(linear));
        if Access(s1, NextPage(linear), true, false).0.pending.None? {
          SplitIsLinear(s, linear, n);
        }
      } else {
        SplitIsLinear(s, linear, n);
        InPage(s1.mem, phys, n, v);
      }
    }
  }

  // ---- Data ----

  /** The operand is data, and RAM answers at every byte of it. */
  ghost predicate IsData(s: State, linear: u64, n: nat, D: iset<nat>)
    requires s.Valid()
  {
    forall a :: a in LinearAddrs(s, linear, n) ==> a in D && Slot(s.mem, a).Some?
  }

  /** A fault on either page of an operand leaves every byte of data as it was. */
  lemma FaultCommitsNothing(s: State, linear: u64, n: Size, v: u64, D: iset<nat>)
    requires Inv(s) && s.pending.None? && Separate(s, D)
    ensures var s' := Store(s, linear, n, v); s'.pending.Some? ==> SameInside(s.mem, s'.mem, D)
    ensures var s' := Load(s, linear, n).0; SameInside(s.mem, s'.mem, D)
  {
    hide Load, Store, Separate, Reach, OperandReachable;
    StoreIsBytewise(s, linear, n, v);
    LoadIsBytewise(s, linear, n);
    ReachKeepsData(s, linear, n, true, D);
    ReachKeepsData(s, linear, n, false, D);
  }

  lemma WriteAtOutside(mem: Ram, addrs: seq<nat>, v: nat, D: iset<nat>)
    requires mem.Valid() && forall a :: a in addrs ==> a in D
    ensures SameOutside(mem, WriteAt(mem, addrs, v), D)
  {
    forall a: nat | a !in D
      ensures ReadU8(WriteAt(mem, addrs, v), a) == ReadU8(mem, a)
    {
      WriteAtFrame(mem, addrs, v, a);
    }
  }

  /** What may be written may be read. */
  lemma WritableIsReadable(s: State, linear: u64)
    requires s.Valid() && Reachable(s, linear, true, false)
    ensures Reachable(s, linear, false, false)
  {
  }

  /** A store to data keeps the invariant and every translation. */
  lemma StoreFacts(s: State, linear: u64, n: Size, v: u64, D: iset<nat>)
    requires Inv(s) && s.pending.None? && Separate(s, D) && IsData(s, linear, n, D)
    ensures var s' := Store(s, linear, n, v);
            && Inv(s') && Separate(s', D)
            && (forall a: u64 :: Walk(s', a) == Walk(s, a))
            && s' == s.(mem := s'.mem, tlb := s'.tlb, cr2 := s'.cr2, pending := s'.pending)
            && |s'.mem.data| == |s.mem.data|
  {
    hide Store, Separate, OperandReachable, LinearAddrs, Agrees, TranslateMode, MoreMarked;
    StoreIsBytewise(s, linear, n, v);
    ReachOutcome(s, linear, n, true);
    ReachKeepsData(s, linear, n, true, D);
    var r := Reach(s, linear, n, true);
    hide Reach;
    TranslatedWalks(s, r);
    if r.pending.None? {
      var mem' := WriteAt(r.mem, LinearAddrs(s, linear, n), v);
      WriteAtOutside(r.mem, LinearAddrs(s, linear, n), v, D);
      DataStore(r, mem', D);
    }
  }

  /** What a store put in memory is what a load of the same operand returns,
      across a page boundary and whether or not the two pages are one frame. */
  lemma StoreThenLoad(s: State, linear: u64, n: Size, v: u64, D: iset<nat>)
    requires Inv(s) && s.pending.None? && Separate(s, D) && IsData(s, linear, n, D)
    requires v < ByteRange(n) && Store(s, linear, n, v).pending.None?
    ensures var (s2, w) := Load(Store(s, linear, n, v), linear, n); s2.pending.None? && w == v
  {
    hide Store, Load, Separate, Agrees, Walk, MoreMarked, PhysOf, Reachable, Reach, Straddles;
    StoreIsBytewise(s, linear, n, v);
    StoreFacts(s, linear, n, v, D);
    ReachOutcome(s, linear, n, true);
    var r, s1 := Reach(s, linear, n, true), Store(s, linear, n, v);
    WritableIsReadable(s, linear);
    assert Walk(s, linear).Some? by { ReachableWalks(s, linear, true); }
    ReachableSame(s, s1, linear);
    if linear % 0x1000 + n > 0x1000 {
      WritableIsReadable(s, NextPage(linear));
      ReachableSame(s, s1, NextPage(linear));
      ReachableWalks(s, NextPage(linear), true);
    }
    LoadIsBytewise(s1, linear, n);
    var s2 := Reach(s1, linear, n, false);
    ReachKeepsData(s1, linear, n, false, D);
    var addrs := LinearAddrs(s, linear, n);
    SameAddrs(s, s1, linear, n);
    SameBytesReadAt(s1.mem, s2.mem, addrs);
    LinearAddrsDistinct(s, linear, n);
    assert AllBacked(r.mem, addrs);
    ReadAfterWriteAt(r.mem, addrs, v);
  }

  lemma ReachableWalks(s: State, linear: u64, write: bool)
    requires s.Valid() && Reachable(s, linear, write, false)
    ensures Walk(s, linear).Some?
  {
    hide TranslateMode;
  }

  lemma SameAddrs(s: State, s': State, linear: u64, n: nat)
    requires s.Valid() && s'.Valid() && forall a: u64 :: Walk(s', a) == Walk(s, a)
    ensures LinearAddrs(s', linear, n) == LinearAddrs(s, linear, n)
  {
    hide Walk, Wrap64;
    forall i: nat | i < n
      ensures LinearAddrs(s', linear, n)[i] == LinearAddrs(s, linear, n)[i]
    {
      var a := Wrap64(linear + i);
      assert Walk(s', a) == Walk(s, a);
      assert PhysOf(s', a) == PhysOf(s, a);
    }
  }
}
