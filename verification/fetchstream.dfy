/** The fetch cursor refines translating every instruction byte on its own. */
module FetchStream {
  import opened Words
  import opened Memory
  import opened Paging
  import opened PageUniform
  import opened Mmu
  import opened TlbRefinement
  import opened AddressSpace
  import opened SplitAccess
  import opened Processor
  import opened Fetch
  import Division

  /** The simple form: no cursor, every byte translated from RIP afresh. */
  function LookupByte(c: Cpu): (r: (Cpu, u8))
    requires c.Valid()
    ensures r.0.Valid()
  {
    var (m, phys) := Access(c.mmu, IpLinear(c), false, true);
    (AdvanceIp(c.(mmu := m), 1), ReadU8(m.mem, phys))
  }

  function LookupBytes(c: Cpu, n: nat): (r: (Cpu, nat))
    requires c.Valid()
    ensures r.0.Valid()
    decreases n
  {
    if n == 0 then (c, 0)
    else
      var (c1, b) := LookupByte(c);
      var (c2, rest) := LookupBytes(c1, n - 1);
      (c2, b + 256 * rest)
  }

  /** The fetch of the byte at `linear` would succeed, without marking anything new. */
  ghost predicate Fetchable(m: State, linear: u64)
    requires m.Valid()
  {
    && Reachable(m, linear, false, true)
    && (Pg(m) ==> Marked(m.mem, Walk(m, linear).value, false))
  }

  /** A live cursor points at the current RIP and at the byte it translates to. */
  ghost predicate CursorInv(c: Cpu) {
    && c.Valid() && Inv(c.mmu) && c.mmu.pe && c.wideRip == Long64(c)
    && (c.mmu.ipValid ==>
          && c.ipLinear == IpLinear(c)
          && Fetchable(c.mmu, c.ipLinear)
          && c.ipCache == PhysOf(c.mmu, c.ipLinear))
  }

  /** `d` is `c` but for the two caches. */
  ghost predicate SameStream(c: Cpu, d: Cpu) {
    && c.Valid() && d.Valid() && Inv(d.mmu)
    && d == c.(mmu := c.mmu.(tlb := d.mmu.tlb, ipValid := d.mmu.ipValid),
               ipCache := d.ipCache, ipLinear := d.ipLinear)
  }

  // ---- Translating a byte again ----

  lemma InvIgnoresCursor(m: State, m': State)
    requires Inv(m) && m' == m.(ipValid := m'.ipValid)
    ensures Inv(m')
  {
    hide TranslateMode, Marked;
    forall i | 0 <= i < TLB_SIZE
      ensures Agrees(m', m'.tlb[i])
    {
      assert Agrees(m, m.tlb[i]);
    }
  }

  lemma AccessKeepsSwitch(m: State, linear: u64)
    requires m.Valid()
    ensures Access(m, linear, false, true).0.noTlb == m.noTlb
  {
    hide TranslateMode, SetAccessedBits, Canonical, TlbIndex, Permits;
  }

  /** Two machines that differ in their caches translate alike. */
  lemma CachesDoNotMatter(m: State, m': State, linear: u64)
    requires Inv(m) && Inv(m') && m' == m.(tlb := m'.tlb, ipValid := m'.ipValid)
    ensures var (m1, p), (m1', q) := Access(m, linear, false, true), Access(m', linear, false, true);
            p == q && m1' == m1.(tlb := m1'.tlb, ipValid := m1'.ipValid) && Inv(m1) && Inv(m1')
  {
    hide Access, Agrees;
    var m0 := m.(ipValid := m'.ipValid);
    InvIgnoresCursor(m, m0);
    var t := m'.(noTlb := true);
    AccessRefines(m0, t, linear, false, true);
    AccessRefines(m', t, linear, false, true);
    AccessRefines(m, m.(noTlb := true), linear, false, true);
    CursorPassesThrough(m.(noTlb := true), m0.(noTlb := true), linear);
    AccessRefines(m0, m0.(noTlb := true), linear, false, true);
    AccessKeepsSwitch(m, linear);
    AccessKeepsSwitch(m', linear);
  }

  lemma CursorPassesThrough(m: State, m': State, linear: u64)
    requires m.Valid() && m'.Valid() && m' == m.(ipValid := m'.ipValid) && m.noTlb
    ensures var (m1, p), (m1', q) := Access(m, linear, false, true), Access(m', linear, false, true);
            p == q && m1' == m1.(ipValid := m1'.ipValid)
  {
    hide Canonical, Miss;
    MissPassesThrough(m, m', linear);
    if LongMode(m) && !Canonical(linear) {
      assert RaiseGp(m', 0) == RaiseGp(m, 0).(ipValid := m'.ipValid);
    } else if Pg(m) {
      assert Access(m, linear, false, true) == Miss(m, linear, false, true);
      assert Access(m', linear, false, true) == Miss(m', linear, false, true);
    }
  }

  lemma MissPassesThrough(m: State, m': State, linear: u64)
    requires m.Valid() && m'.Valid() && m' == m.(ipValid := m'.ipValid)
    ensures var (m1, p), (m1', q) := Miss(m, linear, false, true), Miss(m', linear, false, true);
            p == q && m1' == m1.(ipValid := m1'.ipValid)
  {
    hide TlbIndex, TranslateMode, SetAccessedBits, Permits, RaisePageFault, Fill, WellFormed, Cpl, Ram.Valid;
    assert Walk(m', linear) == Walk(m, linear);
    if Walk(m, linear).None? {
      FaultPassesThrough(m, m', linear, false);
    } else if !Allowed(m, Walk(m, linear).value.writable, Walk(m, linear).value.user, Walk(m, linear).value.exec,
                       false, true) {
      FaultPassesThrough(m, m', linear, true);
    }
  }

  lemma FaultPassesThrough(m: State, m': State, linear: u64, present: bool)
    requires m' == m.(ipValid := m'.ipValid)
    ensures var r := RaisePageFault(m, linear, present, false, true);
            var r' := RaisePageFault(m', linear, present, false, true);
            r' == r.(ipValid := r'.ipValid)
  {
    hide FaultCode, Cpl;
  }

  /** Fetching through a mapping already marked changes nothing but the TLB. */
  lemma FetchAgain(m: State, linear: u64)
    requires Inv(m) && m.pending.None? && Fetchable(m, linear)
    ensures var (m', phys) := Access(m, linear, false, true);
            m' == m.(tlb := m'.tlb) && phys == PhysOf(m, linear)
  {
    hide Access, Agrees, TranslateMode, SetAccessedBits, Marked, MoreMarked;
    AccessOutcome(m, linear, false, true);
    var t := m.(noTlb := true);
    AccessRefines(m, t, linear, false, true);
    WalkingAgain(t, linear);
  }

  lemma WalkingAgain(t: State, linear: u64)
    requires t.Valid() && t.noTlb && t.pending.None? && Fetchable(t, linear)
    ensures Access(t, linear, false, true).0.mem == t.mem
  {
    hide TranslateMode, Marked, MoreMarked, Canonical, Permits, TlbIndex;
    if Pg(t) {
      WalkFacts(t, linear, false);
    }
  }

  // ---- Moving within a page ----

  lemma SamePageFetchable(m: State, linear: u64)
    requires m.Valid() && Fetchable(m, linear) && linear % 0x1000 < 0xFFF
    ensures linear + 1 < TWO64 && Fetchable(m, linear + 1)
    ensures PhysOf(m, linear + 1) == PhysOf(m, linear) + 1
  {
    hide TranslateMode, Marked, Permits;
    SamePage(m, linear, 1);
    OffsetRidesAlong(m.mem, m.cr3, linear, Mode(m), m.efer.nxe);
    OffsetRidesAlong(m.mem, m.cr3, linear + 1, Mode(m), m.efer.nxe);
    SameMarks(m.mem, Walk(m, linear).value, Walk(m, linear + 1).value, false);
  }

  /** RIP and its linear address advance together inside a page. */
  lemma IpLinearAdvances(c: Cpu)
    requires c.Valid() && c.mmu.pe && c.wideRip == Long64(c) && IpLinear(c) % 0x1000 < 0xFFF
    ensures IpLinear(AdvanceIp(c, 1)) == IpLinear(c) + 1
  {
    assert (TWO64 - 1) % 0x1000 == 0xFFF && (TWO32 - 1) % 0x1000 == 0xFFF;
    if Long64(c) {
      NoWrap(c.rip + 1);
    } else {
      NextLinear32(c.desc[SegIndex(Cs)].base, c.rip, c.wideRip);
    }
  }

  lemma NextLinear32(base: u32, rip: u64, wide: bool)
    requires Wrap32(base + rip % TWO32) % 0x1000 < 0xFFF && !wide
    ensures Wrap32(base + Wrap32(rip + 1) % TWO32) == Wrap32(base + rip % TWO32) + 1
  {
    var l := Wrap32(base + rip % TWO32);
    assert (TWO32 - 1) % 0x1000 == 0xFFF;
    Division.ModShift(rip, base, TWO32);
    Division.ModShift(rip + 1, base, TWO32);
    Division.DivUnique(base + rip + 1, TWO32, (base + rip) / TWO32, l + 1);
  }

  // ---- One byte ----

  /** Settling the cursor is one translation, or none. */
  lemma Settle(c: Cpu, d: Cpu)
    requires CursorInv(c) && SameStream(c, d) && c.mmu.pending.None?
    ensures var c1 := EnsurePhysIp(c);
            var (m, phys) := Access(d.mmu, IpLinear(d), false, true);
            && SameStream(c1, d.(mmu := m))
            && (c1.mmu.pending.None? ==> CursorInv(c1) && c1.mmu.ipValid && phys == c1.ipCache)
            && c1.rip == c.rip && c1.wideRip == c.wideRip && IpLinear(c1) == IpLinear(c)
  {
    hide Access, TranslateMode, Marked, Agrees, Canonical, Permits, MoreMarked;
    var linear := IpLinear(c);
    CachesDoNotMatter(c.mmu, d.mmu, linear);
    AccessOutcome(c.mmu, linear, false, true);
    if c.mmu.ipValid {
      FetchAgain(c.mmu, linear);
    } else {
      var m := Access(c.mmu, linear, false, true).0;
      var m1 := m.(ipValid := true);
      InvIgnoresCursor(m, m1);
      if m.pending.None? {
        SettledFetchable(c.mmu, m, m1, linear);
      }
    }
  }

  /** After a fetch translation the byte is fetchable in the state it left. */
  lemma SettledFetchable(m0: State, m: State, m1: State, linear: u64)
    requires m0.Valid() && m0.pending.None? && m.pending.None? && m1 == m.(ipValid := m1.ipValid)
    requires Outcome(m0, linear, false, true, m, PhysOf(m0, linear))
    ensures m1.Valid() && Fetchable(m1, linear) && PhysOf(m1, linear) == PhysOf(m0, linear)
  {
    hide TranslateMode, Marked, Canonical, Permits, MoreMarked;
    WalksStay(m0, m, linear);
    assert Walk(m1, linear) == Walk(m, linear);
  }

  /** One byte through the cursor is one byte looked up, faults included. */
  lemma ByteRefines(c: Cpu, d: Cpu)
    requires CursorInv(c) && SameStream(c, d) && c.mmu.pending.None?
    ensures var (c1, b), (d1, b') := FetchU8(c), LookupByte(d);
            && c1.mmu.pending == d1.mmu.pending && c1.mmu.cr2 == d1.mmu.cr2
            && (c1.mmu.pending.None? ==> b == b' && CursorInv(c1) && SameStream(c1, d1))
  {
    hide Access, Fetchable, PhysOf, Agrees, ReadU8, IpLinear, AdvanceIp;
    Settle(c, d);
    var c1 := EnsurePhysIp(c);
    var (m, phys) := Access(d.mmu, IpLinear(d), false, true);
    var d1 := d.(mmu := m);
    hide EnsurePhysIp;
    if c1.mmu.pending.None? {
      MoveKeepsInv(c1);
      MoveSameStream(c1, d1);
    }
  }

  lemma MoveSameStream(c: Cpu, d: Cpu)
    requires SameStream(c, d)
    ensures SameStream(MoveCursor(AdvanceIp(c, 1), 1, c.ipLinear % 0x1000 == 0xFFF), AdvanceIp(d, 1))
  {
    hide Agrees, State.Valid;
  }

  lemma MoveKeepsInv(c: Cpu)
    requires CursorInv(c) && c.mmu.ipValid
    ensures CursorInv(MoveCursor(AdvanceIp(c, 1), 1, c.ipLinear % 0x1000 == 0xFFF))
  {
    hide Fetchable, PhysOf, Agrees, Wrap64, IpLinear, AdvanceIp;
    var c1 := MoveCursor(AdvanceIp(c, 1), 1, c.ipLinear % 0x1000 == 0xFFF);
    InvIgnoresCursor(c.mmu, c1.mmu);
    if c.ipLinear % 0x1000 != 0xFFF {
      SamePageFetchable(c.mmu, c.ipLinear);
      IpLinearAdvances(c);
      assert Wrap64(c.ipLinear + 1) == c.ipLinear + 1 by { NoWrap(c.ipLinear + 1); }
      IpLinearIgnoresCursor(AdvanceIp(c, 1), c1);
    }
  }

  lemma NoWrap(x: u64)
    ensures Wrap64(x) == x
  {
  }

  lemma IpLinearIgnoresCursor(c: Cpu, c': Cpu)
    requires c.Valid() && c'.Valid()
    requires c' == c.(mmu := c'.mmu, ipCache := c'.ipCache, ipLinear := c'.ipLinear)
    requires c'.mmu == c.mmu.(ipValid := c'.mmu.ipValid)
    ensures IpLinear(c') == IpLinear(c)
  {
    hide State.Valid;
  }

  // ---- Streams ----

  /** The same fault pending, or none, with the same CR2. */
  predicate SameFault(c: Cpu, d: Cpu) { c.mmu.pending == d.mmu.pending && c.mmu.cr2 == d.mmu.cr2 }

  lemma {:induction false} FaultSticks(c: Cpu, n: nat)
    requires c.Valid() && c.mmu.pending.Some?
    ensures SameFault(c, FetchBytes(c, n).0) && SameFault(c, LookupBytes(c, n).0)
    decreases n
  {
    hide FetchU8, LookupByte;
    if n > 0 {
      ByteSticks(c);
      FaultSticks(FetchU8(c).0, n - 1);
      FaultSticks(LookupByte(c).0, n - 1);
    }
  }

  lemma ByteSticks(c: Cpu)
    requires c.Valid() && c.mmu.pending.Some?
    ensures SameFault(c, FetchU8(c).0) && SameFault(c, LookupByte(c).0)
  {
    hide Access, IpLinear, ReadU8;
    AccessSticks(c.mmu, IpLinear(c));
  }

  lemma AccessSticks(m: State, linear: u64)
    requires m.Valid() && m.pending.Some?
    ensures var m' := Access(m, linear, false, true).0; m'.pending == m.pending && m'.cr2 == m.cr2
  {
    hide TranslateMode, SetAccessedBits, Canonical, TlbIndex, Permits;
  }

  /** Any number of bytes through the cursor, over any number of pages, are the
      bytes found by translating each address on its own; the stream faults
      exactly when one of those translations does, with the fault it raises. */
  lemma {:induction false} StreamRefines(c: Cpu, d: Cpu, n: nat)
    requires CursorInv(c) && SameStream(c, d) && c.mmu.pending.None?
    ensures var (c', v), (d', w) := FetchBytes(c, n), LookupBytes(d, n);
            && SameFault(c', d')
            && (c'.mmu.pending.None? ==> v == w && CursorInv(c') && SameStream(c', d'))
    decreases n
  {
    hide FetchU8, LookupByte, Agrees, IpLinear, Fetchable, PhysOf;
    if n > 0 {
      ByteRefines(c, d);
      var c1, d1 := FetchU8(c).0, LookupByte(d).0;
      if c1.mmu.pending.None? {
        StreamRefines(c1, d1, n - 1);
      } else {
        FaultSticks(c1, n - 1);
        FaultSticks(d1, n - 1);
      }
    }
  }

  // ---- Any mix of widths ----

  type Width = n: nat | n == 1 || n == 2 || n == 4 || n == 8 witness 1

  function FetchW(c: Cpu, n: Width): (r: (Cpu, nat))
    requires c.Valid()
    ensures r.0.Valid()
  {
    if n == 1 then FetchU8(c)
    else if n == 2 then FetchU16(c)
    else if n == 4 then FetchU32(c)
    else FetchU64(c)
  }

  lemma FetchWIsBytes(c: Cpu, n: Width)
    requires c.Valid()
    ensures FetchW(c, n) == FetchBytes(c, n)
  {
    hide FetchU8, FetchU16, FetchU32, FetchU64;
    FetchU16IsBytes(c);
    WideFetches(c);
    OneByte(c);
  }

  /** Decoding: a sequence of immediates and displacements of the given widths. */
  function FetchAll(c: Cpu, widths: seq<Width>): (r: (Cpu, seq<nat>))
    requires c.Valid()
    ensures r.0.Valid()
    decreases |widths|
  {
    if widths == [] then (c, [])
    else
      var (c1, v) := FetchW(c, widths[0]);
      var (c2, vs) := FetchAll(c1, widths[1..]);
      (c2, [v] + vs)
  }

  function LookupAll(c: Cpu, widths: seq<Width>): (r: (Cpu, seq<nat>))
    requires c.Valid()
    ensures r.0.Valid()
    decreases |widths|
  {
    if widths == [] then (c, [])
    else
      var (c1, v) := LookupBytes(c, widths[0]);
      var (c2, vs) := LookupAll(c1, widths[1..]);
      (c2, [v] + vs)
  }

  lemma {:induction false} FaultSticksAll(c: Cpu, widths: seq<Width>)
    requires c.Valid() && c.mmu.pending.Some?
    ensures SameFault(c, FetchAll(c, widths).0) && SameFault(c, LookupAll(c, widths).0)
    decreases |widths|
  {
    hide FetchBytes, LookupBytes, FetchW;
    if widths != [] {
      FetchWIsBytes(c, widths[0]);
      FaultSticks(c, widths[0]);
      FaultSticksAll(FetchW(c, widths[0]).0, widths[1..]);
      FaultSticksAll(LookupBytes(c, widths[0]).0, widths[1..]);
    }
  }

  /** Fetch-cursor refinement: any mix of 8-, 16-, 32- and 64-bit fetches returns
      the values that byte-by-byte translation assembles, or the fault it raises
      first, error code and CR2 included. */
  lemma {:induction false} FetchRefines(c: Cpu, d: Cpu, widths: seq<Width>)
    requires CursorInv(c) && SameStream(c, d) && c.mmu.pending.None?
    ensures var (c', vs), (d', ws) := FetchAll(c, widths), LookupAll(d, widths);
            && SameFault(c', d')
            && (c'.mmu.pending.None? ==> vs == ws && CursorInv(c') && SameStream(c', d'))
    decreases |widths|
  {
    hide FetchBytes, LookupBytes, FetchW, Agrees, IpLinear, Fetchable, PhysOf;
    if widths != [] {
      FetchWIsBytes(c, widths[0]);
      StreamRefines(c, d, widths[0]);
      var c1, d1 := FetchW(c, widths[0]).0, LookupBytes(d, widths[0]).0;
      if c1.mmu.pending.None? {
        FetchRefines(c1, d1, widths[1..]);
      } else {
        FaultSticksAll(c1, widths[1..]);
        FaultSticksAll(d1, widths[1..]);
      }
    }
  }
}
