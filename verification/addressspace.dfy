/** What one translation does to the machine, and to the data behind it. */
module AddressSpace {
  import opened Words
  import opened Memory
  import opened Paging
  import opened WalkStability
  import opened PageTables
  import opened Mmu
  import opened TlbRefinement

  function Tables(s: State, linear: u64): seq<u64>
    requires s.Valid()
  {
    Entries(s.mem, s.cr3, linear, Mode(s))
  }

  predicate InEntry(a: nat, n: nat, x: nat) { a <= x < a + n }

  /** `D` is a region of data: no walk, of any linear address, reads a byte of it. */
  ghost predicate Separate(s: State, D: iset<nat>)
    requires s.Valid()
  {
    forall linear: u64, i, x: nat ::
      0 <= i < |Tables(s, linear)| && InEntry(Tables(s, linear)[i], Width(Mode(s)), x) ==> x !in D
  }

  ghost predicate SameInside(mem: Ram, mem': Ram, D: iset<nat>)
    requires mem.Valid()
  {
    && mem'.Valid() && |mem'.data| == |mem.data|
    && forall a: nat :: a in D ==> ReadU8(mem', a) == ReadU8(mem, a)
  }

  ghost predicate SameOutside(mem: Ram, mem': Ram, D: iset<nat>)
    requires mem.Valid()
  {
    && mem'.Valid() && |mem'.data| == |mem.data|
    && forall a: nat :: a !in D ==> ReadU8(mem', a) == ReadU8(mem, a)
  }

  /** `s'` is `s` after some translations: entries marked, the TLB changed, at
      most one fault recorded. */
  ghost predicate Translated(s: State, s': State)
    requires s.Valid()
  {
    && s' == s.(mem := s'.mem, tlb := s'.tlb, cr2 := s'.cr2, pending := s'.pending)
    && s'.Valid()
    && (if Pg(s) then MoreMarked(s.mem, s'.mem, Width(Mode(s))) else s'.mem == s.mem)
    && (s.pending.Some? ==> s'.pending == s.pending && s'.cr2 == s.cr2)
  }

  // ---- Marking stays inside the tables ----

  lemma MarksOutside(s: State, linear: u64, write: bool, D: iset<nat>)
    requires s.Valid() && Pg(s) && Walk(s, linear).Some? && Separate(s, D)
    ensures WellFormed(Walk(s, linear).value)
    ensures SameInside(s.mem, SetAccessedBits(s.mem, Walk(s, linear).value, write), D)
  {
    hide TranslateMode, MarkWalk, Entries, EntryStart;
    WalkAligned(s.mem, s.cr3, linear, Mode(s), s.efer.nxe);
    WalkIsEntries(s.mem, s.cr3, linear, Mode(s), s.efer.nxe);
    var mp := Walk(s, linear).value;
    forall a: nat | a in D
      ensures ReadU8(SetAccessedBits(s.mem, mp, write), a) == ReadU8(s.mem, a)
    {
      forall k | 0 <= k < |mp.walk|
        ensures mp.walk[k] != a
      {
        assert InEntry(Tables(s, linear)[k], Width(Mode(s)), mp.walk[k]);
      }
      MarkWalkFrame(s.mem, mp.walk, mp.entryBytes, write, 0, a);
    }
  }

  // ---- Chaining translations ----

  lemma TranslatedTransitive(s: State, s1: State, s2: State)
    requires s.Valid() && Translated(s, s1) && Translated(s1, s2)
    ensures Translated(s, s2)
  {
    hide MoreMarked;
    if Pg(s) { MoreMarkedTransitive(s.mem, s1.mem, s2.mem, Width(Mode(s))); }
  }

  /** No translation changes what any walk finds or reads. */
  lemma WalksStay(s: State, s': State, linear: u64)
    requires s.Valid() && Translated(s, s')
    ensures Walk(s', linear) == Walk(s, linear) && Tables(s', linear) == Tables(s, linear)
  {
    hide MoreMarked, TranslateMode, Entries;
    if Pg(s) {
      TranslateStable(s.mem, s'.mem, Width(Mode(s)), s.cr3, linear, Mode(s), s.efer.nxe);
    }
  }

  lemma TranslatedWalks(s: State, s': State)
    requires s.Valid() && Translated(s, s')
    ensures s'.Valid() && forall l: u64 :: Walk(s', l) == Walk(s, l)
    ensures s'.efer == s.efer && s'.pe == s.pe && s'.cs == s.cs && |s'.mem.data| == |s.mem.data|
    ensures s'.mem.lowSize == s.mem.lowSize
  {
    assert s'.Valid() && s'.efer == s.efer && |s'.mem.data| == |s.mem.data|;
    hide Walk, Translated;
    forall l: u64 ensures Walk(s', l) == Walk(s, l) { WalksStay(s, s', l); }
  }

  lemma SeparateStays(s: State, s': State, D: iset<nat>)
    requires s.Valid() && Translated(s, s') && Separate(s, D)
    ensures Separate(s', D)
  {
    hide Translated, Tables, InEntry, Mode;
    assert Mode(s') == Mode(s) by { SameMode(s, s'); }
    assert s'.Valid() by { SameMode(s, s'); }
    forall linear: u64, i, x: nat
      | 0 <= i < |Tables(s', linear)| && InEntry(Tables(s', linear)[i], Width(Mode(s')), x)
      ensures x !in D
    {
      WalksStay(s, s', linear);
    }
  }

  lemma SameMode(s: State, s': State)
    requires s.Valid() && Translated(s, s')
    ensures s'.Valid() && Mode(s') == Mode(s) && Pg(s') == Pg(s) && |s'.mem.data| == |s.mem.data|
  {
  }

  // ---- One access ----

  /** Exactly when an access succeeds: the address is canonical, every entry of
      its walk is present, and the mapping permits the access. */
  predicate Reachable(s: State, linear: u64, write: bool, fetch: bool)
    requires s.Valid()
  {
    && (s.efer.lma ==> Canonical(linear))
    && Walk(s, linear).Some?
    && (Pg(s) ==> var mp := Walk(s, linear).value;
                  Allowed(s, mp.writable, mp.user, mp.exec, write, fetch))
  }

  /** The outcome of an access from a state with no fault pending: the physical
      address the tables give and the walk marked, or a fault and nothing else. */
  ghost predicate Outcome(s: State, linear: u64, write: bool, fetch: bool, s': State, phys: u64)
    requires s.Valid()
  {
    && Translated(s, s')
    && (s'.pending.None? <==> Reachable(s, linear, write, fetch))
    && (s'.pending.None? ==>
          && phys == Walk(s, linear).value.phys
          && s'.cr2 == s.cr2
          && (Pg(s) ==> Marked(s'.mem, Walk(s, linear).value, write)))
    && (s'.pending.Some? ==> phys == UNBACKED && s' == s.(cr2 := s'.cr2, pending := s'.pending))
  }

  lemma PageFaultOutcome(s: State, linear: u64, present: bool, write: bool, fetch: bool)
    requires s.Valid() && s.pending.None? && !Reachable(s, linear, write, fetch)
    ensures Outcome(s, linear, write, fetch, RaisePageFault(s, linear, present, write, fetch), UNBACKED)
  {
    hide MoreMarked, FaultCode, Cpl;
    if Pg(s) { MarkedIsReflexive(s.mem, Width(Mode(s))); }
  }

  lemma MissOutcome(s: State, linear: u64, write: bool, fetch: bool)
    requires Inv(s) && s.pending.None? && Pg(s) && (s.efer.lma ==> Canonical(linear))
    ensures var (s', phys) := Miss(s, linear, write, fetch); Outcome(s, linear, write, fetch, s', phys)
  {
    hide TranslateMode, MoreMarked, SetAccessedBits, Marked, TlbIndex, Permits, Agrees, RaisePageFault,
      WellFormed, Fill, Ram.Valid, Canonical;
    if !Reachable(s, linear, write, fetch) {
      PageFaultOutcome(s, linear, true, write, fetch);
      PageFaultOutcome(s, linear, false, write, fetch);
    }
    if Walk(s, linear).Some? {
      WalkFacts(s, linear, write);
    }
  }

  lemma HitOutcome(s: State, linear: u64, write: bool, fetch: bool)
    requires Inv(s) && s.pending.None? && Pg(s) && (s.efer.lma ==> Canonical(linear))
    requires var e := s.tlb[TlbIndex(linear)]; e.valid && e.vpage == linear / 0x1000
    ensures var (s', phys) := Hit(s, linear, write, fetch); Outcome(s, linear, write, fetch, s', phys)
  {
    hide TranslateMode, MoreMarked, SetAccessedBits, Marked, TlbIndex, Permits, Agrees, RaisePageFault,
      WellFormed, Ram.Valid, Canonical, MarkAccessed, Mode, Outcome;
    HitMarks(s, linear, write);
    var e := s.tlb[TlbIndex(linear)];
    if !Allowed(s, e.writable, e.user, e.exec, write, fetch) {
      PageFaultOutcome(s, linear, true, write, fetch);
    } else if write && !e.dirtied {
      WalkFacts(s, linear, write);
      HitSucceeds(s, linear, write, fetch, Hit(s, linear, write, fetch).0);
    } else {
      WalkFacts(s, linear, write);
      HitSucceeds(s, linear, write, fetch, s);
    }
  }

  /** A permitted access of a translated address that leaves the walk marked. */
  lemma HitSucceeds(s: State, linear: u64, write: bool, fetch: bool, s': State)
    requires s.Valid() && s.pending.None? && Pg(s) && Reachable(s, linear, write, fetch)
    requires WellFormed(Walk(s, linear).value)
    requires var mp := Walk(s, linear).value;
             s' == s.(mem := SetAccessedBits(s.mem, mp, write), tlb := s'.tlb) && |s'.tlb| == TLB_SIZE
    ensures Outcome(s, linear, write, fetch, s', Walk(s, linear).value.phys)
  {
    hide TranslateMode, MoreMarked, SetAccessedBits, Marked, Permits, WellFormed, Canonical, Mode;
    WalkFacts(s, linear, write);
  }

  lemma FlatWalk(s: State, linear: u64)
    requires s.Valid() && !Pg(s)
    ensures Walk(s, linear) == Some(Mapping(linear, true, true, true, [], 0))
  {
  }

  lemma AccessOutcome(s: State, linear: u64, write: bool, fetch: bool)
    requires Inv(s) && s.pending.None?
    ensures var (s', phys) := Access(s, linear, write, fetch);
            Inv(s') && Outcome(s, linear, write, fetch, s', phys)
  {
    hide Canonical, Hit, Miss, TlbIndex, Agrees, MoreMarked, Permits, Marked, TranslateMode;
    var t := s.(noTlb := true);
    AccessRefines(s, t, linear, write, fetch);
    if LongMode(s) && !Canonical(linear) {
      if Pg(s) { MarkedIsReflexive(s.mem, Width(Mode(s))); }
    } else if Pg(s) {
      var e := s.tlb[TlbIndex(linear)];
      if e.valid && e.vpage == linear / 0x1000 && !s.noTlb {
        HitOutcome(s, linear, write, fetch);
      } else {
        MissOutcome(s, linear, write, fetch);
      }
    } else {
      FlatWalk(s, linear);
    }
  }

  /** ... and the bytes of a data region do not change. */
  lemma AccessKeepsData(s: State, linear: u64, write: bool, fetch: bool, D: iset<nat>)
    requires Inv(s) && s.pending.None? && Separate(s, D)
    ensures var (s', _) := Access(s, linear, write, fetch);
            SameInside(s.mem, s'.mem, D) && Separate(s', D)
  {
    AccessOutcome(s, linear, write, fetch);
    var s' := Access(s, linear, write, fetch).0;
    SeparateStays(s, s', D);
    hide Canonical, TlbIndex, Agrees, MoreMarked, Permits, Marked, Separate, TranslateMode, SetAccessedBits,
      RaisePageFault, FaultCode;
    if s'.mem != s.mem {
      assert Pg(s) && s'.pending.None? && Walk(s, linear).Some?;
      MarksOutside(s, linear, write, D);
      MarksOutside(s, linear, true, D);
    }
  }

  // ---- Stores to data ----

  lemma StoreKeepsWalk(s: State, mem': Ram, D: iset<nat>, linear: u64)
    requires s.Valid() && Separate(s, D) && SameOutside(s.mem, mem', D)
    ensures var s' := s.(mem := mem'); Walk(s', linear) == Walk(s, linear) && Tables(s', linear) == Tables(s, linear)
  {
    hide TranslateMode, Entries;
    var es, w := Tables(s, linear), Width(Mode(s));
    forall i, k | 0 <= i < |es| && es[i] <= k < es[i] + w
      ensures ReadU8(mem', k) == ReadU8(s.mem, k)
    {
      assert InEntry(es[i], w, k);
    }
    WalkFrame(s.mem, mem', s.cr3, linear, Mode(s), s.efer.nxe);
  }

  lemma StoreKeepsMarks(s: State, mem': Ram, D: iset<nat>, linear: u64, write: bool)
    requires s.Valid() && Separate(s, D) && SameOutside(s.mem, mem', D)
    requires Walk(s, linear).Some? && Marked(s.mem, Walk(s, linear).value, write)
    ensures Marked(mem', Walk(s, linear).value, write)
  {
    hide TranslateMode, Entries, Accessed, Dirty, EntryStart, Mode;
    WalkIsEntries(s.mem, s.cr3, linear, Mode(s), s.efer.nxe);
    WalkAligned(s.mem, s.cr3, linear, Mode(s), s.efer.nxe);
    var mp := Walk(s, linear).value;
    forall i | 0 <= i < |mp.walk|
      ensures ReadU8(mem', mp.walk[i]) == ReadU8(s.mem, mp.walk[i])
    {
      assert InEntry(Tables(s, linear)[i], Width(Mode(s)), mp.walk[i]) by { ModeWidth(s); }
    }
  }

  /** A store to data changes no translation and keeps the cache invariant. */
  lemma DataStore(s: State, mem': Ram, D: iset<nat>)
    requires Inv(s) && Separate(s, D) && SameOutside(s.mem, mem', D)
    ensures var s' := s.(mem := mem');
            && Inv(s') && Separate(s', D)
            && forall linear: u64 :: Walk(s', linear) == Walk(s, linear)
  {
    var s' := s.(mem := mem');
    assert Separate(s', D) by {
      hide Tables, InEntry;
      forall linear: u64, i, x: nat
        | 0 <= i < |Tables(s', linear)| && InEntry(Tables(s', linear)[i], Width(Mode(s')), x)
        ensures x !in D
      {
        StoreKeepsWalk(s, mem', D, linear);
      }
    }
    forall linear: u64
      ensures Walk(s', linear) == Walk(s, linear)
    {
      StoreKeepsWalk(s, mem', D, linear);
    }
    hide TranslateMode, Separate, SameOutside, Marked;
    forall i | 0 <= i < TLB_SIZE
      ensures Agrees(s', s'.tlb[i])
    {
      var e := s.tlb[i];
      assert Agrees(s, e);
      if e.valid {
        StoreKeepsMarks(s, mem', D, e.vpage * 0x1000, e.dirtied);
      }
    }
  }
}
