/** The TLB is invisible: a machine that caches translations and one that walks
    the tables on every access go through the same states. */
module TlbRefinement {
  import opened Words
  import opened Memory
  import opened Paging
  import opened WalkStability
  import opened PageUniform
  import opened Mmu

  // ---- The cache invariant ----

  /** A live entry says what a walk of its page would say now; every entry of
      that walk is marked accessed, and the leaf dirty if `dirtied` claims so. */
  ghost predicate Agrees(s: State, e: TlbEntry)
    requires s.Valid()
  {
    e.valid ==>
      && Pg(s)
      && var t := Walk(s, e.vpage * 0x1000);
      && t.Some?
      && t.value.phys == e.ppage * 0x1000
      && t.value.writable == e.writable && t.value.user == e.user && t.value.exec == e.exec
      && Marked(s.mem, t.value, e.dirtied)
  }

  ghost predicate Inv(s: State) {
    && s.Valid()
    && forall i :: 0 <= i < TLB_SIZE ==> Agrees(s, s.tlb[i])
  }

  /** The two machines are equal but for the TLB, which the second ignores. */
  predicate SameButTlb(s: State, t: State) {
    t.noTlb && t == s.(tlb := t.tlb, noTlb := true)
  }

  // ---- Marking preserves the invariant ----

  lemma MarkedStays(mem: Ram, mem': Ram, mp: Mapping, write: bool)
    requires mem.Valid() && WellFormed(mp) && MoreMarked(mem, mem', mp.entryBytes)
    requires Marked(mem, mp, write)
    ensures Marked(mem', mp, write)
  {
    hide ReadU8, Accessed, Dirty, SameEntry, EntryStart;
    forall i | 0 <= i < |mp.walk|
      ensures Accessed(ReadU8(mem', mp.walk[i]))
      ensures Dirty(ReadU8(mem, mp.walk[i])) ==> Dirty(ReadU8(mem', mp.walk[i]))
    {
      assert MarkedByte(ReadU8(mem, mp.walk[i]), ReadU8(mem', mp.walk[i]), EntryStart(mp.walk[i], mp.entryBytes));
    }
  }

  lemma AgreesStays(s: State, s': State, e: TlbEntry)
    requires s.Valid() && s'.Valid() && s' == s.(mem := s'.mem, tlb := s'.tlb)
    requires Pg(s) ==> MoreMarked(s.mem, s'.mem, Width(Mode(s)))
    requires Agrees(s, e)
    ensures Agrees(s', e)
  {
    hide TranslateMode;
    if e.valid {
      var b := e.vpage * 0x1000;
      TranslateStable(s.mem, s'.mem, Width(Mode(s)), s.cr3, b, Mode(s), s.efer.nxe);
      WalkAligned(s.mem, s.cr3, b, Mode(s), s.efer.nxe);
      MarkedStays(s.mem, s'.mem, Walk(s, b).value, e.dirtied);
    }
  }

  /** Replacing one entry by one that agrees, while marking, keeps the invariant. */
  lemma InvStays(s: State, s': State, i: nat)
    requires Inv(s) && s'.Valid() && i < TLB_SIZE && s' == s.(mem := s'.mem, tlb := s.tlb[i := s'.tlb[i]])
    requires Pg(s) && MoreMarked(s.mem, s'.mem, Width(Mode(s)))
    requires Agrees(s', s'.tlb[i])
    ensures Inv(s')
  {
    hide Agrees, MoreMarked;
    forall k | 0 <= k < TLB_SIZE
      ensures Agrees(s', s'.tlb[k])
    {
      if k != i {
        AgreesStays(s, s', s.tlb[k]);
      }
    }
  }

  lemma MarkedIsReflexive(mem: Ram, n: nat)
    requires mem.Valid()
    ensures MoreMarked(mem, mem, n)
  {
  }

  // ---- One access ----

  /** Facts about the walk behind an access with paging on. */
  lemma WalkFacts(s: State, linear: u64, write: bool)
    requires s.Valid() && Pg(s) && Walk(s, linear).Some?
    ensures var mp := Walk(s, linear).value;
            && WellFormed(mp) && mp.entryBytes == Width(Mode(s))
            && var mem' := SetAccessedBits(s.mem, mp, write);
            && MoreMarked(s.mem, mem', Width(Mode(s)))
            && Marked(mem', mp, write)
            && (Marked(s.mem, mp, write) ==> mem' == s.mem)
            && Walk(s.(mem := mem'), linear) == Walk(s, linear)
            && Walk(s.(mem := mem'), PageOf(linear)) == Walk(s, PageOf(linear))
  {
    hide TranslateMode, MoreMarked, Marked, SetAccessedBits;
    WalkAligned(s.mem, s.cr3, linear, Mode(s), s.efer.nxe);
    var mp := Walk(s, linear).value;
    SetAccessedMarks(s.mem, mp, write);
    var mem' := SetAccessedBits(s.mem, mp, write);
    TranslateStable(s.mem, mem', Width(Mode(s)), s.cr3, linear, Mode(s), s.efer.nxe);
    TranslateStable(s.mem, mem', Width(Mode(s)), s.cr3, PageOf(linear), Mode(s), s.efer.nxe);
  }

  /** A filled entry agrees with the walk that filled it. */
  lemma FillAgrees(s: State, linear: u64, write: bool)
    requires s.Valid() && Pg(s) && Walk(s, linear).Some?
    ensures WellFormed(Walk(s, linear).value)
    ensures Agrees(s.(mem := SetAccessedBits(s.mem, Walk(s, linear).value, write)),
                   Fill(Walk(s, linear).value, linear, write))
  {
    hide TranslateMode, MoreMarked, Marked, SetAccessedBits, WellFormed;
    WalkFacts(s, linear, write);
    OffsetRidesAlong(s.mem, s.cr3, linear, Mode(s), s.efer.nxe);
    var mp, base := Walk(s, linear).value, Walk(s, PageOf(linear)).value;
    PageOfSum(base.phys, linear % 0x1000);
    var mem' := SetAccessedBits(s.mem, mp, write);
    SameMarks(mem', mp, base, write);
  }

  lemma PageOfSum(base: u64, offset: nat)
    requires base % 0x1000 == 0 && offset < 0x1000
    ensures (base + offset) / 0x1000 * 0x1000 == base
  {
  }

  /** `Marked` looks at the walk of a mapping only. */
  lemma SameMarks(mem: Ram, mp: Mapping, mp': Mapping, write: bool)
    requires mem.Valid() && mp.walk == mp'.walk
    ensures Marked(mem, mp, write) == Marked(mem, mp', write)
  {
  }

  /** What a live entry of the page of `linear` says about `linear` itself. */
  lemma HitMeansWalk(s: State, linear: u64, e: TlbEntry)
    requires s.Valid() && Agrees(s, e) && e.valid && e.vpage == linear / 0x1000
    ensures Walk(s, linear).Some?
    ensures var mp := Walk(s, linear).value;
            && mp.phys == e.ppage * 0x1000 + linear % 0x1000
            && mp.writable == e.writable && mp.user == e.user && mp.exec == e.exec
            && Marked(s.mem, mp, e.dirtied)
  {
    hide TranslateMode, Marked;
    OffsetRidesAlong(s.mem, s.cr3, linear, Mode(s), s.efer.nxe);
    assert e.vpage * 0x1000 == PageOf(linear);
    SameMarks(s.mem, Walk(s, linear).value, Walk(s, PageOf(linear)).value, e.dirtied);
  }

  lemma WeakerMark(mem: Ram, mp: Mapping, write: bool)
    requires mem.Valid() && Marked(mem, mp, true)
    ensures Marked(mem, mp, write)
  {
  }

  /** Recording a fault touches nothing translation depends on. */
  lemma FaultKeepsInv(s: State, s': State)
    requires Inv(s) && s' == s.(cr2 := s'.cr2, pending := s'.pending)
    ensures Inv(s')
  {
    hide TranslateMode;
    forall i | 0 <= i < TLB_SIZE
      ensures Agrees(s', s'.tlb[i])
    {
      assert Agrees(s, s.tlb[i]);
    }
  }

  lemma PageFaultRefines(s: State, t: State, linear: u64, present: bool, write: bool, fetch: bool)
    requires SameButTlb(s, t)
    ensures SameButTlb(RaisePageFault(s, linear, present, write, fetch),
                       RaisePageFault(t, linear, present, write, fetch))
    ensures Inv(s) ==> Inv(RaisePageFault(s, linear, present, write, fetch))
  {
    hide FaultCode, Cpl, Inv;
    if Inv(s) {
      FaultKeepsInv(s, RaisePageFault(s, linear, present, write, fetch));
    }
  }

  lemma AgreesIgnoresTlb(s: State, s': State, e: TlbEntry)
    requires s.Valid() && s'.Valid() && s' == s.(tlb := s'.tlb)
    ensures Agrees(s', e) == Agrees(s, e)
  {
  }

  /** A miss that translates fills one entry and marks the walk. */
  lemma FillKeepsInv(s: State, linear: u64, write: bool)
    requires Inv(s) && Pg(s) && Walk(s, linear).Some?
    ensures WellFormed(Walk(s, linear).value)
    ensures var mp := Walk(s, linear).value;
            Inv(s.(tlb := s.tlb[TlbIndex(linear) := Fill(mp, linear, write)],
                   mem := SetAccessedBits(s.mem, mp, write)))
  {
    hide TranslateMode, MoreMarked, SetAccessedBits, Marked, TlbIndex, Agrees, Ram.Valid, Fill, WellFormed;
    WalkFacts(s, linear, write);
    FillAgrees(s, linear, write);
    var mp := Walk(s, linear).value;
    var s0 := s.(mem := SetAccessedBits(s.mem, mp, write));
    var s1 := s0.(tlb := s.tlb[TlbIndex(linear) := Fill(mp, linear, write)]);
    AgreesIgnoresTlb(s0, s1, Fill(mp, linear, write));
    InvStays(s, s1, TlbIndex(linear));
  }

  /** Both machines walk: the same answer, and the invariant again. */
  lemma MissRefines(s: State, t: State, linear: u64, write: bool, fetch: bool)
    requires Inv(s) && Pg(s) && t.Valid() && SameButTlb(s, t)
    ensures var (s1, p), (t1, q) := Miss(s, linear, write, fetch), Miss(t, linear, write, fetch);
            p == q && SameButTlb(s1, t1) && Inv(s1)
  {
    hide TranslateMode, SetAccessedBits, TlbIndex, WellFormed, Permits, Agrees, RaisePageFault, Fill, Ram.Valid;
    assert Walk(t, linear) == Walk(s, linear);
    PageFaultRefines(s, t, linear, true, write, fetch);
    PageFaultRefines(s, t, linear, false, write, fetch);
    if Walk(s, linear).Some? {
      FillKeepsInv(s, linear, write);
    }
  }

  /** The first store through a clean entry: the cached machine marks the walk
      dirty and remembers having done so. */
  lemma FirstStore(s: State, linear: u64)
    requires Inv(s) && Pg(s)
    requires var e := s.tlb[TlbIndex(linear)]; e.valid && e.vpage == linear / 0x1000
    ensures var e := s.tlb[TlbIndex(linear)];
            Inv(MarkAccessed(s, linear, true).(tlb := s.tlb[TlbIndex(linear) := e.(dirtied := true)]))
  {
    hide TranslateMode, MoreMarked, SetAccessedBits, Marked, TlbIndex, WellFormed, Ram.Valid;
    var i := TlbIndex(linear);
    var e := s.tlb[i];
    assert Agrees(s, e);
    HitMeansWalk(s, linear, e);
    WalkFacts(s, linear, true);
    var b := PageOf(linear);
    assert e.vpage * 0x1000 == b;
    OffsetRidesAlong(s.mem, s.cr3, linear, Mode(s), s.efer.nxe);
    var s1 := MarkAccessed(s, linear, true).(tlb := s.tlb[i := e.(dirtied := true)]);
    SameMarks(s1.mem, Walk(s, linear).value, Walk(s, b).value, true);
    InvStays(s, s1, i);
  }

  /** What the walking machine does where the cached one hits. */
  lemma HitMarks(s: State, linear: u64, write: bool)
    requires Inv(s) && Pg(s)
    requires var e := s.tlb[TlbIndex(linear)]; e.valid && e.vpage == linear / 0x1000
    ensures Walk(s, linear).Some? && WellFormed(Walk(s, linear).value)
    ensures var e, mp := s.tlb[TlbIndex(linear)], Walk(s, linear).value;
            && mp.phys == e.ppage * 0x1000 + linear % 0x1000
            && mp.writable == e.writable && mp.user == e.user && mp.exec == e.exec
            && SetAccessedBits(s.mem, mp, write)
               == if write && !e.dirtied then MarkAccessed(s, linear, true).mem else s.mem
  {
    hide TranslateMode, MoreMarked, SetAccessedBits, Marked, TlbIndex, WellFormed, Ram.Valid;
    var e := s.tlb[TlbIndex(linear)];
    assert Agrees(s, e);
    HitMeansWalk(s, linear, e);
    WalkFacts(s, linear, write);
    if e.dirtied {
      WeakerMark(s.mem, Walk(s, linear).value, write);
    }
  }

  /** On a TLB hit the two machines answer alike and end alike. */
  lemma HitRefines(s: State, t: State, linear: u64, write: bool, fetch: bool)
    requires Inv(s) && t.Valid() && SameButTlb(s, t) && Pg(s)
    requires s.tlb[TlbIndex(linear)].valid && s.tlb[TlbIndex(linear)].vpage == linear / 0x1000
    ensures var (s1, p), (t1, q) := Hit(s, linear, write, fetch), Miss(t, linear, write, fetch);
            p == q && SameButTlb(s1, t1) && Inv(s1)
  {
    hide TranslateMode, SetAccessedBits, TlbIndex, WellFormed, Permits, RaisePageFault, Ram.Valid, Agrees, Fill,
      MarkAccessed, Cpl;
    HitMarks(s, linear, write);
    assert Walk(t, linear) == Walk(s, linear);
    var e := s.tlb[TlbIndex(linear)];
    if !Allowed(s, e.writable, e.user, e.exec, write, fetch) {
      PageFaultRefines(s, t, linear, true, write, fetch);
    } else if write && !e.dirtied {
      FirstStore(s, linear);
    }
  }

  /** One access, cached or not: the same physical address, the same pending
      fault, error code and CR2, the same memory -- and the invariant again. */
  lemma AccessRefines(s: State, t: State, linear: u64, write: bool, fetch: bool)
    requires Inv(s) && t.Valid() && SameButTlb(s, t)
    ensures var (s1, p), (t1, q) := Access(s, linear, write, fetch), Access(t, linear, write, fetch);
            p == q && SameButTlb(s1, t1) && Inv(s1)
  {
    hide Canonical, Hit, Miss, TlbIndex, Agrees;
    var e := s.tlb[TlbIndex(linear)];
    if LongMode(s) && !Canonical(linear) {
      FaultKeepsInv(s, RaiseGp(s, 0));
    } else if Pg(s) {
      if e.valid && e.vpage == linear / 0x1000 && !s.noTlb {
        HitRefines(s, t, linear, write, fetch);
      } else {
        MissRefines(s, t, linear, write, fetch);
      }
    }
  }

  /** Translation does not change the paging mode or the privilege level. */
  lemma AccessKeepsMode(s: State, linear: u64, write: bool, fetch: bool)
    requires s.Valid()
    ensures var s' := Access(s, linear, write, fetch).0; s'.efer == s.efer && s'.pe == s.pe && s'.cs == s.cs
  {
    hide TranslateMode, SetAccessedBits, Canonical, TlbIndex, Permits, Ram.Valid, WellFormed, FaultCode, Cpl;
    var e := s.tlb[TlbIndex(linear)];
    if LongMode(s) && !Canonical(linear) {
    } else if Pg(s) {
      if e.valid && e.vpage == linear / 0x1000 && !s.noTlb {
        HitKeepsMode(s, linear, write, fetch);
      } else {
        MissKeepsMode(s, linear, write, fetch);
      }
    }
  }

  lemma HitKeepsMode(s: State, linear: u64, write: bool, fetch: bool)
    requires s.Valid()
    ensures var s' := Hit(s, linear, write, fetch).0; s'.efer == s.efer && s'.pe == s.pe && s'.cs == s.cs
  {
    hide TranslateMode, SetAccessedBits, TlbIndex, Permits, Ram.Valid, WellFormed, FaultCode, Cpl;
  }

  lemma MissKeepsMode(s: State, linear: u64, write: bool, fetch: bool)
    requires s.Valid()
    ensures var s' := Miss(s, linear, write, fetch).0; s'.efer == s.efer && s'.pe == s.pe && s'.cs == s.cs
  {
    hide TranslateMode, SetAccessedBits, TlbIndex, Permits, Ram.Valid, WellFormed, FaultCode, Cpl;
  }
}
