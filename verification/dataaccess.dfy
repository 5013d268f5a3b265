/** Accesses seen from the data: what translation leaves alone, and wide accesses
    to bytes that are data. */
module DataAccess {
  import opened Words
  import opened Memory
  import opened Paging
  import opened PageTables
  import opened Mmu
  import opened TlbRefinement
  import opened AddressSpace
  import opened Operands
  import opened SplitAccess

  // ---- Translation while a fault is already pending ----

  /** A pending fault suppresses new ones and changes nothing else about an access. */
  lemma PendingPassesThrough(s: State, linear: u64, write: bool)
    requires s.Valid() && s.pending.Some?
    ensures var (s', p), (t', q) := Access(s, linear, write, false), Access(s.(pending := None), linear, write, false);
            p == q && s' == t'.(pending := s.pending, cr2 := s.cr2)
  {
    hide Canonical, Hit, Miss;
    PendingHit(s, linear, write);
    PendingMiss(s, linear, write);
    var t := s.(pending := None);
    if LongMode(s) && !Canonical(linear) {
      assert RaiseGp(s, 0) == RaiseGp(t, 0).(pending := s.pending, cr2 := s.cr2);
    } else if Pg(s) {
      var e := s.tlb[TlbIndex(linear)];
      if e.valid && e.vpage == linear / 0x1000 && !s.noTlb {
        assert Access(s, linear, write, false) == Hit(s, linear, write, false);
        assert Access(t, linear, write, false) == Hit(t, linear, write, false);
      } else {
        assert Access(s, linear, write, false) == Miss(s, linear, write, false);
        assert Access(t, linear, write, false) == Miss(t, linear, write, false);
      }
    }
  }

  lemma PendingHit(s: State, linear: u64, write: bool)
    requires s.Valid() && s.pending.Some?
    ensures var (s', p), (t', q) := Hit(s, linear, write, false), Hit(s.(pending := None), linear, write, false);
            p == q && s' == t'.(pending := s.pending, cr2 := s.cr2)
  {
    hide TlbIndex, TranslateMode, SetAccessedBits, Permits, FaultCode, Cpl, Ram.Valid;
    assert Walk(s.(pending := None), linear) == Walk(s, linear);
  }

  lemma PendingMiss(s: State, linear: u64, write: bool)
    requires s.Valid() && s.pending.Some?
    ensures var (s', p), (t', q) := Miss(s, linear, write, false), Miss(s.(pending := None), linear, write, false);
            p == q && s' == t'.(pending := s.pending, cr2 := s.cr2)
  {
    hide TlbIndex, TranslateMode, SetAccessedBits, Permits, FaultCode, Cpl, Fill, Ram.Valid, WellFormed;
    assert Walk(s.(pending := None), linear) == Walk(s, linear);
    if Walk(s, linear).None? {
      assert Miss(s, linear, write, false) == (s, UNBACKED);
    }
  }

  lemma InvIgnoresPending(s: State, s': State)
    requires Inv(s) && s' == s.(pending := s'.pending, cr2 := s'.cr2)
    ensures Inv(s')
  {
    FaultKeepsInv(s, s');
  }

  lemma SeparateIgnoresPending(s: State, s': State, D: iset<nat>)
    requires s.Valid() && Separate(s, D) && s' == s.(pending := s'.pending, cr2 := s'.cr2)
    ensures s'.Valid() && Separate(s', D)
  {
    hide Entries, InEntry;
    forall linear: u64, i, x: nat
      | 0 <= i < |Tables(s', linear)| && InEntry(Tables(s', linear)[i], Width(Mode(s')), x)
      ensures x !in D
    {
      assert Tables(s', linear) == Tables(s, linear);
    }
  }

  /** Whatever is pending, an access only translates: data and invariants stay. */
  lemma AnyAccess(s: State, linear: u64, write: bool, D: iset<nat>)
    requires Inv(s) && Separate(s, D)
    ensures var s' := Access(s, linear, write, false).0;
            && Inv(s') && Translated(s, s') && Separate(s', D) && SameInside(s.mem, s'.mem, D)
  {
    hide Access, Agrees, Separate, MoreMarked;
    if s.pending.None? {
      AccessOutcome(s, linear, write, false);
      AccessKeepsData(s, linear, write, false, D);
    } else {
      var t := s.(pending := None);
      PendingPassesThrough(s, linear, write);
      InvIgnoresPending(s, t);
      SeparateIgnoresPending(s, t, D);
      AccessOutcome(t, linear, write, false);
      AccessKeepsData(t, linear, write, false, D);
      var s', t' := Access(s, linear, write, false).0, Access(t, linear, write, false).0;
      InvIgnoresPending(t', s');
      SeparateIgnoresPending(t', s', D);
    }
  }

  // ---- Data that agrees is read and written alike ----

  /** `n` consecutive bytes that a wide access takes together, all of them data. */
  ghost predicate DataAt(mem: Ram, a: nat, n: Size, D: iset<nat>)
    requires mem.Valid()
  {
    Whole(mem, a, n) && forall b :: a <= b < a + n ==> b in D
  }

  lemma DataAtStays(mem: Ram, mem': Ram, a: nat, n: Size, D: iset<nat>)
    requires mem.Valid() && mem'.Valid() && |mem'.data| == |mem.data|
    ensures DataAt(mem', a, n, D) == DataAt(mem, a, n, D)
  {
  }

  lemma SameDataRead(mem: Ram, mem': Ram, a: nat, n: Size, D: iset<nat>)
    requires mem.Valid() && SameInside(mem, mem', D) && DataAt(mem, a, n, D)
    ensures ReadSize(mem', a, n) == ReadSize(mem, a, n)
  {
    hide ReadSize, ReadAt;
    WholeIsRun(mem, a, n, 0);
    WholeIsRun(mem', a, n, 0);
    SameBytesReadAt(mem, mem', Run(a, n));
  }

  lemma {:induction false} SameWriteAt(mem: Ram, mem': Ram, addrs: seq<nat>, v: nat, D: iset<nat>)
    requires mem.Valid() && SameInside(mem, mem', D)
    ensures SameInside(WriteAt(mem, addrs, v), WriteAt(mem', addrs, v), D)
    decreases |addrs|
  {
    if addrs != [] {
      var m1, m1' := WriteU8(mem, addrs[0], v % 256), WriteU8(mem', addrs[0], v % 256);
      assert mem'.lowSize == mem.lowSize;
      assert SameInside(m1, m1', D);
      SameWriteAt(m1, m1', addrs[1..], v / 256, D);
    }
  }

  lemma SameDataWrite(mem: Ram, mem': Ram, a: nat, n: Size, v: u64, D: iset<nat>)
    requires mem.Valid() && SameInside(mem, mem', D) && DataAt(mem, a, n, D)
    ensures SameInside(WriteSize(mem, a, n, v), WriteSize(mem', a, n, v), D)
    ensures SameOutside(mem', WriteSize(mem', a, n, v), D)
  {
    hide WriteSize, WriteAt;
    WholeIsRun(mem, a, n, v);
    WholeIsRun(mem', a, n, v);
    SameWriteAt(mem, mem', Run(a, n), v, D);
    WriteAtOutside(mem', Run(a, n), v, D);
  }

  lemma SameInsideTransitive(m0: Ram, m1: Ram, m2: Ram, D: iset<nat>)
    requires m0.Valid() && SameInside(m0, m1, D) && SameInside(m1, m2, D)
    ensures SameInside(m0, m2, D)
  {
  }
}
