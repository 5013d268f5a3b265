/** Guests that edit live page tables: TLB slots that have gone stale, and why
    they do no harm as long as no access hits one. */
module StaleSlots {
  import opened Words
  import opened Memory
  import opened Paging
  import opened PageTables
  import opened WalkStability
  import opened Mmu
  import opened TlbRefinement
  import opened AddressSpace
  import Division

  /** Every slot outside `stale` agrees with the tables. */
  ghost predicate InvBut(s: State, stale: set<nat>) {
    && s.Valid()
    && forall i :: 0 <= i < TLB_SIZE && i !in stale ==> Agrees(s, s.tlb[i])
  }

  /** The access would be answered from a stale slot. */
  predicate HitsStale(s: State, stale: set<nat>, linear: u64)
    requires s.Valid()
  {
    var i := TlbIndex(linear);
    i in stale && s.tlb[i].valid && s.tlb[i].vpage == linear / 0x1000
  }

  /** A slot stays stale while it is live and unchanged: INVLPG and the flushes
      end it, and so does filling the slot again. */
  function Remaining(s: State, s': State, stale: set<nat>): set<nat>
    requires s.Valid() && s'.Valid()
  {
    set i | i in stale && i < TLB_SIZE && s'.tlb[i].valid && s'.tlb[i] == s.tlb[i]
  }

  lemma RemainingTwice(s: State, s1: State, s2: State, stale: set<nat>)
    requires s.Valid() && s1.Valid() && s2.Valid()
    ensures Remaining(s1, s2, Remaining(s, s1, stale)) <= Remaining(s, s2, stale)
  {
  }

  // ---- The same machine without its stale slots ----

  /** `u` is `s` with some of the stale slots invalidated. */
  predicate Shadow(s: State, u: State, stale: set<nat>)
    requires s.Valid() && u.Valid()
  {
    && u == s.(tlb := u.tlb)
    && forall i :: 0 <= i < TLB_SIZE ==>
         u.tlb[i] == s.tlb[i] || (i in stale && s.tlb[i].valid && !u.tlb[i].valid)
  }

  function Purged(s: State, stale: set<nat>): (u: State)
    requires s.Valid()
    ensures u.Valid()
  {
    s.(tlb := seq(TLB_SIZE, i requires 0 <= i < TLB_SIZE =>
                    if i in stale then s.tlb[i].(valid := false) else s.tlb[i]))
  }

  lemma PurgedInv(s: State, stale: set<nat>)
    requires InvBut(s, stale)
    ensures Shadow(s, Purged(s, stale), stale) && Inv(Purged(s, stale))
  {
    hide Agrees, Ram.Valid;
    var u := Purged(s, stale);
    forall i | 0 <= i < TLB_SIZE
      ensures Agrees(u, u.tlb[i])
    {
      if i in stale {
        DeadAgrees(u, u.tlb[i]);
      } else {
        AgreesIgnoresTlb(s, u, s.tlb[i]);
      }
    }
  }

  lemma DeadAgrees(s: State, e: TlbEntry)
    requires s.Valid() && !e.valid
    ensures Agrees(s, e)
  {
  }

  lemma ShadowInv(s: State, u: State, stale: set<nat>)
    requires s.Valid() && u.Valid() && Shadow(s, u, stale) && Inv(u)
    ensures InvBut(s, stale)
  {
    hide Agrees, Ram.Valid;
    forall i | 0 <= i < TLB_SIZE && i !in stale
      ensures Agrees(s, s.tlb[i])
    {
      AgreesIgnoresTlb(s, u, u.tlb[i]);
    }
  }

  lemma MissShadow(s: State, u: State, stale: set<nat>, linear: u64, write: bool, fetch: bool)
    requires s.Valid() && u.Valid() && Shadow(s, u, stale)
    ensures var (s1, p), (u1, q) := Miss(s, linear, write, fetch), Miss(u, linear, write, fetch);
            p == q && Shadow(s1, u1, Remaining(s, s1, stale))
  {
    hide TranslateMode, SetAccessedBits, TlbIndex, Permits, Cpl, RaisePageFault, Fill, WellFormed, Ram.Valid, Remaining,
      Shadow;
    assert Walk(u, linear) == Walk(s, linear) by { ShadowWalks(s, u, stale, linear); }
    ShadowAllows(s, u, stale);
    if Walk(s, linear).None? {
      FaultShadow(s, u, stale, linear, false, write, fetch);
    } else {
      var mp := Walk(s, linear).value;
      WalkAligned(s.mem, s.cr3, linear, Mode(s), s.efer.nxe);
      if Allowed(s, mp.writable, mp.user, mp.exec, write, fetch) {
        SlotShadow(s, u, stale, SetAccessedBits(s.mem, mp, write), TlbIndex(linear), Fill(mp, linear, write));
      } else {
        FaultShadow(s, u, stale, linear, true, write, fetch);
      }
    }
  }

  lemma ShadowWalks(s: State, u: State, stale: set<nat>, linear: u64)
    requires s.Valid() && u.Valid() && Shadow(s, u, stale)
    ensures Walk(u, linear) == Walk(s, linear)
  {
    hide TranslateMode;
  }

  /** All that translation reads but for the TLB. */
  lemma ShadowAllows(s: State, u: State, stale: set<nat>)
    requires s.Valid() && u.Valid() && Shadow(s, u, stale)
    ensures User(u) == User(s) && u == s.(tlb := u.tlb) && Mode(u) == Mode(s)
  {
  }

  /** Both machines fill the same slot. */
  lemma SlotShadow(s: State, u: State, stale: set<nat>, mem: Ram, i: nat, e: TlbEntry)
    requires s.Valid() && u.Valid() && Shadow(s, u, stale) && mem.Valid() && i < TLB_SIZE
    ensures var s1, u1 := s.(mem := mem, tlb := s.tlb[i := e]), u.(mem := mem, tlb := u.tlb[i := e]);
            Shadow(s1, u1, Remaining(s, s1, stale))
  {
    hide Ram.Valid;
  }

  lemma SelfShadow(s: State, u: State, stale: set<nat>)
    requires s.Valid() && u.Valid() && Shadow(s, u, stale)
    ensures Shadow(s, u, Remaining(s, s, stale))
  {
    hide Ram.Valid;
  }

  lemma FaultShadow(s: State, u: State, stale: set<nat>, linear: u64, present: bool, write: bool, fetch: bool)
    requires s.Valid() && u.Valid() && Shadow(s, u, stale)
    ensures var s1 := RaisePageFault(s, linear, present, write, fetch);
            var u1 := RaisePageFault(u, linear, present, write, fetch);
            Shadow(s1, u1, Remaining(s, s1, stale))
  {
    hide Cpl, FaultCode, Ram.Valid;
  }

  lemma HitShadow(s: State, u: State, stale: set<nat>, linear: u64, write: bool, fetch: bool)
    requires s.Valid() && u.Valid() && Shadow(s, u, stale) && u.tlb[TlbIndex(linear)] == s.tlb[TlbIndex(linear)]
    ensures var (s1, p), (u1, q) := Hit(s, linear, write, fetch), Hit(u, linear, write, fetch);
            p == q && Shadow(s1, u1, Remaining(s, s1, stale))
  {
    hide TranslateMode, SetAccessedBits, TlbIndex, Permits, Cpl, RaisePageFault, WellFormed, Ram.Valid, Remaining,
      Shadow, MarkAccessed;
    var i := TlbIndex(linear);
    var e := s.tlb[i];
    ShadowAllows(s, u, stale);
    if !Allowed(s, e.writable, e.user, e.exec, write, fetch) {
      FaultShadow(s, u, stale, linear, true, write, fetch);
    } else if write && !e.dirtied {
      MarkShadow(s, u, stale, linear);
      SlotShadow(s, u, stale, MarkAccessed(s, linear, true).mem, i, e.(dirtied := true));
    } else {
      SelfShadow(s, u, stale);
    }
  }

  lemma MarkShadow(s: State, u: State, stale: set<nat>, linear: u64)
    requires s.Valid() && u.Valid() && Shadow(s, u, stale)
    ensures MarkAccessed(u, linear, true) == MarkAccessed(s, linear, true).(tlb := u.tlb)
  {
    hide TranslateMode, SetAccessedBits, Ram.Valid, WellFormed;
    ShadowWalks(s, u, stale, linear);
  }

  /** A stale slot that is not hit cannot be told from a dead one. */
  lemma AccessShadow(s: State, u: State, stale: set<nat>, linear: u64, write: bool, fetch: bool)
    requires s.Valid() && u.Valid() && Shadow(s, u, stale) && !HitsStale(s, stale, linear)
    ensures var (s1, p), (u1, q) := Access(s, linear, write, fetch), Access(u, linear, write, fetch);
            p == q && Shadow(s1, u1, Remaining(s, s1, stale))
  {
    hide Hit, Miss, TlbIndex, Canonical, Ram.Valid;
    var i := TlbIndex(linear);
    var e := s.tlb[i];
    if Pg(s) && !(LongMode(s) && !Canonical(linear)) {
      if e.valid && e.vpage == linear / 0x1000 && !s.noTlb {
        HitShadow(s, u, stale, linear, write, fetch);
      } else {
        MissShadow(s, u, stale, linear, write, fetch);
      }
    }
  }

  /** One access that hits no stale slot: the machines answer alike. */
  lemma AccessStep(s: State, t: State, stale: set<nat>, linear: u64, write: bool, fetch: bool)
    requires InvBut(s, stale) && t.Valid() && SameButTlb(s, t) && !HitsStale(s, stale, linear)
    ensures var (s1, p), (t1, q) := Access(s, linear, write, fetch), Access(t, linear, write, fetch);
            p == q && SameButTlb(s1, t1) && InvBut(s1, Remaining(s, s1, stale))
  {
    hide Access, Agrees, HitsStale, Remaining, Purged, Ram.Valid;
    PurgedInv(s, stale);
    var u := Purged(s, stale);
    AccessShadow(s, u, stale, linear, write, fetch);
    AccessRefines(u, t, linear, write, fetch);
    var s1 := Access(s, linear, write, fetch).0;
    ShadowInv(s1, Access(u, linear, write, fetch).0, Remaining(s, s1, stale));
  }

  // ---- Edits of the tables ----

  predicate MarksKept(b: u8, b': u8) { (Accessed(b) ==> Accessed(b')) && (Dirty(b) ==> Dirty(b')) }

  /** What an edit may do to the entries behind a page without its TLB entry going
      stale: keep their meaning, and clear no accessed or dirty bit. */
  ghost predicate Undisturbed(s: State, mem': Ram, linear: u64)
    requires s.Valid() && mem'.Valid()
  {
    var es := Tables(s, linear);
    && AlikeEntries(s.mem, mem', es, Width(Mode(s)))
    && forall i :: 0 <= i < |es| ==> MarksKept(ReadU8(s.mem, es[i]), ReadU8(mem', es[i]))
  }

  /** The live slots whose page an edit disturbs. */
  ghost function Disturbed(s: State, mem': Ram): set<nat>
    requires s.Valid() && mem'.Valid()
  {
    set i: nat | i < TLB_SIZE && s.tlb[i].valid && !Undisturbed(s, mem', s.tlb[i].vpage * 0x1000)
  }

  /** Stores outside the entries of a page do not disturb it ... */
  lemma UntouchedIsUndisturbed(s: State, mem': Ram, linear: u64)
    requires s.Valid() && AgreeOnEntries(s.mem, mem', Tables(s, linear), Width(Mode(s)))
    ensures mem'.Valid() && Undisturbed(s, mem', linear)
  {
    hide Entries, SameFields, ReadEntry, EntryStart, ReadU8, Accessed, Dirty;
    var es, n := Tables(s, linear), Width(Mode(s));
    EntriesAligned(s.mem, s.cr3, linear, Mode(s));
    EntriesOnlyPaged(s, linear);
    forall i | 0 <= i < |es|
      ensures SameFields(ReadEntry(s.mem, es[i], n), ReadEntry(mem', es[i], n))
      ensures ReadU8(mem', es[i]) == ReadU8(s.mem, es[i])
    {
      SameEntryRead(s.mem, mem', es[i], n);
      SameToItself(ReadEntry(s.mem, es[i], n));
    }
  }

  lemma EntriesOnlyPaged(s: State, linear: u64)
    requires s.Valid()
    ensures |Tables(s, linear)| > 0 ==> Width(Mode(s)) == 4 || Width(Mode(s)) == 8
  {
  }

  /** ... and neither does changing only the bits left to software, 11:9 of any
      entry, or those for caching, 4:3. */
  lemma SpareBitsKeepMeaning(e: u64, e': u64)
    requires e % 8 == e' % 8 && e / 0x80 % 2 == e' / 0x80 % 2 && e / 0x1000 == e' / 0x1000
    ensures SameFields(e, e')
  {
    Division.DivDiv(e, 0x1000, 0x200);
    Division.DivDiv(e', 0x1000, 0x200);
    Division.DivDiv(e, 0x1000, 0x4_0000);
    Division.DivDiv(e', 0x1000, 0x4_0000);
    Division.DivDiv(e, 0x1000, 0x400);
    Division.DivDiv(e', 0x1000, 0x400);
    Division.DivDiv(e, 0x1000, 0x8_0000_0000_0000);
    Division.DivDiv(e', 0x1000, 0x8_0000_0000_0000);
    ThreeBits(e);
    ThreeBits(e');
    hide Present, Rw, Us, Frame4K, Frame2M, Frame1G, LegacyFrame4K, LegacyFrame4M;
  }

  lemma ThreeBits(e: u64)
    ensures (Present(e) <==> e % 8 % 2 == 1) && (Rw(e) <==> e % 8 / 2 % 2 == 1) && (Us(e) <==> e % 8 / 4 % 2 == 1)
  {
    Division.BitOfField(e, 1, 4);
    Division.BitOfField(e, 2, 2);
    Division.BitOfField(e, 4, 1);
  }

  lemma UndisturbedAgrees(s: State, mem': Ram, e: TlbEntry)
    requires s.Valid() && mem'.Valid() && Agrees(s, e)
    requires e.valid ==> Undisturbed(s, mem', e.vpage * 0x1000)
    ensures Agrees(s.(mem := mem'), e)
  {
    hide TranslateMode, Entries, Accessed, Dirty, EntryStart, SameFields, ReadEntry, AlikeEntries, ReadU8, Mode;
    if e.valid {
      var b := e.vpage * 0x1000;
      WalkAlike(s.mem, mem', s.cr3, b, Mode(s), s.efer.nxe);
      WalkIsEntries(s.mem, s.cr3, b, Mode(s), s.efer.nxe);
      SameModeAfter(s, mem');
    }
  }

  lemma SameModeAfter(s: State, mem': Ram)
    ensures Mode(s.(mem := mem')) == Mode(s)
  {
  }

  /** An edit turns at most the slots it disturbs stale. */
  lemma EditLeaves(s: State, mem': Ram, stale: set<nat>)
    requires InvBut(s, stale) && mem'.Valid()
    ensures InvBut(s.(mem := mem'), stale + Disturbed(s, mem'))
  {
    hide Agrees, Undisturbed;
    var s' := s.(mem := mem');
    forall i | 0 <= i < TLB_SIZE && i !in stale + Disturbed(s, mem')
      ensures Agrees(s', s'.tlb[i])
    {
      if s.tlb[i].valid {
        assert Undisturbed(s, mem', s.tlb[i].vpage * 0x1000);
      }
      UndisturbedAgrees(s, mem', s.tlb[i]);
    }
  }

  // ---- EFER.NXE, for which nothing is flushed ----

  /** The live slots whose page comes out differently under another EFER.NXE. */
  function ExecChanged(s: State, nxe: bool): set<nat>
    requires s.Valid()
  {
    set i: nat | i < TLB_SIZE && s.tlb[i].valid
      && Walk(s.(efer := s.efer.(nxe := nxe)), s.tlb[i].vpage * 0x1000) != Walk(s, s.tlb[i].vpage * 0x1000)
  }

  /** Changing CR0.WP, EFER.LME, CS or the pending fault leaves live entries right;
      changing EFER.NXE does, but for those it makes stale. */
  lemma QuietChange(s: State, s': State, stale: set<nat>)
    requires InvBut(s, stale) && s'.Valid()
    requires s' == s.(cr0 := s'.cr0, pe := s'.pe, cs := s'.cs, efer := s'.efer, pending := s'.pending)
    requires s'.cr0.pg == s.cr0.pg && s'.efer.lma == s.efer.lma
    ensures InvBut(s', stale + ExecChanged(s, s'.efer.nxe))
  {
    hide TranslateMode, Marked;
    forall i | 0 <= i < TLB_SIZE && i !in stale + ExecChanged(s, s'.efer.nxe)
      ensures Agrees(s', s'.tlb[i])
    {
      var e := s.tlb[i];
      assert Agrees(s, e);
      if e.valid {
        var b := e.vpage * 0x1000;
        assert Walk(s.(efer := s.efer.(nxe := s'.efer.nxe)), b) == Walk(s, b);
        assert Walk(s', b) == Walk(s.(efer := s.efer.(nxe := s'.efer.nxe)), b);
      }
    }
  }
}
