/** What an access does, told from the control registers and the entries of the walk. */
module AccessMeaning {
  import opened Words
  import opened Memory
  import opened Paging
  import opened WalkStability
  import opened Mmu
  import opened TlbRefinement
  import opened AddressSpace
  import opened WalkMeaning

  /** The paging structure the control registers choose. */
  predicate InMode(s: State, mode: PagingMode) {
    match mode
    case Off => !s.cr0.pg
    case Legacy => s.cr0.pg && !s.efer.lma && !s.cr4.pae
    case Pae => s.cr0.pg && !s.efer.lma && s.cr4.pae
    case Long => s.cr0.pg && s.efer.lma
  }

  predicate Ring3(s: State) { s.pe && s.cs % 4 == 3 }

  /** Bits 63:47 of a canonical address are all equal. */
  predicate SignExtended(linear: u64) { linear < 0x8000_0000_0000 || linear >= 0xFFFF_8000_0000_0000 }

  /** Ring 3 needs U in every entry and W to store; the other rings may store past a
      missing W unless CR0.WP is set; NX, where it exists, keeps all from fetching. */
  ghost predicate Refused(s: State, mode: PagingMode, es: seq<u64>, write: bool, fetch: bool)
    requires |es| <= |Levels(mode)|
  {
    || (fetch && s.efer.nxe && mode != Legacy && !NotForbidden(mode, es))
    || (Ring3(s) && !Granted(mode, es, 4))
    || (write && !Granted(mode, es, 2) && (Ring3(s) || s.cr0.wp))
  }

  /** A page fault: CR2 is the address; bit 0 says the page is there, bit 1 a store,
      bit 2 ring 3, bit 4 a fetch where NX exists; the others are clear. */
  ghost predicate PageFaulted(s: State, s': State, linear: u64, present: bool, write: bool, fetch: bool) {
    && s'.cr2 == linear && s'.pending.Some? && s'.pending.value.vector == 14 && s'.pending.value.code.Some?
    && var code := s'.pending.value.code.value;
       && code < 32 && (code % 2 == 1 <==> present) && (code / 2 % 2 == 1 <==> write)
       && (code / 4 % 2 == 1 <==> Ring3(s)) && code / 8 % 2 == 0 && (code / 16 == 1 <==> fetch && s.efer.nxe)
  }

  lemma ModeIs(s: State, mode: PagingMode)
    requires InMode(s, mode)
    ensures Mode(s) == mode && (Pg(s) <==> mode != Off)
  {
  }

  lemma CanonicalIs(linear: u64)
    ensures Canonical(linear) <==> SignExtended(linear)
  {
  }

  lemma CodeIs(s: State, linear: u64, present: bool, write: bool, fetch: bool)
    requires s.pending.None?
    ensures PageFaulted(s, RaisePageFault(s, linear, present, write, fetch), linear, present, write, fetch)
  {
  }

  lemma RefusedIs(s: State, mode: PagingMode, es: seq<u64>, mp: Mapping, write: bool, fetch: bool)
    requires |es| <= |Levels(mode)|
    requires (mp.writable <==> Granted(mode, es, 2)) && (mp.user <==> Granted(mode, es, 4))
    requires mp.exec <==> mode == Legacy || !s.efer.nxe || NotForbidden(mode, es)
    ensures Allowed(s, mp.writable, mp.user, mp.exec, write, fetch) <==> !Refused(s, mode, es, write, fetch)
  {
    hide Granted, NotForbidden, Levels;
  }

  /** The access through the tables alone: the first of a non-canonical address, an
      absent entry and a refusal decides; otherwise the address is the walk's. */
  ghost predicate Accessed(s: State, linear: u64, mode: PagingMode, addrs: seq<u64>, es: seq<u64>, write: bool,
                           fetch: bool, s': State, phys: u64)
    requires 0 < |es| == |addrs| <= |Levels(mode)| && Levels(mode)[|es| - 1].span > 0 && s.mem.Valid()
  {
    var e, span := es[|es| - 1], Levels(mode)[|es| - 1].span;
    if s.efer.lma && !SignExtended(linear) then s'.pending == Some(Fault(13, Some(0))) && s'.mem == s.mem
    else if e % 2 == 0 || Refused(s, mode, es, write, fetch) then
      PageFaulted(s, s', linear, e % 2 == 1, write, fetch) && s'.mem == s.mem
    else
      && s'.pending.None? && s'.cr2 == s.cr2
      && phys == HighPart(mode, e, span) + Seen(mode, linear) % span
      && s'.mem.Valid()
      && forall x: nat :: MarkedAt(ReadU8(s.mem, x), ReadU8(s'.mem, x), x in addrs, write && x == addrs[|addrs| - 1])
  }

  /** A byte before and after: bit 5 is turned on if `entry`, bit 6 if `stored`. */
  predicate MarkedAt(b: u8, b': u8, entry: bool, stored: bool) {
    && b' % 0x20 == b % 0x20 && b' / 0x80 == b / 0x80
    && (b' / 0x20 % 2 == 1 <==> entry || b / 0x20 % 2 == 1)
    && (b' / 0x40 % 2 == 1 <==> stored || b / 0x40 % 2 == 1)
  }

  /** When the access succeeds, in terms of the entries. */
  lemma ReachableIs(s: State, linear: u64, mode: PagingMode, addrs: seq<u64>, es: seq<u64>, write: bool, fetch: bool)
    requires s.Valid() && InMode(s, mode) && Walks(s.mem, s.cr3, linear, mode, addrs, es)
    ensures 0 < |es| == |addrs| <= |Levels(mode)| && Levels(mode)[|es| - 1].span > 0 && Pg(s)
    ensures Walk(s, linear).Some? <==> es[|es| - 1] % 2 == 1
    ensures Reachable(s, linear, write, fetch) <==>
              (s.efer.lma ==> SignExtended(linear)) && es[|es| - 1] % 2 == 1 && !Refused(s, mode, es, write, fetch)
    ensures Walk(s, linear).Some? ==>
              var mp := Walk(s, linear).value;
              && mp.phys == HighPart(mode, es[|es| - 1], Levels(mode)[|es| - 1].span)
                            + Seen(mode, linear) % Levels(mode)[|es| - 1].span
              && mp.walk == addrs
              && (Allowed(s, mp.writable, mp.user, mp.exec, write, fetch) <==> !Refused(s, mode, es, write, fetch))
  {
    hide TranslateMode, Walks, HighPart, Seen, Granted, NotForbidden, Levels, Allowed, Canonical, SignExtended, Refused;
    WalkLength(s.mem, s.cr3, linear, mode, addrs, es);
    ModeIs(s, mode);
    CanonicalIs(linear);
    WalkMeans(s.mem, s.cr3, linear, mode, s.efer.nxe, addrs, es);
    if Walk(s, linear).Some? { RefusedIs(s, mode, es, Walk(s, linear).value, write, fetch); }
  }

  /** Which fault it is otherwise, on the machine without a TLB. */
  lemma FaultIs(s: State, linear: u64, mode: PagingMode, addrs: seq<u64>, es: seq<u64>, write: bool, fetch: bool)
    requires s.Valid() && s.noTlb && s.pending.None? && InMode(s, mode)
    requires Walks(s.mem, s.cr3, linear, mode, addrs, es)
    ensures 0 < |es|
    ensures var s', present := Access(s, linear, write, fetch).0, es[|es| - 1] % 2 == 1;
            if s.efer.lma && !SignExtended(linear) then s'.pending == Some(Fault(13, Some(0)))
            else if !present || Refused(s, mode, es, write, fetch) then
              PageFaulted(s, s', linear, present, write, fetch)
            else true
  {
    hide Walk, Walks, HighPart, Seen, Levels, Allowed, Canonical, SignExtended, Refused, SetAccessedBits,
      RaisePageFault, PageFaulted, WellFormed, Fill, TlbIndex;
    ReachableIs(s, linear, mode, addrs, es, write, fetch);
    CanonicalIs(linear);
    ModeIs(s, mode);
    CodeIs(s, linear, true, write, fetch);
    CodeIs(s, linear, false, write, fetch);
  }

  /** An access with paging on, TLB or not: a non-canonical address, an absent entry and
      a refusal fault, each with its own code; any other access finds the frame in the
      last entry plus the offset, turns the accessed bit on in every entry and, for a store, the
      dirty bit in the last, and changes no other bit of memory. */
  lemma AccessMeans(s: State, linear: u64, mode: PagingMode, addrs: seq<u64>, es: seq<u64>, write: bool, fetch: bool)
    requires Inv(s) && s.pending.None? && InMode(s, mode) && Walks(s.mem, s.cr3, linear, mode, addrs, es)
    ensures 0 < |es| == |addrs| <= |Levels(mode)| && Levels(mode)[|es| - 1].span > 0
    ensures var (s', phys) := Access(s, linear, write, fetch);
            Accessed(s, linear, mode, addrs, es, write, fetch, s', phys)
  {
    hide Walk, Walks, HighPart, Seen, Levels, Allowed, Canonical, SignExtended, Refused, Access, PageFaulted, Agrees,
      Reachable, MoreMarked, MarkedAt, ReadU8;
    ReachableIs(s, linear, mode, addrs, es, write, fetch);
    AccessOutcome(s, linear, write, fetch);
    var t := s.(noTlb := true);
    AccessRefines(s, t, linear, write, fetch);
    FaultIs(t, linear, mode, addrs, es, write, fetch);
    var (s', phys) := Access(s, linear, write, fetch);
    SameFault(s, t, s', Access(t, linear, write, fetch).0, mode, es, linear, write, fetch);
    if s'.pending.None? {
      SameTables(s, linear, write, fetch);
      MarksAre(t, linear, write, fetch);
    }
  }

  /** Neither the TLB nor the switch that ignores it enters into the fault. */
  lemma SameFault(s: State, t: State, s': State, t': State, mode: PagingMode, es: seq<u64>, linear: u64, write: bool,
                  fetch: bool)
    requires |es| <= |Levels(mode)| && t == s.(noTlb := true) && SameButTlb(s', t')
    ensures Refused(t, mode, es, write, fetch) == Refused(s, mode, es, write, fetch)
    ensures forall present: bool ::
              PageFaulted(t, t', linear, present, write, fetch) == PageFaulted(s, s', linear, present, write, fetch)
  {
    hide Granted, NotForbidden, Levels;
  }

  lemma MarkedAtIs(b: u8, b': u8, entry: bool, stored: bool)
    ensures MarkedAt(b, b', entry, stored) == TurnedOn(b, b', entry, stored)
  {
  }

  lemma SameTables(s: State, linear: u64, write: bool, fetch: bool)
    requires s.Valid()
    ensures var t := s.(noTlb := true);
            && t.Valid() && Pg(t) == Pg(s) && Walk(t, linear) == Walk(s, linear)
            && Reachable(t, linear, write, fetch) == Reachable(s, linear, write, fetch)
  {
    hide TranslateMode, Canonical, Permits;
  }

  lemma MissMarks(t: State, linear: u64, write: bool, fetch: bool)
    requires t.Valid() && t.noTlb && Pg(t) && Reachable(t, linear, write, fetch)
    requires Walk(t, linear).Some? && WellFormed(Walk(t, linear).value)
    ensures Access(t, linear, write, fetch).0.mem == SetAccessedBits(t.mem, Walk(t, linear).value, write)
  {
    hide Walk, Allowed, Canonical, SetAccessedBits, WellFormed, Fill, TlbIndex;
  }

  /** The marks that an access without a TLB leaves. */
  lemma MarksAre(t: State, linear: u64, write: bool, fetch: bool)
    requires t.Valid() && t.noTlb && Pg(t) && Reachable(t, linear, write, fetch)
    requires Walk(t, linear).Some? && |Walk(t, linear).value.walk| > 0
    ensures var walk, mem' := Walk(t, linear).value.walk, Access(t, linear, write, fetch).0.mem;
            forall x: nat :: MarkedAt(ReadU8(t.mem, x), ReadU8(mem', x), x in walk, write && x == walk[|walk| - 1])
  {
    hide TranslateMode, Access, Reachable, SetAccessedBits, WellFormed, MarkedAt, TurnedOn, ReadU8;
    WalkAligned(t.mem, t.cr3, linear, Mode(t), t.efer.nxe);
    MissMarks(t, linear, write, fetch);
    var mp, mem' := Walk(t, linear).value, Access(t, linear, write, fetch).0.mem;
    forall x: nat
      ensures MarkedAt(ReadU8(t.mem, x), ReadU8(mem', x), x in mp.walk, write && x == mp.walk[|mp.walk| - 1])
    {
      SetAccessedExactly(t.mem, mp, write, x);
      MarkedAtIs(ReadU8(t.mem, x), ReadU8(mem', x), x in mp.walk, write && x == mp.walk[|mp.walk| - 1]);
    }
  }

  /** With paging off every access is to the address itself; in long mode, which has no
      such state, nothing is said. */
  lemma UnpagedAccess(s: State, linear: u64, write: bool, fetch: bool)
    requires s.Valid() && InMode(s, Off) && !s.efer.lma
    ensures Access(s, linear, write, fetch) == (s, linear)
  {
  }
}
