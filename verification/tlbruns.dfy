/** Whole runs: a cached machine and one without a TLB stay in step. */
module TlbRuns {
  import opened Words
  import opened Memory
  import opened Paging
  import opened Mmu
  import opened TlbRefinement
  import opened StaleSlots
  import opened Operands
  import opened SplitAccess

  /** What a guest can do to the translation machinery. */
  datatype Event =
    | LoadFrom(linear: u64, n: Size)
    | StoreTo(linear: u64, n: Size, v: u64)
    | FetchFrom(linear: u64)
    | InvalidatePage(linear: u64)
    | MovToCr0(cr0: Cr0)
    | MovToCr3(cr3: u64)
    | MovToCr4(cr4: Cr4)
    | WrmsrEfer(efer: Efer)
    | LoadCs(cs: u16)
    | TakeFault

  /** What can be seen of an event: the value or address it produced, and the
      fault, error code and CR2 it left. */
  datatype Seen = Seen(value: u64, pending: Option<Fault>, cr2: u64)

  function Perform(s: State, ev: Event): (r: (State, u64))
    requires s.Valid()
    ensures r.0.Valid()
  {
    match ev
    case LoadFrom(linear, n) => Load(s, linear, n)
    case StoreTo(linear, n, v) => (Store(s, linear, n, v), 0)
    case FetchFrom(linear) => Access(s, linear, false, true)
    case InvalidatePage(linear) => (Invlpg(s, linear), 0)
    case MovToCr0(cr0) => (WriteCr0(s, cr0), 0)
    case MovToCr3(cr3) => (WriteCr3(s, cr3), 0)
    case MovToCr4(cr4) => (WriteCr4(s, cr4), 0)
    case WrmsrEfer(efer) => (WriteEfer(s, efer), 0)
    case LoadCs(cs) => (s.(cs := cs), 0)
    case TakeFault => (s.(pending := None), 0)
  }

  /** A run, and everything seen along it. */
  function Execute(s: State, events: seq<Event>): (r: (State, seq<Seen>))
    requires s.Valid()
    ensures r.0.Valid()
    decreases |events|
  {
    if events == [] then (s, [])
    else
      var (s1, value) := Perform(s, events[0]);
      var (s2, seen) := Execute(s1, events[1..]);
      (s2, [Seen(value, s1.pending, s1.cr2)] + seen)
  }

  // ---- The guest's side of the bargain ----

  /** The translations of an operand, its second page included, hit no stale slot. */
  predicate AvoidsStale(s: State, stale: set<nat>, linear: u64, n: Size, write: bool)
    requires s.Valid()
  {
    && !HitsStale(s, stale, linear)
    && var (s1, phys) := Access(s, linear, write, false);
       s1.pending.None? && n > 1 && Straddles(phys, n) ==> !HitsStale(s1, Remaining(s, s1, stale), NextPage(linear))
  }

  /** No access is answered from a slot whose page tables were edited since it was
      filled. Nothing is asked of any other event. */
  predicate Cooperative(s: State, stale: set<nat>, ev: Event)
    requires s.Valid()
  {
    match ev
    case LoadFrom(linear, n) => AvoidsStale(s, stale, linear, n, false)
    case StoreTo(linear, n, v) => s.pending.None? ==> AvoidsStale(s, stale, linear, n, true)
    case FetchFrom(linear) => !HitsStale(s, stale, linear)
    case _ => true
  }

  /** The stale slots after an event: a store adds those whose entries it disturbs, a
      change of EFER.NXE those it bears on; a slot leaves when it is invalidated,
      flushed or filled again. */
  ghost function StaleAfter(s: State, stale: set<nat>, ev: Event): set<nat>
    requires s.Valid()
  {
    var s' := Perform(s, ev).0;
    match ev
    case StoreTo(linear, n, _) =>
      if s.pending.Some? then stale
      else Remaining(s, s', stale) + Disturbed(Reach(s, linear, n, true), s'.mem)
    case WrmsrEfer(efer) => Remaining(s, s', stale) + ExecChanged(s, efer.nxe)
    case _ => Remaining(s, s', stale)
  }

  ghost predicate CooperativeRun(s: State, stale: set<nat>, events: seq<Event>)
    requires s.Valid()
    decreases |events|
  {
    events == []
    || (Cooperative(s, stale, events[0])
        && CooperativeRun(Perform(s, events[0]).0, StaleAfter(s, stale, events[0]), events[1..]))
  }

  // ---- Loads and stores ----

  lemma LoadStep(s: State, t: State, stale: set<nat>, linear: u64, n: Size)
    requires InvBut(s, stale) && t.Valid() && SameButTlb(s, t) && AvoidsStale(s, stale, linear, n, false)
    ensures var (s', v), (t', w) := Load(s, linear, n), Load(t, linear, n);
            v == w && SameButTlb(s', t') && InvBut(s', Remaining(s, s', stale))
  {
    hide Access, Agrees, ReadSize, ReadAt, SplitAddrs, Straddles, HitsStale, Remaining, Ram.Valid;
    AccessStep(s, t, stale, linear, false, false);
    var (s1, phys) := Access(s, linear, false, false);
    var t1 := Access(t, linear, false, false).0;
    if s1.pending.None? && n > 1 && Straddles(phys, n) {
      var stale1 := Remaining(s, s1, stale);
      AccessStep(s1, t1, stale1, NextPage(linear), false, false);
      var s2 := Access(s1, NextPage(linear), false, false).0;
      RemainingTwice(s, s1, s2, stale);
    }
  }

  /** The translations behind a store. */
  lemma ReachStep(s: State, t: State, stale: set<nat>, linear: u64, n: Size)
    requires InvBut(s, stale) && t.Valid() && SameButTlb(s, t) && AvoidsStale(s, stale, linear, n, true)
    ensures var s', t' := Reach(s, linear, n, true), Reach(t, linear, n, true);
            SameButTlb(s', t') && InvBut(s', Remaining(s, s', stale))
  {
    hide Access, Agrees, Straddles, HitsStale, Remaining, Ram.Valid;
    AccessStep(s, t, stale, linear, true, false);
    var (s1, phys) := Access(s, linear, true, false);
    var t1 := Access(t, linear, true, false).0;
    if s1.pending.None? && n > 1 && Straddles(phys, n) {
      var stale1 := Remaining(s, s1, stale);
      AccessStep(s1, t1, stale1, NextPage(linear), true, false);
      var s2 := Access(s1, NextPage(linear), true, false).0;
      RemainingTwice(s, s1, s2, stale);
    }
  }

  /** ... and the store itself, on machines that translated alike. */
  lemma StoreSame(s: State, t: State, stale: set<nat>, linear: u64, n: Size, v: u64)
    requires InvBut(s, stale) && t.Valid() && SameButTlb(s, t) && AvoidsStale(s, stale, linear, n, true)
    requires s.pending.None?
    ensures var s', r := Store(s, linear, n, v), Reach(s, linear, n, true);
            && SameButTlb(s', Store(t, linear, n, v))
            && s' == r.(mem := s'.mem)
  {
    hide Access, Agrees, WriteSize, WriteAt, SplitAddrs, Straddles, HitsStale, Remaining, Ram.Valid;
    AccessStep(s, t, stale, linear, true, false);
    var (s1, phys) := Access(s, linear, true, false);
    var t1 := Access(t, linear, true, false).0;
    if s1.pending.None? && n > 1 && Straddles(phys, n) {
      AccessStep(s1, t1, Remaining(s, s1, stale), NextPage(linear), true, false);
    }
  }

  lemma InvButValid(s: State, stale: set<nat>)
    requires InvBut(s, stale)
    ensures s.Valid()
  {
  }

  lemma StoreStep(s: State, t: State, stale: set<nat>, linear: u64, n: Size, v: u64)
    requires InvBut(s, stale) && t.Valid() && SameButTlb(s, t) && Cooperative(s, stale, StoreTo(linear, n, v))
    ensures var s' := Store(s, linear, n, v);
            SameButTlb(s', Store(t, linear, n, v)) && InvBut(s', StaleAfter(s, stale, StoreTo(linear, n, v)))
  {
    hide Store, Agrees, Reach, AvoidsStale, Remaining, Disturbed, Ram.Valid, InvBut;
    InvButValid(s, stale);
    if s.pending.None? {
      ReachStep(s, t, stale, linear, n);
      StoreSame(s, t, stale, linear, n, v);
      var r, s' := Reach(s, linear, n, true), Store(s, linear, n, v);
      EditLeaves(r, s'.mem, Remaining(s, r, stale));
      SameTlbRemains(s, r, s', stale);
    } else {
      StoreNothing(s, linear, n, v);
      StoreNothing(t, linear, n, v);
    }
  }

  lemma StoreNothing(s: State, linear: u64, n: Size, v: u64)
    requires s.Valid() && s.pending.Some?
    ensures Store(s, linear, n, v) == s
  {
  }

  lemma SameTlbRemains(s: State, s1: State, s2: State, stale: set<nat>)
    requires s.Valid() && s1.Valid() && s2.Valid() && s2.tlb == s1.tlb
    ensures Remaining(s, s1, stale) == Remaining(s, s2, stale)
  {
  }

  // ---- Invalidations and register writes ----

  lemma FlushKeepsInv(s: State, stale: set<nat>)
    requires s.Valid()
    ensures InvBut(FlushTlb(s), stale)
  {
    hide TranslateMode;
  }

  lemma LongModeKeepsInv(s: State, stale: set<nat>)
    requires s.Valid() && (InvBut(s, stale) || (s.cr0.pg && s.efer.lme) != s.efer.lma)
    ensures InvBut(UpdateLongMode(s), stale)
  {
    hide TranslateMode, Agrees, FlushTlb;
    var want := s.cr0.pg && s.efer.lme;
    FlushKeepsInv(s.(efer := s.efer.(lma := want)), stale);
  }

  /** A slot that is dead, or stale no longer, still fits the description. */
  lemma RemainingSuffices(s: State, s': State, stale: set<nat>, more: set<nat>)
    requires s.Valid() && InvBut(s', stale + more)
    requires forall i :: 0 <= i < TLB_SIZE ==> s'.tlb[i].valid ==> s'.tlb[i] == s.tlb[i]
    ensures InvBut(s', Remaining(s, s', stale) + more)
  {
    hide Agrees, Ram.Valid;
    forall i | 0 <= i < TLB_SIZE && i !in Remaining(s, s', stale) + more
      ensures Agrees(s', s'.tlb[i])
    {
      if i in stale && i !in more { DeadAgrees(s', s'.tlb[i]); }
    }
  }

  /** Slots are only ever invalidated here. */
  lemma ControlOnlyKills(s: State, ev: Event)
    requires s.Valid() && !ev.LoadFrom? && !ev.StoreTo? && !ev.FetchFrom?
    ensures forall i :: 0 <= i < TLB_SIZE ==> Perform(s, ev).0.tlb[i].valid ==> Perform(s, ev).0.tlb[i] == s.tlb[i]
  {
    hide TlbIndex, Load, Store, Access, Ram.Valid;
  }

  lemma Cr0KeepsInv(s: State, v: Cr0, stale: set<nat>)
    requires InvBut(s, stale)
    ensures InvBut(WriteCr0(s, v), stale)
  {
    hide TranslateMode, Agrees, FlushTlb, UpdateLongMode, ExecChanged;
    var s' := s.(cr0 := v, pe := v.pe);
    if v.pg == s.cr0.pg {
      QuietChange(s, s', stale);
      NothingChanged(s);
      LongModeKeepsInv(s', stale);
    } else {
      FlushKeepsInv(s', stale);
      LongModeKeepsInv(FlushTlb(s'), stale);
    }
  }

  lemma NothingChanged(s: State)
    requires s.Valid()
    ensures ExecChanged(s, s.efer.nxe) == {}
  {
    hide TranslateMode;
    assert s.(efer := s.efer.(nxe := s.efer.nxe)) == s;
  }

  lemma EferKeepsInv(s: State, v: Efer, stale: set<nat>)
    requires InvBut(s, stale)
    ensures InvBut(WriteEfer(s, v), stale + ExecChanged(s, v.nxe))
  {
    hide TranslateMode, Agrees, FlushTlb, UpdateLongMode, ExecChanged;
    var s' := s.(efer := v.(lma := s.efer.lma));
    QuietChange(s, s', stale);
    LongModeKeepsInv(s', stale + ExecChanged(s, v.nxe));
  }

  lemma InvlpgKeepsInv(s: State, linear: u64, stale: set<nat>)
    requires InvBut(s, stale)
    ensures InvBut(Invlpg(s, linear), stale)
  {
    hide TranslateMode, Marked;
    var s' := Invlpg(s, linear);
    forall i | 0 <= i < TLB_SIZE && i !in stale
      ensures Agrees(s', s'.tlb[i])
    {
      assert Agrees(s, s.tlb[i]);
    }
  }

  lemma ControlKeepsInv(s: State, ev: Event, stale: set<nat>)
    requires InvBut(s, stale) && !ev.LoadFrom? && !ev.StoreTo? && !ev.FetchFrom?
    ensures InvBut(Perform(s, ev).0, stale + if ev.WrmsrEfer? then ExecChanged(s, ev.efer.nxe) else {})
  {
    hide Agrees, Load, Store, Access, FlushTlb, Invlpg, WriteCr0, WriteEfer, ExecChanged, Ram.Valid;
    match ev
    case InvalidatePage(linear) => InvlpgKeepsInv(s, linear, stale);
    case MovToCr0(cr0) => Cr0KeepsInv(s, cr0, stale);
    case MovToCr3(cr3) => FlushKeepsInv(s.(cr3 := cr3), stale);
    case MovToCr4(cr4) => FlushKeepsInv(s.(cr4 := cr4), stale);
    case WrmsrEfer(efer) => EferKeepsInv(s, efer, stale);
    case LoadCs(cs) =>
      QuietChange(s, s.(cs := cs), stale);
      NothingChanged(s);
    case TakeFault =>
      QuietChange(s, s.(pending := None), stale);
      NothingChanged(s);
  }

  lemma FlushSame(s: State, t: State)
    requires s.Valid() && t.Valid() && SameButTlb(s, t)
    ensures SameButTlb(FlushTlb(s), FlushTlb(t))
  {
  }

  lemma LongModeSame(s: State, t: State)
    requires s.Valid() && t.Valid() && SameButTlb(s, t)
    ensures SameButTlb(UpdateLongMode(s), UpdateLongMode(t))
  {
    hide FlushTlb;
    var want := s.cr0.pg && s.efer.lme;
    FlushSame(s.(efer := s.efer.(lma := want)), t.(efer := t.efer.(lma := want)));
  }

  lemma Cr0Same(s: State, t: State, v: Cr0)
    requires s.Valid() && t.Valid() && SameButTlb(s, t)
    ensures SameButTlb(WriteCr0(s, v), WriteCr0(t, v))
  {
    hide FlushTlb, UpdateLongMode;
    var s1, t1 := s.(cr0 := v, pe := v.pe), t.(cr0 := v, pe := v.pe);
    FlushSame(s1, t1);
    LongModeSame(s1, t1);
    LongModeSame(FlushTlb(s1), FlushTlb(t1));
  }

  /** Neither machine looks at its TLB here. */
  lemma ControlSame(s: State, t: State, ev: Event)
    requires s.Valid() && t.Valid() && SameButTlb(s, t)
    requires !ev.LoadFrom? && !ev.StoreTo? && !ev.FetchFrom?
    ensures Perform(s, ev).1 == Perform(t, ev).1 && SameButTlb(Perform(s, ev).0, Perform(t, ev).0)
  {
    hide TlbIndex, Load, Store, Access, FlushTlb, UpdateLongMode, WriteCr0, Ram.Valid;
    match ev
    case InvalidatePage(linear) =>
    case MovToCr0(cr0) => Cr0Same(s, t, cr0);
    case MovToCr3(cr3) => FlushSame(s.(cr3 := cr3), t.(cr3 := cr3));
    case MovToCr4(cr4) => FlushSame(s.(cr4 := cr4), t.(cr4 := cr4));
    case WrmsrEfer(efer) =>
      var efer' := efer.(lma := s.efer.lma);
      LongModeSame(s.(efer := efer'), t.(efer := efer'));
    case LoadCs(cs) =>
    case TakeFault =>
  }

  lemma ControlStep(s: State, t: State, stale: set<nat>, ev: Event)
    requires InvBut(s, stale) && t.Valid() && SameButTlb(s, t) && !ev.LoadFrom? && !ev.StoreTo? && !ev.FetchFrom?
    ensures var (s1, v), (t1, w) := Perform(s, ev), Perform(t, ev);
            v == w && SameButTlb(s1, t1) && InvBut(s1, StaleAfter(s, stale, ev))
  {
    hide Agrees, Perform, Remaining, ExecChanged, Ram.Valid;
    ControlSame(s, t, ev);
    ControlKeepsInv(s, ev, stale);
    ControlOnlyKills(s, ev);
    RemainingSuffices(s, Perform(s, ev).0, stale, if ev.WrmsrEfer? then ExecChanged(s, ev.efer.nxe) else {});
  }

  // ---- Runs ----

  lemma StepRefines(s: State, t: State, stale: set<nat>, ev: Event)
    requires InvBut(s, stale) && t.Valid() && SameButTlb(s, t) && Cooperative(s, stale, ev)
    ensures var (s1, v), (t1, w) := Perform(s, ev), Perform(t, ev);
            v == w && SameButTlb(s1, t1) && InvBut(s1, StaleAfter(s, stale, ev))
  {
    hide Agrees, Load, Store, Access, Remaining, Disturbed, ExecChanged, AvoidsStale, HitsStale, InvBut, Ram.Valid;
    match ev
    case LoadFrom(linear, n) => LoadStep(s, t, stale, linear, n);
    case StoreTo(linear, n, v) => StoreStep(s, t, stale, linear, n, v);
    case FetchFrom(linear) => AccessStep(s, t, stale, linear, false, true);
    case _ => ControlStep(s, t, stale, ev);
  }

  /** TLB refinement over whole runs. The guest may edit its page tables, change any
      control register and invalidate when it likes -- at once, after several edits,
      or by reloading CR3 -- as long as no access meanwhile is answered from a slot
      gone stale. It then sees the same values, physical addresses, faults, error
      codes and CR2 at every event, and leaves the same memory, accessed and dirty
      bits included, as on a machine that walks the tables on every access. */
  lemma {:induction false} RunRefines(s: State, t: State, stale: set<nat>, events: seq<Event>)
    requires InvBut(s, stale) && t.Valid() && SameButTlb(s, t) && CooperativeRun(s, stale, events)
    ensures var (s', seen), (t', seen') := Execute(s, events), Execute(t, events);
            seen == seen' && SameButTlb(s', t')
    decreases |events|
  {
    hide Agrees, Perform, Cooperative, StaleAfter, InvBut;
    if events != [] {
      InvButValid(s, stale);
      StepRefines(s, t, stale, events[0]);
      RunRefines(Perform(s, events[0]).0, Perform(t, events[0]).0, StaleAfter(s, stale, events[0]), events[1..]);
    }
  }

  /** From a flushed TLB nothing is stale. */
  lemma StartsClean(s: State, events: seq<Event>)
    requires s.Valid() && CooperativeRun(FlushTlb(s), {}, events)
    ensures var s0 := FlushTlb(s);
            var (s', seen), (t', seen') := Execute(s0, events), Execute(s0.(noTlb := true), events);
            seen == seen' && s'.mem == t'.mem
  {
    hide Execute, CooperativeRun, Agrees;
    FlushKeepsInv(s, {});
    var s0 := FlushTlb(s);
    RunRefines(s0, s0.(noTlb := true), {}, events);
  }
}
