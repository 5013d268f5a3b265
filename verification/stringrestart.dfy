/** REP string instructions stop exactly at the element that faulted, and running
    them again after the fault is repaired ends as if nothing had happened. */
module StringRestart {
  import opened Words
  import opened Memory
  import opened Mmu
  import opened TlbRefinement
  import opened AddressSpace
  import opened Operands
  import opened SplitAccess
  import opened Alu
  import opened Processor
  import opened Strings
  import opened DataAccess
  import opened LinearView
  import Division

  // ---- The standing assumptions ----

  /** The element lies inside one page. */
  predicate OnePage(linear: u64, n: Size) { linear % 0x1000 + n <= 0x1000 }

  /** What the bytes at `src` read as does not depend on those at `dst`: where the two
      have a home in common, it holds zero. */
  ghost predicate Survives(mem: Ram, T: u64 -> nat, src: u64, dst: u64, n: Size)
    requires mem.Valid()
  {
    var homes := Homes(T, src, n);
    forall i :: 0 <= i < n && homes[i] in Homes(T, dst, n) && Slot(mem, homes[i]).Some? ==>
      ReadU8(mem, homes[i]) == 0
  }

  /** A MOVS that may overwrite its destination with zero before it faults: the source
      straddles, and the destination, which does not, is stored in any case. */
  predicate Spoils(c: Cpu, op: StringOp, k: Cursor)
    requires c.Valid()
  {
    op.kind == Movs && !OnePage(SourceAddr(c, op, k.si), op.n) && OnePage(DestAddr(c, k.di), op.n)
  }

  /** The bytes of an element belong to the view. Elements may straddle two pages, those
      compared excepted; a zeroed destination must not take source bytes with it. */
  ghost predicate ElementOk(c: Cpu, op: StringOp, T: u64 -> nat, A: iset<u64>, s: Ideal)
    requires c.Valid() && s.mem.Valid()
  {
    var src, dst := SourceAddr(c, op, s.k.si), DestAddr(c, s.k.di);
    && (UsesSi(op.kind) ==> InView(A, src, op.n) && (Compares(op.kind) ==> OnePage(src, op.n)))
    && (UsesDi(op.kind) ==> InView(A, dst, op.n) && (Compares(op.kind) ==> OnePage(dst, op.n)))
    && (Spoils(c, op, s.k) ==> Survives(s.mem, T, src, dst, op.n))
  }

  ghost predicate ElementsOk(c: Cpu, op: StringOp, T: u64 -> nat, A: iset<u64>, s: Ideal)
    requires c.Valid() && s.mem.Valid()
    decreases s.k.count
  {
    Ended(s) || (ElementOk(c, op, T, A, s) && ElementsOk(c, op, T, A, Element(c, op, T, s)))
  }

  /** `c` has the segments, modes and tables of `c0`: it computes the same addresses. */
  predicate SameSegments(c0: Cpu, c: Cpu) {
    && c == c0.(mmu := c.mmu, regs := c.regs, flags := c.flags)
    && c.mmu.efer == c0.mmu.efer && c.mmu.pe == c0.mmu.pe && c.mmu.cs == c0.mmu.cs
  }

  /** The processor `c` is in the middle of the run at the ideal state `s`; what is
      not mapped is as it was in `B`. */
  ghost predicate Sim(c0: Cpu, c: Cpu, T: u64 -> nat, A: iset<u64>, B: Ram, s: Ideal) {
    && c0.Valid() && c.Valid() && SameSegments(c0, c)
    && View(c.mmu, T, A, s.mem) && AbsentKept(c.mmu, T, A, B, s.mem)
    && c.regs == s.regs && c.flags == s.flags
  }

  lemma SameAddresses(c0: Cpu, c: Cpu, op: StringOp, k: Cursor)
    requires c0.Valid() && c.Valid() && SameSegments(c0, c)
    ensures SourceAddr(c, op, k.si) == SourceAddr(c0, op, k.si) && DestAddr(c, k.di) == DestAddr(c0, k.di)
  {
    hide State.Valid, Wrap64, Wrap32;
  }

  lemma SimParts(c0: Cpu, c: Cpu, T: u64 -> nat, A: iset<u64>, B: Ram, s: Ideal)
    requires Sim(c0, c, T, A, B, s)
    ensures c0.Valid() && c.Valid() && s.mem.Valid() && c.mmu.Valid() && SameSegments(c0, c)
    ensures View(c.mmu, T, A, s.mem) && AbsentKept(c.mmu, T, A, B, s.mem) && c.regs == s.regs && c.flags == s.flags
  {
    hide Agrees, Separate, Sharing, Shows, Resident;
  }

  /** Translating keeps the simulation. */
  lemma SimTranslated(c0: Cpu, c: Cpu, m: State, T: u64 -> nat, A: iset<u64>, B: Ram, s: Ideal)
    requires Sim(c0, c, T, A, B, s) && View(m, T, A, s.mem) && SameWalks(c.mmu, m)
    ensures Sim(c0, c.(mmu := m), T, A, B, s)
  {
    SamePlaces(c.mmu, m, T, A);
    hide View, Resident, SameWalks;
    assert m.Valid() && m.efer == c.mmu.efer && m.pe == c.mmu.pe && m.cs == c.mmu.cs by { SameWalksKeep(c.mmu, m); }
  }

  lemma SameWalksKeep(s: State, m: State)
    requires s.Valid() && SameWalks(s, m)
    ensures m.Valid() && m.efer == s.efer && m.pe == s.pe && m.cs == s.cs
  {
    hide Walk;
  }

  /** Results in registers and flags keep the simulation, and so do the loop variables. */
  lemma SimResult(c0: Cpu, c: Cpu, T: u64 -> nat, A: iset<u64>, B: Ram, s: Ideal, g: Regs, f: Eflags)
    requires Sim(c0, c, T, A, B, s)
    ensures Sim(c0, c.(regs := g, flags := f), T, A, B, s.(regs := g, flags := f))
  {
    hide View, AbsentKept;
  }

  lemma SimIgnoresCursor(c0: Cpu, c: Cpu, T: u64 -> nat, A: iset<u64>, B: Ram, s: Ideal, s': Ideal)
    requires Sim(c0, c, T, A, B, s) && s' == s.(k := s'.k, over := s'.over)
    ensures Sim(c0, c, T, A, B, s')
  {
    hide View, AbsentKept;
  }

  // ---- One element ----

  /** The memory a fault may leave: the destination of the next element zeroed. */
  function Spoiled(c: Cpu, op: StringOp, T: u64 -> nat, s: Ideal): (s': Ideal)
    requires c.Valid() && s.mem.Valid()
    ensures s'.mem.Valid() && |s'.mem.data| == |s.mem.data|
  {
    s.(mem := WriteAt(s.mem, Homes(T, DestAddr(c, s.k.di), op.n), 0))
  }

  function Left(c: Cpu, op: StringOp, T: u64 -> nat, s: Ideal, spoiled: bool): (s': Ideal)
    requires c.Valid() && s.mem.Valid()
    ensures s'.mem.Valid() && |s'.mem.data| == |s.mem.data|
  {
    if spoiled then Spoiled(c, op, T, s) else s
  }

  /** A fault leaves the memory as it was, or with the next destination zeroed. */
  ghost predicate FaultsAt(c0: Cpu, c: Cpu, op: StringOp, T: u64 -> nat, A: iset<u64>, B: Ram, s: Ideal,
                           spoiled: bool)
    requires c0.Valid() && s.mem.Valid()
  {
    (spoiled ==> Spoils(c0, op, s.k)) && Sim(c0, c, T, A, B, Left(c0, op, T, s, spoiled))
  }

  /** What one element does: it faults with nothing moved, or it is the ideal element. */
  ghost predicate Stepped(c0: Cpu, c: Cpu, op: StringOp, T: u64 -> nat, A: iset<u64>, B: Ram, s: Ideal)
    requires c0.Valid() && c.Valid() && s.mem.Valid()
  {
    var (c1, src, dst) := Touch(c, op, s.k.si, s.k.di);
    if Faulted(c1) then FaultsAt(c0, c1, op, T, A, B, s, false)
    else
      var c2 := Transfer(c1, op, s.k.si, s.k.di, src, dst);
      if Faulted(c2) then FaultsAt(c0, c2, op, T, A, B, s, false) || FaultsAt(c0, c2, op, T, A, B, s, true)
      else Sim(c0, c2, T, A, B, Moved(c0, op, T, s))
  }

  /** Reading an element whose first byte is translated: its value, unless the second
      page of one that straddles faults. */
  lemma ReadStep(c0: Cpu, c: Cpu, linear: u64, phys: u64, n: Size, T: u64 -> nat, A: iset<u64>, B: Ram, s: Ideal)
    requires Sim(c0, c, T, A, B, s) && !Faulted(c) && InView(A, linear, n)
    requires Reachable(c.mmu, linear, false, false) && phys == PhysOf(c.mmu, linear)
    ensures var (m, v) := StrRead(c.mmu, phys, linear, n);
            && Sim(c0, c.(mmu := m), T, A, B, s) && SameWalks(c.mmu, m)
            && if m.pending.None? then v == ValueAt(s.mem, T, linear, n) else v == 0 && !OnePage(linear, n)
  {
    hide Access, View, AbsentKept, Reachable, PhysOf, SameWalks, ReadAt, ReadSize, ValueAt, InView, Walk, SplitAddrs,
      NextPage;
    SimParts(c0, c, T, A, B, s);
    ReachableWalks(c.mmu, linear, false);
    SameStraddle(c.mmu, linear, n);
    if Straddles(phys, n) {
      OneAccess(c0, c, NextPage(linear), false, T, A, B, s);
      var m := Access(c.mmu, NextPage(linear), false, false).0;
      if m.pending.None? {
        SimParts(c0, c.(mmu := m), T, A, B, s);
        ReachableThere(c.mmu, m, linear);
        SplitValue(m, linear, n, T, A, s.mem);
      }
    } else {
      OnePageValue(c.mmu, linear, n, T, A, s.mem);
      SameWalksReflexive(c.mmu);
    }
  }

  lemma SameWalksReflexive(s: State)
    requires s.Valid()
    ensures SameWalks(s, s)
  {
    hide Walk;
  }

  /** An element of two pages, at the addresses of its first bytes in each. */
  lemma SplitValue(s: State, linear: u64, n: Size, T: u64 -> nat, A: iset<u64>, mem: Ram)
    requires View(s, T, A, mem) && InView(A, linear, n) && !OnePage(linear, n)
    requires Reachable(s, linear, false, false) && Reachable(s, NextPage(linear), false, false)
    ensures ReadAt(s.mem, SplitAddrs(PhysOf(s, linear), PhysOf(s, NextPage(linear)), n)) == ValueAt(mem, T, linear, n)
  {
    hide View, Walk, PhysOf, Reachable, NextPage, ValueAt, InView, SplitAddrs, LinearAddrs, ReadAt;
    ViewInv(s, T, A, mem);
    ReachableWalks(s, linear, false);
    ReachableWalks(s, NextPage(linear), false);
    SplitIsLinear(s, linear, n);
    ViewReads(s, linear, n, false, T, A, mem);
  }

  /** Writing an element whose first byte is translated. Only one that straddles can
      still fault, and then it stores nothing. */
  lemma WriteStep(c0: Cpu, c: Cpu, linear: u64, phys: u64, n: Size, v: u64, T: u64 -> nat, A: iset<u64>, B: Ram,
                  s: Ideal)
    requires Sim(c0, c, T, A, B, s) && InView(A, linear, n)
    requires Reachable(c.mmu, linear, true, false) && phys == PhysOf(c.mmu, linear)
    ensures var m := StrWrite(c.mmu, phys, linear, n, v);
            && (Faulted(c) ==> m.pending.Some?) && (OnePage(linear, n) ==> m.pending == c.mmu.pending)
            && Sim(c0, c.(mmu := m), T, A, B,
                   if !OnePage(linear, n) && m.pending.Some? then s
                   else s.(mem := WriteAt(s.mem, Homes(T, linear, n), v)))
  {
    hide Access, View, AbsentKept, Reachable, PhysOf, SameWalks, WriteAt, WriteSize, InView, Walk, SplitAddrs, NextPage,
      LinearAddrs;
    SimParts(c0, c, T, A, B, s);
    ReachableWalks(c.mmu, linear, true);
    SameStraddle(c.mmu, linear, n);
    if Straddles(phys, n) {
      OneAccess(c0, c, NextPage(linear), true, T, A, B, s);
      var m := Access(c.mmu, NextPage(linear), true, false).0;
      if m.pending.None? {
        SimParts(c0, c.(mmu := m), T, A, B, s);
        ReachableThere(c.mmu, m, linear);
        ReachableWalks(m, linear, true);
        ReachableWalks(m, NextPage(linear), true);
        SplitIsLinear(m, linear, n);
        StoredStep(c0, c.(mmu := m), linear, n, v, T, A, B, s);
      }
    } else {
      InPage(c.mmu.mem, phys, n, v);
      SplitIsLinear(c.mmu, linear, n);
      StoredStep(c0, c, linear, n, v, T, A, B, s);
    }
  }

  /** Bytes stored where they are mapped are stored at their homes. */
  lemma StoredStep(c0: Cpu, c: Cpu, linear: u64, n: Size, v: u64, T: u64 -> nat, A: iset<u64>, B: Ram, s: Ideal)
    requires Sim(c0, c, T, A, B, s) && InView(A, linear, n) && c.mmu.Valid() && OperandReachable(c.mmu, linear, n, true)
    ensures Sim(c0, c.(mmu := c.mmu.(mem := WriteAt(c.mmu.mem, LinearAddrs(c.mmu, linear, n), v))), T, A, B,
                s.(mem := WriteAt(s.mem, Homes(T, linear, n), v)))
  {
    hide View, AbsentKept, OperandReachable, WriteAt, SameWalks, LinearAddrs, InView;
    SimParts(c0, c, T, A, B, s);
    var m := c.mmu.(mem := WriteAt(c.mmu.mem, LinearAddrs(c.mmu, linear, n), v));
    ViewStores(c.mmu, linear, n, v, T, A, s.mem);
    StoreKeepsAbsent(c.mmu, linear, n, v, T, A, B, s.mem);
    SimStored(c0, c, m, T, A, B, s, WriteAt(s.mem, Homes(T, linear, n), v));
  }

  lemma ViewInv(s: State, T: u64 -> nat, A: iset<u64>, mem: Ram)
    requires View(s, T, A, mem)
    ensures Inv(s) && s.Valid()
  {
    hide Agrees, Separate, Sharing, Shows;
  }

  lemma SimStored(c0: Cpu, c: Cpu, m: State, T: u64 -> nat, A: iset<u64>, B: Ram, s: Ideal, mem: Ram)
    requires Sim(c0, c, T, A, B, s) && View(m, T, A, mem) && SameWalks(c.mmu, m)
    requires AbsentKept(c.mmu, T, A, B, mem)
    ensures Sim(c0, c.(mmu := m), T, A, B, s.(mem := mem))
  {
    SamePlaces(c.mmu, m, T, A);
    SameWalksKeep(c.mmu, m);
    hide View, Resident, SameWalks;
  }

  /** An element inside one page, at the address its first byte translates to. */
  lemma OnePageValue(s: State, linear: u64, n: Size, T: u64 -> nat, A: iset<u64>, mem: Ram)
    requires View(s, T, A, mem) && Reachable(s, linear, false, false) && OnePage(linear, n) && InView(A, linear, n)
    ensures !Straddles(PhysOf(s, linear), n)
    ensures ReadSize(s.mem, PhysOf(s, linear), n) == ValueAt(mem, T, linear, n)
  {
    hide View, Walk, ReadSize, PhysOf, Reachable, Straddles, NextPage, ValueAt, InView;
    ViewInv(s, T, A, mem);
    ReachableWalks(s, linear, false);
    SameStraddle(s, linear, n);
    InPage(s.mem, PhysOf(s, linear), n, 0);
    SplitIsLinear(s, linear, n);
    ViewReads(s, linear, n, false, T, A, mem);
  }

  lemma StosStep(c0: Cpu, c: Cpu, op: StringOp, T: u64 -> nat, A: iset<u64>, B: Ram, s: Ideal)
    requires Sim(c0, c, T, A, B, s) && !Faulted(c) && ElementOk(c0, op, T, A, s) && op.kind == Stos
    ensures Stepped(c0, c, op, T, A, B, s)
  {
    hide Access, StrWrite, WriteAt, DestAddr, SourceAddr, InView, Sim, SameSegments, Reachable, PhysOf, Touch, OnePage;
    SimParts(c0, c, T, A, B, s);
    TouchStep(c0, c, op, T, A, B, s);
    var (c1, _, dst) := Touch(c, op, s.k.si, s.k.di);
    if !Faulted(c1) {
      WriteStep(c0, c1, DestAddr(c0, s.k.di), dst, op.n, RegW(c.regs, 0, op.n), T, A, B, s);
    }
  }

  lemma LodsStep(c0: Cpu, c: Cpu, op: StringOp, T: u64 -> nat, A: iset<u64>, B: Ram, s: Ideal)
    requires Sim(c0, c, T, A, B, s) && !Faulted(c) && ElementOk(c0, op, T, A, s) && op.kind == Lods
    ensures Stepped(c0, c, op, T, A, B, s)
  {
    hide Access, StrRead, DestAddr, SourceAddr, InView, Sim, SameSegments, SetRegW, ValueAt, SameWalks, Reachable,
      PhysOf, Touch, OnePage;
    SimParts(c0, c, T, A, B, s);
    TouchStep(c0, c, op, T, A, B, s);
    var (c1, src, _) := Touch(c, op, s.k.si, s.k.di);
    if !Faulted(c1) {
      var l := SourceAddr(c0, op, s.k.si);
      ReadStep(c0, c1, l, src, op.n, T, A, B, s);
      var (m, v) := StrRead(c1.mmu, src, l, op.n);
      if m.pending.None? {
        SimResult(c0, c1.(mmu := m), T, A, B, s, SetRegW(c.regs, 0, op.n, v), c.flags);
      }
    }
  }

  /** The translations of an element's first bytes. */
  lemma TouchStep(c0: Cpu, c: Cpu, op: StringOp, T: u64 -> nat, A: iset<u64>, B: Ram, s: Ideal)
    requires Sim(c0, c, T, A, B, s) && !Faulted(c)
    ensures var (c1, src, dst) := Touch(c, op, s.k.si, s.k.di);
            && c1 == c.(mmu := c1.mmu) && Sim(c0, c1, T, A, B, s)
            && SourceAddr(c1, op, s.k.si) == SourceAddr(c0, op, s.k.si) && DestAddr(c1, s.k.di) == DestAddr(c0, s.k.di)
            && (!Faulted(c1) && UsesSi(op.kind) ==>
                  var l := SourceAddr(c0, op, s.k.si);
                  Reachable(c1.mmu, l, false, false) && src == PhysOf(c1.mmu, l))
            && (!Faulted(c1) && UsesDi(op.kind) ==>
                  var l := DestAddr(c0, s.k.di);
                  Reachable(c1.mmu, l, Stores(op.kind), false) && dst == PhysOf(c1.mmu, l))
  {
    hide Access, DestAddr, SourceAddr, View, AbsentKept, Reachable, PhysOf, SameWalks, Sim;
    SimParts(c0, c, T, A, B, s);
    SameAddresses(c0, c, op, s.k);
    var l, d := SourceAddr(c, op, s.k.si), DestAddr(c, s.k.di);
    var m1 := if UsesSi(op.kind) then Access(c.mmu, l, false, false).0 else c.mmu;
    var m2 := if UsesDi(op.kind) then Access(m1, d, Stores(op.kind), false).0 else m1;
    if UsesSi(op.kind) {
      OneAccess(c0, c, l, false, T, A, B, s);
    } else {
      assert c.(mmu := m1) == c;
    }
    if UsesDi(op.kind) {
      OneAccess(c0, c.(mmu := m1), d, Stores(op.kind), T, A, B, s);
      ReachableThere(m1, m2, l);
    }
    SimParts(c0, c.(mmu := m2), T, A, B, s);
    SameAddresses(c0, c.(mmu := m2), op, s.k);
  }

  lemma OneAccess(c0: Cpu, c: Cpu, linear: u64, write: bool, T: u64 -> nat, A: iset<u64>, B: Ram, s: Ideal)
    requires Sim(c0, c, T, A, B, s)
    ensures c.mmu.Valid()
    ensures var (m, phys) := Access(c.mmu, linear, write, false);
            && Sim(c0, c.(mmu := m), T, A, B, s) && SameWalks(c.mmu, m)
            && (Faulted(c) ==> m.pending.Some?)
            && (m.pending.None? ==> Reachable(m, linear, write, false) && phys == PhysOf(m, linear))
  {
    hide Access, View, AbsentKept, Reachable, PhysOf, SameWalks;
    SimParts(c0, c, T, A, B, s);
    ViewAccess(c.mmu, linear, write, T, A, s.mem);
    var m := Access(c.mmu, linear, write, false).0;
    SimTranslated(c0, c, m, T, A, B, s);
    ReachableThere(c.mmu, m, linear);
  }

  lemma ReachableThere(s: State, m: State, linear: u64)
    requires s.Valid() && SameWalks(s, m)
    ensures m.Valid() && PhysOf(m, linear) == PhysOf(s, linear)
    ensures forall write :: Reachable(m, linear, write, false) == Reachable(s, linear, write, false)
  {
    hide Walk, Reachable;
    assert Walk(m, linear) == Walk(s, linear);
    ReachableSame(s, m, linear);
  }

  lemma CompareStep(c0: Cpu, c: Cpu, op: StringOp, T: u64 -> nat, A: iset<u64>, B: Ram, s: Ideal)
    requires Sim(c0, c, T, A, B, s) && !Faulted(c) && ElementOk(c0, op, T, A, s) && Compares(op.kind)
    ensures Stepped(c0, c, op, T, A, B, s)
  {
    hide Access, DestAddr, SourceAddr, InView, Sim, SameSegments, View, AbsentKept, Reachable, PhysOf, ReadSize,
      ValueAt, Compare, Touch, OnePage, Survives;
    SimParts(c0, c, T, A, B, s);
    TouchStep(c0, c, op, T, A, B, s);
    var c1 := Touch(c, op, s.k.si, s.k.di).0;
    if !Faulted(c1) {
      SimParts(c0, c1, T, A, B, s);
      if op.kind == Cmps { OnePageValue(c1.mmu, SourceAddr(c0, op, s.k.si), op.n, T, A, s.mem); }
      OnePageValue(c1.mmu, DestAddr(c0, s.k.di), op.n, T, A, s.mem);
      SimResult(c0, c1, T, A, B, s, c1.regs, Moved(c0, op, T, s).flags);
    }
  }

  lemma MovsStep(c0: Cpu, c: Cpu, op: StringOp, T: u64 -> nat, A: iset<u64>, B: Ram, s: Ideal)
    requires Sim(c0, c, T, A, B, s) && !Faulted(c) && ElementOk(c0, op, T, A, s) && op.kind == Movs
    ensures Stepped(c0, c, op, T, A, B, s)
  {
    hide Access, DestAddr, SourceAddr, InView, Sim, SameSegments, Reachable, PhysOf, ValueAt, StrRead, StrWrite,
      WriteAt, OnePage, SameWalks, Touch, Survives;
    SimParts(c0, c, T, A, B, s);
    TouchStep(c0, c, op, T, A, B, s);
    var (c1, src, dst) := Touch(c, op, s.k.si, s.k.di);
    if !Faulted(c1) {
      var l, d := SourceAddr(c0, op, s.k.si), DestAddr(c0, s.k.di);
      ReadStep(c0, c1, l, src, op.n, T, A, B, s);
      var (m, v) := StrRead(c1.mmu, src, l, op.n);
      ReachableThere(c1.mmu, m, d);
      WriteStep(c0, c1.(mmu := m), d, dst, op.n, v, T, A, B, s);
    }
  }

  lemma ElementStep(c0: Cpu, c: Cpu, op: StringOp, T: u64 -> nat, A: iset<u64>, B: Ram, s: Ideal)
    requires Sim(c0, c, T, A, B, s) && !Faulted(c) && s.mem.Valid() && c0.Valid() && ElementOk(c0, op, T, A, s)
    ensures Stepped(c0, c, op, T, A, B, s)
  {
    hide Sim, ElementOk, Stepped;
    SimParts(c0, c, T, A, B, s);
    match op.kind
    case Movs => MovsStep(c0, c, op, T, A, B, s);
    case Stos => StosStep(c0, c, op, T, A, B, s);
    case Lods => LodsStep(c0, c, op, T, A, B, s);
    case Cmps => CompareStep(c0, c, op, T, A, B, s);
    case Scas => CompareStep(c0, c, op, T, A, B, s);
  }

  // ---- The loop ----

  /** Where a loop stops: after exactly `j` elements, with the data, registers,
      flags and loop variables of that moment -- at the end of the run, or at an
      element that faulted and of which nothing has been stored but perhaps zeros. */
  ghost predicate StopsAt(c0: Cpu, op: StringOp, T: u64 -> nat, A: iset<u64>, B: Ram, s: Ideal, j: nat, spoiled: bool,
                          c: Cpu, k: Cursor)
    requires c0.Valid() && s.mem.Valid()
  {
    var sj := Prefix(c0, op, T, s, j);
    && FaultsAt(c0, c, op, T, A, B, sj, spoiled) && k == sj.k
    && (Faulted(c) <==> !Ended(sj)) && (spoiled ==> Faulted(c))
  }

  lemma {:induction false} LoopStops(c0: Cpu, c: Cpu, op: StringOp, T: u64 -> nat, A: iset<u64>, B: Ram, s: Ideal)
      returns (j: nat, spoiled: bool)
    requires Sim(c0, c, T, A, B, s) && !Faulted(c) && !s.over && ElementsOk(c0, op, T, A, s)
    ensures var (c', k') := Loop(c, op, s.k); StopsAt(c0, op, T, A, B, s, j, spoiled, c', k')
    decreases s.k.count
  {
    hide Touch, Transfer, Element, Sim, ElementOk, Next, Repeats, Spoils, Spoiled;
    j, spoiled := 0, false;
    if s.k.count > 0 {
      SimParts(c0, c, T, A, B, s);
      ElementStep(c0, c, op, T, A, B, s);
      var (c1, src, dst) := Touch(c, op, s.k.si, s.k.di);
      if !Faulted(c1) {
        var c2 := Transfer(c1, op, s.k.si, s.k.di, src, dst);
        if Faulted(c2) {
          spoiled := !FaultsAt(c0, c2, op, T, A, B, s, false);
        } else {
          ElementMoves(c0, c2, op, T, A, B, s);
          var s' := Element(c0, op, T, s);
          if s'.over {
            assert Prefix(c0, op, T, s', 0) == s';
            j := 1;
          } else {
            j, spoiled := LoopStops(c0, c2, op, T, A, B, s');
            j := j + 1;
          }
        }
      }
    }
  }

  /** After the data has moved the loop variables do, as in the ideal run. */
  lemma ElementMoves(c0: Cpu, c2: Cpu, op: StringOp, T: u64 -> nat, A: iset<u64>, B: Ram, s: Ideal)
    requires c0.Valid() && s.mem.Valid() && s.k.count > 0 && Sim(c0, c2, T, A, B, Moved(c0, op, T, s))
    ensures var s' := Element(c0, op, T, s);
            && Sim(c0, c2, T, A, B, s') && s'.k == Next(op, c2.flags, s.k)
            && s'.over == (Compares(op.kind) && !Repeats(c2.flags, op.rep, s'.k.count))
  {
    hide Moved, Next, Repeats, Sim;
    SimParts(c0, c2, T, A, B, Moved(c0, op, T, s));
    SimIgnoresCursor(c0, c2, T, A, B, Moved(c0, op, T, s), Element(c0, op, T, s));
  }

  /** Finishing after the first `j` elements is finishing from the start. */
  lemma {:induction false} FinishAfterPrefix(c: Cpu, op: StringOp, T: u64 -> nat, s: Ideal, j: nat)
    requires c.Valid() && s.mem.Valid()
    ensures Finish(c, op, T, Prefix(c, op, T, s, j)) == Finish(c, op, T, s)
    decreases j
  {
    hide Element;
    if j > 0 && !Ended(s) {
      FinishAfterPrefix(c, op, T, Element(c, op, T, s), j - 1);
    }
  }

  // ---- The instruction ----

  /** The ideal run from the registers and flags of `c`, on the memory `mem`. */
  function IdealStart(c: Cpu, op: StringOp, mem: Ram): Ideal {
    Ideal(mem, c.regs, c.flags, Start(op, c.regs), false)
  }

  /** A processor about to run `op` on a view of `B`. */
  ghost predicate Ready(c0: Cpu, c: Cpu, op: StringOp, T: u64 -> nat, A: iset<u64>, B: Ram) {
    && Sim(c0, c, T, A, B, IdealStart(c, op, B)) && !Faulted(c)
    && ElementsOk(c0, op, T, A, IdealStart(c, op, B))
  }

  /** The state an execution leaves: the view is of the ideal memory after `j`
      elements, and the index and count registers name the next element. */
  ghost predicate Leaves(c0: Cpu, op: StringOp, T: u64 -> nat, A: iset<u64>, B: Ram, s: Ideal, c': Cpu)
    requires c0.Valid() && s.mem.Valid()
  {
    && SameSegments(c0, c') && c'.Valid()
    && View(c'.mmu, T, A, s.mem) && AbsentKept(c'.mmu, T, A, B, s.mem)
    && c'.regs == Recorded(op, s.regs, s.k) && c'.flags == s.flags
  }

  /** An execution stops after some `j` elements: at the end of the run, or at the
      element that faulted, with SI, DI and CX naming exactly that element,
      everything before it done and nothing of it or after it stored -- but for the
      zeros a MOVS that `Spoils` may leave in its destination. */
  lemma ExecStops(c0: Cpu, c: Cpu, op: StringOp, T: u64 -> nat, A: iset<u64>, B: Ram) returns (j: nat, spoiled: bool)
    requires Ready(c0, c, op, T, A, B)
    ensures var c', s := Exec(c, op), IdealStart(c, op, B);
            var sj := Prefix(c0, op, T, s, j);
            && Leaves(c0, op, T, A, B, Left(c0, op, T, sj, spoiled), c') && (Faulted(c') <==> !Ended(sj))
            && (spoiled ==> Faulted(c') && Spoils(c0, op, sj.k))
  {
    hide Loop, Prefix, ElementsOk, View, AbsentKept, Recorded, Start, Spoils, WriteAt, DestAddr;
    j, spoiled := LoopStops(c0, c, op, T, A, B, IdealStart(c, op, B));
  }

  // ---- Ideal states that finish alike ----

  function AddrRange(a: AddrSize): nat { if a == 8 then TWO64 else if a == 4 then TWO32 else 0x1_0000 }

  predicate Written(op: StringOp, i: RegNo) {
    (i == SI && UsesSi(op.kind)) || (i == DI && UsesDi(op.kind)) || (i == CX && op.rep != NoRep)
  }

  /** `g'` is `g` but for the part of the index and count registers that the end
      of the instruction rewrites. */
  ghost predicate SameButIndices(op: StringOp, g: Regs, g': Regs) {
    forall i: RegNo :: if Written(op, i) then op.asize == 2 ==> g[i] / 0x1_0000 == g'[i] / 0x1_0000 else g[i] == g'[i]
  }

  ghost predicate Alike(op: StringOp, D: iset<nat>, s: Ideal, s': Ideal) {
    && s.mem.Valid() && s'.mem.Valid() && SameInside(s.mem, s'.mem, D)
    && SameButIndices(op, s.regs, s'.regs) && s'.flags == s.flags && s'.k == s.k && s'.over == s.over
  }

  lemma AlikeTransitive(op: StringOp, D: iset<nat>, s: Ideal, s': Ideal, s'': Ideal)
    requires Alike(op, D, s, s') && Alike(op, D, s', s'')
    ensures Alike(op, D, s, s'')
  {
  }

  lemma RecordedAlike(op: StringOp, g: Regs, g': Regs, k: Cursor)
    requires SameButIndices(op, g, g')
    ensures Recorded(op, g, k) == Recorded(op, g', k)
  {
    var h, h' := Recorded(op, g, k), Recorded(op, g', k);
    forall i: RegNo ensures h[i] == h'[i] {
      assert if Written(op, i) then op.asize == 2 ==> g[i] / 0x1_0000 == g'[i] / 0x1_0000 else g[i] == g'[i];
    }
  }

  /** Writing `v` to the low `asize` bytes keeps what is above and reads back. */
  lemma SetThenGet(g: Regs, i: RegNo, a: AddrSize, v: u64)
    requires v < AddrRange(a)
    ensures RegW(SetRegW(g, i, a, v), i, a) == v
    ensures a == 2 ==> SetRegW(g, i, a, v)[i] / 0x1_0000 == g[i] / 0x1_0000
  {
    if a == 2 {
      Division.DivUnique(g[i] / 0x1_0000 * 0x1_0000 + v, 0x1_0000, g[i] / 0x1_0000, v);
    }
  }

  lemma RecordedKeeps(op: StringOp, g: Regs, k: Cursor)
    requires k.si < AddrRange(op.asize) && k.di < AddrRange(op.asize) && k.count < AddrRange(op.asize)
    ensures SameButIndices(op, g, Recorded(op, g, k))
    ensures UsesSi(op.kind) ==> RegW(Recorded(op, g, k), SI, op.asize) == k.si
    ensures UsesDi(op.kind) ==> RegW(Recorded(op, g, k), DI, op.asize) == k.di
    ensures op.rep != NoRep ==> RegW(Recorded(op, g, k), CX, op.asize) == k.count
    ensures !UsesSi(op.kind) ==> Recorded(op, g, k)[SI] == g[SI]
    ensures !UsesDi(op.kind) ==> Recorded(op, g, k)[DI] == g[DI]
  {
    hide AddrRange;
    var g1 := if UsesSi(op.kind) then SetRegW(g, SI, op.asize, k.si) else g;
    var g2 := if UsesDi(op.kind) then SetRegW(g1, DI, op.asize, k.di) else g1;
    SetThenGet(g, SI, op.asize, k.si);
    SetThenGet(g1, DI, op.asize, k.di);
    SetThenGet(g2, CX, op.asize, k.count);
  }

  /** The loop variables stay within the address size; those an instruction does
      not use, and the single count without REP, stay as they started. */
  predicate CursorFits(op: StringOp, g: Regs, k: Cursor) {
    && k.si < AddrRange(op.asize) && k.di < AddrRange(op.asize) && k.count < AddrRange(op.asize)
    && (!UsesSi(op.kind) ==> k.si == RegW(g, SI, op.asize))
    && (!UsesDi(op.kind) ==> k.di == RegW(g, DI, op.asize))
    && (op.rep == NoRep ==> k.count <= 1)
  }

  lemma StartFits(op: StringOp, g: Regs)
    ensures CursorFits(op, g, Start(op, g))
  {
  }

  lemma ElementFits(c: Cpu, op: StringOp, T: u64 -> nat, s: Ideal, g: Regs)
    requires c.Valid() && s.mem.Valid() && s.k.count > 0 && CursorFits(op, g, s.k)
    ensures CursorFits(op, g, Element(c, op, T, s).k)
    ensures forall i: RegNo :: i != 0 ==> Element(c, op, T, s).regs[i] == s.regs[i]
  {
    hide ValueAt, WriteAt, Compare, SourceAddr, DestAddr, Repeats, RegW;
  }

  lemma {:induction false} PrefixFits(c: Cpu, op: StringOp, T: u64 -> nat, A: iset<u64>, s: Ideal, g: Regs, j: nat)
    requires c.Valid() && s.mem.Valid() && CursorFits(op, g, s.k) && ElementsOk(c, op, T, A, s)
    ensures var sj := Prefix(c, op, T, s, j);
            && CursorFits(op, g, sj.k) && ElementsOk(c, op, T, A, sj)
            && forall i: RegNo :: i != 0 ==> sj.regs[i] == s.regs[i]
    decreases j
  {
    hide Element, CursorFits, ElementOk;
    if j > 0 && !Ended(s) {
      ElementFits(c, op, T, s, g);
      PrefixFits(c, op, T, A, Element(c, op, T, s), g, j - 1);
    }
  }

  // ---- Memories that agree at the homes go on agreeing ----

  ghost function HomesOf(T: u64 -> nat, A: iset<u64>): iset<nat> { iset l: u64 | l in A :: T(l) }

  lemma SameValue(mem: Ram, mem': Ram, T: u64 -> nat, A: iset<u64>, linear: u64, n: Size)
    requires mem.Valid() && SameInside(mem, mem', HomesOf(T, A)) && InView(A, linear, n)
    ensures mem'.Valid() && ValueAt(mem', T, linear, n) == ValueAt(mem, T, linear, n)
  {
    hide ReadU8;
    var homes := Homes(T, linear, n);
    forall i: nat | i < n ensures ReadU8(mem', homes[i]) == ReadU8(mem, homes[i]) {
      assert Bytes(linear, n)[i] in A && homes[i] in HomesOf(T, A);
    }
    ReadAlike(mem', homes, mem, homes);
  }

  lemma MovedAlike(c: Cpu, op: StringOp, T: u64 -> nat, A: iset<u64>, s: Ideal, s': Ideal)
    requires c.Valid() && Alike(op, HomesOf(T, A), s, s') && ElementOk(c, op, T, A, s)
    ensures Alike(op, HomesOf(T, A), Moved(c, op, T, s), Moved(c, op, T, s'))
  {
    hide ValueAt, WriteAt, Compare, SourceAddr, DestAddr, SameInside, SameButIndices, InView, OnePage, HomesOf,
      Survives;
    var src, dst, H := SourceAddr(c, op, s.k.si), DestAddr(c, s.k.di), HomesOf(T, A);
    if UsesSi(op.kind) { SameValue(s.mem, s'.mem, T, A, src, op.n); }
    if op.kind == Movs {
      SameWriteAt(s.mem, s'.mem, Homes(T, dst, op.n), ValueAt(s.mem, T, src, op.n), H);
    } else if op.kind == Stos {
      SameWriteAt(s.mem, s'.mem, Homes(T, dst, op.n), RegW(s.regs, 0, op.n), H);
    } else if op.kind == Lods {
      AccAlike(op, s.regs, s'.regs, ValueAt(s.mem, T, src, op.n));
    } else {
      SameValue(s.mem, s'.mem, T, A, dst, op.n);
    }
    SameAcc(op, s.regs, s'.regs);
  }

  lemma ElementAlike(c: Cpu, op: StringOp, T: u64 -> nat, A: iset<u64>, s: Ideal, s': Ideal)
    requires c.Valid() && Alike(op, HomesOf(T, A), s, s') && s.k.count > 0 && ElementOk(c, op, T, A, s)
    ensures Alike(op, HomesOf(T, A), Element(c, op, T, s), Element(c, op, T, s'))
  {
    hide Moved, Next, Repeats, SameInside, SameButIndices, HomesOf;
    MovedAlike(c, op, T, A, s, s');
  }

  lemma SameAcc(op: StringOp, g: Regs, g': Regs)
    requires SameButIndices(op, g, g')
    ensures g'[0] == g[0]
  {
    assert !Written(op, 0);
  }

  lemma AccAlike(op: StringOp, g: Regs, g': Regs, v: u64)
    requires SameButIndices(op, g, g')
    ensures SameButIndices(op, SetRegW(g, 0, op.n, v), SetRegW(g', 0, op.n, v))
  {
    SameAcc(op, g, g');
  }

  lemma SameSlots(mem: Ram, mem': Ram, a: nat)
    requires mem.Valid() && mem'.Valid() && |mem'.data| == |mem.data|
    ensures Slot(mem', a) == Slot(mem, a)
  {
  }

  lemma SameElementOk(c: Cpu, op: StringOp, T: u64 -> nat, A: iset<u64>, s: Ideal, s': Ideal)
    requires c.Valid() && Alike(op, HomesOf(T, A), s, s') && ElementOk(c, op, T, A, s)
    ensures ElementOk(c, op, T, A, s')
  {
    hide SourceAddr, DestAddr, InView, OnePage, SameButIndices, Survives, SameInside, HomesOf;
    if Spoils(c, op, s.k) {
      SameSurvival(s.mem, s'.mem, T, A, SourceAddr(c, op, s.k.si), DestAddr(c, s.k.di), op.n);
    }
  }

  lemma SameSurvival(mem: Ram, mem': Ram, T: u64 -> nat, A: iset<u64>, src: u64, dst: u64, n: Size)
    requires mem.Valid() && SameInside(mem, mem', HomesOf(T, A)) && InView(A, src, n) && Survives(mem, T, src, dst, n)
    ensures mem'.Valid() && Survives(mem', T, src, dst, n)
  {
    hide ReadU8;
    var homes := Homes(T, src, n);
    forall i: nat | i < n ensures ReadU8(mem', homes[i]) == ReadU8(mem, homes[i]) {
      assert Bytes(src, n)[i] in A && homes[i] in HomesOf(T, A);
    }
    forall i: nat | i < n ensures Slot(mem', homes[i]) == Slot(mem, homes[i]) { SameSlots(mem, mem', homes[i]); }
  }

  lemma {:induction false} FinishAlike(c: Cpu, op: StringOp, T: u64 -> nat, A: iset<u64>, s: Ideal, s': Ideal)
    requires c.Valid() && Alike(op, HomesOf(T, A), s, s') && ElementsOk(c, op, T, A, s)
    ensures Alike(op, HomesOf(T, A), Finish(c, op, T, s), Finish(c, op, T, s'))
    ensures ElementsOk(c, op, T, A, s')
    decreases s.k.count
  {
    hide Element, ElementOk, SameInside, SameButIndices, HomesOf;
    if !Ended(s) {
      ElementAlike(c, op, T, A, s, s');
      SameElementOk(c, op, T, A, s, s');
      FinishAlike(c, op, T, A, Element(c, op, T, s), Element(c, op, T, s'));
    }
  }

  // ---- A zeroed destination is written over ----

  /** Two memories that differ at most at `addrs` are one once those are written. */
  lemma {:induction false} Overwritten(mem: Ram, mem': Ram, addrs: seq<nat>, v: nat)
    requires mem.Valid() && mem'.Valid() && mem'.lowSize == mem.lowSize && |mem'.data| == |mem.data|
    requires forall i: nat :: i < |mem.data| && Some(i) !in SlotsOf(mem, addrs) ==> mem'.data[i] == mem.data[i]
    ensures WriteAt(mem', addrs, v) == WriteAt(mem, addrs, v)
    decreases |addrs|
  {
    if addrs == [] {
      assert mem'.data == mem.data;
    } else {
      var m, m' := WriteU8(mem, addrs[0], v % 256), WriteU8(mem', addrs[0], v % 256);
      assert forall a: nat :: Slot(m, a) == Slot(mem, a) && Slot(mem', a) == Slot(mem, a);
      assert SlotsOf(m, addrs[1..]) == SlotsOf(mem, addrs)[1..];
      Overwritten(m, m', addrs[1..], v / 256);
    }
  }

  function SlotsOf(mem: Ram, addrs: seq<nat>): (slots: seq<Option<nat>>)
    requires mem.Valid()
    ensures |slots| == |addrs|
  {
    seq<Option<nat>>(|addrs|, i requires 0 <= i < |addrs| => Slot(mem, addrs[i]))
  }

  /** Zeros are what is read back, and nothing else has changed. */
  lemma {:induction false} Zeroed(mem: Ram, addrs: seq<nat>)
    requires mem.Valid()
    ensures var z := WriteAt(mem, addrs, 0);
            && z.lowSize == mem.lowSize
            && (forall i: nat :: i < |mem.data| && Some(i) !in SlotsOf(mem, addrs) ==> z.data[i] == mem.data[i])
            && forall a :: a in addrs && Slot(mem, a).Some? ==> ReadU8(z, a) == 0
    decreases |addrs|
  {
    if addrs != [] {
      var m := WriteU8(mem, addrs[0], 0);
      assert forall a: nat :: Slot(m, a) == Slot(mem, a);
      assert SlotsOf(m, addrs[1..]) == SlotsOf(mem, addrs)[1..];
      Zeroed(m, addrs[1..]);
      if addrs[0] !in addrs[1..] { WriteAtFrame(m, addrs[1..], 0, addrs[0]); }
      var slots := SlotsOf(mem, addrs);
      assert slots == [slots[0]] + slots[1..];
    }
  }

  lemma {:induction false} SameReadSameBytes(mem: Ram, mem': Ram, addrs: seq<nat>, i: nat)
    requires mem.Valid() && mem'.Valid() && ReadAt(mem, addrs) == ReadAt(mem', addrs) && i < |addrs|
    ensures ReadU8(mem, addrs[i]) == ReadU8(mem', addrs[i])
    decreases |addrs|
  {
    var a, b, q, q' := ReadU8(mem, addrs[0]), ReadU8(mem', addrs[0]), ReadAt(mem, addrs[1..]), ReadAt(mem', addrs[1..]);
    Division.DivUnique(a + 256 * q, 256, q, a);
    Division.DivUnique(b + 256 * q', 256, q', b);
    if i > 0 { SameReadSameBytes(mem, mem', addrs[1..], i - 1); }
  }

  /** A source is the same after its destination has been zeroed exactly when every
      byte the two share is zero already. */
  lemma SourceSurvives(c: Cpu, op: StringOp, T: u64 -> nat, s: Ideal)
    requires c.Valid() && s.mem.Valid()
    ensures var src, dst := SourceAddr(c, op, s.k.si), DestAddr(c, s.k.di);
            ValueAt(Spoiled(c, op, T, s).mem, T, src, op.n) == ValueAt(s.mem, T, src, op.n)
            <==> Survives(s.mem, T, src, dst, op.n)
  {
    hide SourceAddr, DestAddr, WriteAt, ReadAt, ReadU8, Slot, Bytes;
    var src, dst, n, mem := SourceAddr(c, op, s.k.si), DestAddr(c, s.k.di), op.n, s.mem;
    var homes, H, z := Homes(T, src, n), Homes(T, dst, n), Spoiled(c, op, T, s).mem;
    Zeroed(mem, H);
    forall i: nat | i < n
      ensures homes[i] !in H || Slot(mem, homes[i]).None? ==> ReadU8(z, homes[i]) == ReadU8(mem, homes[i])
    {
      if homes[i] !in H { WriteAtFrame(mem, H, 0, homes[i]); } else { OpenBus(mem, z, homes[i]); }
    }
    if Survives(mem, T, src, dst, n) {
      SameBytesReadAt(mem, z, homes);
    }
    if ReadAt(z, homes) == ReadAt(mem, homes) {
      forall i: nat | i < n
        ensures ReadU8(z, homes[i]) == ReadU8(mem, homes[i])
      {
        SameReadSameBytes(z, mem, homes, i);
      }
    }
  }

  lemma OpenBus(mem: Ram, z: Ram, a: nat)
    requires mem.Valid() && z.Valid() && z.lowSize == mem.lowSize && |z.data| == |mem.data|
    ensures Slot(z, a) == Slot(mem, a) && (Slot(mem, a).None? ==> ReadU8(z, a) == ReadU8(mem, a))
  {
  }

  /** The element whose destination was zeroed ends as if it had not been, and so does
      the run. */
  lemma SpoiledFinishes(c: Cpu, op: StringOp, T: u64 -> nat, A: iset<u64>, s: Ideal)
    requires c.Valid() && s.mem.Valid() && !Ended(s) && Spoils(c, op, s.k) && ElementsOk(c, op, T, A, s)
    ensures Finish(c, op, T, Spoiled(c, op, T, s)) == Finish(c, op, T, s)
    ensures ElementsOk(c, op, T, A, Spoiled(c, op, T, s))
  {
    hide SourceAddr, DestAddr, WriteAt, OnePage, InView, ValueAt, Survives;
    var src, dst, n := SourceAddr(c, op, s.k.si), DestAddr(c, s.k.di), op.n;
    var H, z := Homes(T, dst, n), Spoiled(c, op, T, s);
    SourceSurvives(c, op, T, s);
    Zeroed(s.mem, H);
    Overwritten(s.mem, z.mem, H, ValueAt(s.mem, T, src, n));
    assert Element(c, op, T, z) == Element(c, op, T, s);
    StillSurvives(s.mem, T, src, dst, n);
  }

  lemma StillSurvives(mem: Ram, T: u64 -> nat, src: u64, dst: u64, n: Size)
    requires mem.Valid()
    ensures Survives(WriteAt(mem, Homes(T, dst, n), 0), T, src, dst, n)
  {
    hide WriteAt, ReadU8, Slot, Bytes;
    Zeroed(mem, Homes(T, dst, n));
    forall i: nat | i < n { OpenBus(mem, WriteAt(mem, Homes(T, dst, n), 0), Homes(T, src, n)[i]); }
  }

  // ---- Fault, repair, restart ----

  /** The handler dropped the fault and made what repairs it liked. Registers and
      flags are as the fault left them. `B` holds every byte of the run at its home,
      mapped or not: a byte mapped when the fault struck is afterwards, wherever it
      now is or paged out, what it was; a byte that was absent is, when it is mapped,
      what `B` had for it. Frames may be filled, copied, moved and taken away. */
  ghost predicate Repaired(c0: Cpu, c: Cpu, c': Cpu, T: u64 -> nat, A: iset<u64>, B: Ram, B': Ram)
    requires c.Valid()
  {
    && c' == c.(mmu := c'.mmu) && c'.Valid() && !Faulted(c') && SameSegments(c0, c')
    && AbsentKept(c.mmu, T, A, B, B') && Shows(c.mmu, c.mmu.mem, T, A, B')
    && View(c'.mmu, T, A, B')
  }

  /** Mapped or absent, a byte has one value: two memories that agree with the machine
      on the bytes it maps, and with a third on the rest, agree. */
  lemma OneBacking(m: State, T: u64 -> nat, A: iset<u64>, B: Ram, mem: Ram, mem': Ram)
    requires m.Valid() && AbsentKept(m, T, A, B, mem) && AbsentKept(m, T, A, B, mem')
    requires Shows(m, m.mem, T, A, mem) && Shows(m, m.mem, T, A, mem')
    ensures SameInside(mem, mem', HomesOf(T, A))
  {
    hide Walk, PhysOf, ReadU8, Slot;
    forall a: nat | a in HomesOf(T, A)
      ensures ReadU8(mem', a) == ReadU8(mem, a)
    {
      var l: u64 :| l in A && T(l) == a;
      if Resident(m, T, A, a) {
        var q: u64 :| q in A && Walk(m, q).Some? && T(q) == a;
        assert SameByte(m.mem, PhysOf(m, q), mem, T(q)) && SameByte(m.mem, PhysOf(m, q), mem', T(q));
      }
    }
  }

  /** After the repair byte `l` holds what the machine had for it when the fault struck,
      or, if no byte with its home was mapped then, what `B` has. */
  ghost predicate BroughtBack(m: State, m': State, T: u64 -> nat, A: iset<u64>, B: Ram, l: u64)
    requires m.Valid() && m'.Valid() && B.Valid()
  {
    && (forall q: u64 :: q in A && Walk(m, q).Some? && T(q) == T(l) ==>
          SameByte(m.mem, PhysOf(m, q), m'.mem, PhysOf(m', l)))
    && (!Resident(m, T, A, T(l)) ==> SameByte(m'.mem, PhysOf(m', l), B, T(l)))
  }

  /** A repair is judged on the machine alone: whenever the bytes mapped after it are
      brought back, there is a memory that holds every byte of the run as it then is. */
  lemma RepairHasBacking(c0: Cpu, c: Cpu, c': Cpu, op: StringOp, T: u64 -> nat, A: iset<u64>, B: Ram) returns (B': Ram)
    requires Ready(c0, c, op, T, A, B) && Faulted(Exec(c, op)) && B.Valid()
    requires c' == Exec(c, op).(mmu := c'.mmu) && c'.Valid() && !Faulted(c') && SameSegments(c0, c')
    requires Inv(c'.mmu) && Separate(c'.mmu, DataOf(c'.mmu, A)) && Sharing(c'.mmu, T, A)
    requires forall l: u64 :: l in A && Walk(c'.mmu, l).Some? ==> BroughtBack(Exec(c, op).mmu, c'.mmu, T, A, B, l)
    ensures Repaired(c0, Exec(c, op), c', T, A, B, B')
  {
    hide Exec, Prefix, ElementsOk, SameSegments, Walk, PhysOf, Agrees, Separate, Sharing, Ready, Recorded, ReadU8, Slot;
    ReadyValid(c0, c, op, T, A, B);
    var m, m' := Exec(c, op).mmu, c'.mmu;
    var j, spoiled := ExecStops(c0, c, op, T, A, B);
    B' := Left(c0, op, T, Prefix(c0, op, T, IdealStart(c, op, B), j), spoiled).mem;
    forall l: u64 | l in A && Walk(m', l).Some?
      ensures SameByte(m'.mem, PhysOf(m', l), B', T(l))
    {
      assert BroughtBack(m, m', T, A, B, l);
      if Resident(m, T, A, T(l)) {
        var q: u64 :| q in A && Walk(m, q).Some? && T(q) == T(l);
        assert SameByte(m.mem, PhysOf(m, q), B', T(q));
      } else {
        SameSlots(B, B', T(l));
      }
    }
  }

  lemma ReadyValid(c0: Cpu, c: Cpu, op: StringOp, T: u64 -> nat, A: iset<u64>, B: Ram)
    requires Ready(c0, c, op, T, A, B)
    ensures c0.Valid() && c.Valid() && B.Valid()
  {
  }

  /** The restarted instruction begins where the faulted one stopped. */
  lemma RestartBegins(c0: Cpu, c: Cpu, c': Cpu, op: StringOp, T: u64 -> nat, A: iset<u64>, B: Ram, B': Ram)
    requires Ready(c0, c, op, T, A, B) && Faulted(Exec(c, op)) && Repaired(c0, Exec(c, op), c', T, A, B, B')
    ensures Ready(c0, c', op, T, A, B')
    ensures Alike(op, HomesOf(T, A), Finish(c0, op, T, IdealStart(c, op, B)), Finish(c0, op, T, IdealStart(c', op, B')))
  {
    hide Element, SameInside, SameButIndices, Exec, Prefix, Finish, Recorded, ElementsOk, SameSegments, Start,
      AddrRange, RegW, AbsentKept, Shows, Sharing, Agrees, Separate, HomesOf;
    var s, s' := IdealStart(c, op, B), IdealStart(c', op, B');
    var j, spoiled := ExecStops(c0, c, op, T, A, B);
    var sj := Prefix(c0, op, T, s, j);
    var sl := Left(c0, op, T, sj, spoiled);
    StartFits(op, c.regs);
    PrefixFits(c0, op, T, A, s, c.regs, j);
    if spoiled { SpoiledFinishes(c0, op, T, A, sj); }
    RecordedKeeps(op, sj.regs, sj.k);
    OneBacking(Exec(c, op).mmu, T, A, B, sl.mem, B');
    assert s'.k == sj.k by { RestartCursor(op, c.regs, sj, c'.regs); }
    assert Alike(op, HomesOf(T, A), sl, s');
    FinishAlike(c0, op, T, A, sl, s');
    FinishAfterPrefix(c0, op, T, s, j);
    AbsentReflexive(c'.mmu, T, A, B');
  }

  lemma AbsentReflexive(m: State, T: u64 -> nat, A: iset<u64>, B: Ram)
    requires m.Valid() && B.Valid()
    ensures AbsentKept(m, T, A, B, B)
  {
  }

  lemma RestartCursor(op: StringOp, g: Regs, sj: Ideal, g': Regs)
    requires CursorFits(op, g, sj.k) && !Ended(sj) && g' == Recorded(op, sj.regs, sj.k)
    requires forall i: RegNo :: i != 0 ==> sj.regs[i] == g[i]
    ensures Start(op, g') == sj.k
  {
    hide Recorded, AddrRange;
    RecordedKeeps(op, sj.regs, sj.k);
  }

  /** A fault-repair-restart history of one string instruction: `backing[k]` is what
      the bytes of the run hold, mapped or not, at start `k`. */
  ghost predicate History(starts: seq<Cpu>, backing: seq<Ram>, op: StringOp, T: u64 -> nat, A: iset<u64>) {
    && |backing| == |starts| > 0 && Ready(starts[0], starts[0], op, T, A, backing[0])
    && (forall k :: 0 <= k < |starts| ==> starts[k].Valid() && backing[k].Valid())
    && forall k :: 0 <= k < |starts| - 1 ==>
         && Faulted(Exec(starts[k], op))
         && Repaired(starts[0], Exec(starts[k], op), starts[k + 1], T, A, backing[k], backing[k + 1])
  }

  lemma {:induction false} HistoryHolds(starts: seq<Cpu>, backing: seq<Ram>, op: StringOp, T: u64 -> nat, A: iset<u64>,
                                        k: nat)
    requires History(starts, backing, op, T, A) && k < |starts|
    ensures Ready(starts[0], starts[k], op, T, A, backing[k])
    ensures Alike(op, HomesOf(T, A), Finish(starts[0], op, T, IdealStart(starts[0], op, backing[0])),
                  Finish(starts[0], op, T, IdealStart(starts[k], op, backing[k])))
    decreases k
  {
    hide Ready, Exec, Repaired, Finish, SameButIndices, SameInside, HomesOf;
    var c0 := starts[0];
    if k == 0 {
      SelfAlike(op, HomesOf(T, A), Finish(c0, op, T, IdealStart(c0, op, backing[0])));
    } else {
      HistoryHolds(starts, backing, op, T, A, k - 1);
      var c, B := starts[k - 1], backing[k - 1];
      assert Faulted(Exec(c, op)) && Repaired(c0, Exec(c, op), starts[k], T, A, B, backing[k]);
      RestartBegins(c0, c, starts[k], op, T, A, B, backing[k]);
      AlikeTransitive(op, HomesOf(T, A), Finish(c0, op, T, IdealStart(c0, op, backing[0])),
                      Finish(c0, op, T, IdealStart(c, op, B)),
                      Finish(c0, op, T, IdealStart(starts[k], op, backing[k])));
    }
  }

  lemma SelfAlike(op: StringOp, D: iset<nat>, s: Ideal)
    requires s.mem.Valid()
    ensures Alike(op, D, s, s)
  {
  }

  /** REP restart transparency. For any count, direction, address size and element
      size, and any number of faults each repaired before the next execution, the run
      ends with the registers and flags of the whole instruction executed from the
      first start with nothing faulting, on a memory that has what the machine showed
      at the first start and, for bytes absent then, what the repairs brought in; and
      every byte of it ends as in that run, mapped or not. */
  lemma RestartTransparent(starts: seq<Cpu>, backing: seq<Ram>, op: StringOp, T: u64 -> nat, A: iset<u64>)
    requires History(starts, backing, op, T, A) && !Faulted(Exec(starts[|starts| - 1], op))
    ensures var whole := Finish(starts[0], op, T, IdealStart(starts[0], op, backing[0]));
            var c' := Exec(starts[|starts| - 1], op);
            && c'.regs == Recorded(op, whole.regs, whole.k)
            && c'.flags == whole.flags
            && Shows(c'.mmu, c'.mmu.mem, T, A, whole.mem)
            && AbsentKept(c'.mmu, T, A, backing[|starts| - 1], whole.mem)
  {
    hide Ready, Exec, Repaired, SameButIndices, SameInside, Prefix, Element, Recorded, Agrees, Separate, Sharing, Shows,
      AbsentKept, HomesOf;
    var c0, last, B := starts[0], starts[|starts| - 1], backing[|starts| - 1];
    HistoryHolds(starts, backing, op, T, A, |starts| - 1);
    var j, _ := ExecStops(c0, last, op, T, A, B);
    var s := IdealStart(last, op, B);
    var sj := Prefix(c0, op, T, s, j);
    FinishAfterPrefix(c0, op, T, s, j);
    assert Finish(c0, op, T, sj) == sj;
    var whole := Finish(c0, op, T, IdealStart(c0, op, backing[0]));
    RecordedAlike(op, whole.regs, sj.regs, sj.k);
    ViewAlike(Exec(last, op).mmu, T, A, B, sj.mem, whole.mem);
  }

  lemma ViewAlike(m: State, T: u64 -> nat, A: iset<u64>, B: Ram, mem: Ram, whole: Ram)
    requires m.Valid() && whole.Valid() && SameInside(whole, mem, HomesOf(T, A))
    requires Shows(m, m.mem, T, A, mem) && AbsentKept(m, T, A, B, mem)
    ensures Shows(m, m.mem, T, A, whole) && AbsentKept(m, T, A, B, whole)
  {
    hide Walk, PhysOf, Resident;
    forall l: u64 | l in A ensures ReadU8(mem, T(l)) == ReadU8(whole, T(l)) { assert T(l) in HomesOf(T, A); }
    forall l: u64 | l in A && Walk(m, l).Some?
      ensures SameByte(m.mem, PhysOf(m, l), whole, T(l))
    {
      assert SameByte(m.mem, PhysOf(m, l), mem, T(l));
      assert whole.lowSize == mem.lowSize;
    }
  }

  // ---- Where an element may not straddle ----

  /** A MOVS that faults after its first translations has stored nothing when its
      destination straddles; when it does not, the source does, its second page is
      the one that faulted, and the destination has been overwritten with zero. */
  lemma MovsFault(c: Cpu, op: StringOp, si: u64, di: u64, src: u64, dst: u64, D: iset<nat>)
    requires c.Valid() && Inv(c.mmu) && Separate(c.mmu, D) && !Faulted(c) && op.kind == Movs
    ensures var m, c' := StrRead(c.mmu, src, SourceAddr(c, op, si), op.n).0, Transfer(c, op, si, di, src, dst);
            && SameInside(c.mmu.mem, m.mem, D)
            && (Faulted(c') ==>
                  if op.n > 1 && Straddles(dst, op.n) then SameInside(c.mmu.mem, c'.mmu.mem, D)
                  else op.n > 1 && Straddles(src, op.n) && c'.mmu.mem == WriteSize(m.mem, dst, op.n, 0))
  {
    hide Access, Inv, Separate, SameInside, WriteSize, ReadSize, ReadAt, Straddles, SourceAddr, DestAddr, NextPage,
      WriteAt, Translated;
    var l, d := SourceAddr(c, op, si), DestAddr(c, di);
    SameSelfInside(c.mmu.mem, D);
    AnyAccess(c.mmu, NextPage(l), false, D);
    var m := StrRead(c.mmu, src, l, op.n).0;
    AnyAccess(m, NextPage(d), true, D);
    SameInsideTransitive(c.mmu.mem, m.mem, Access(m, NextPage(d), true, false).0.mem, D);
    if m.pending.Some? { PendingPassesThrough(m, NextPage(d), true); }
  }

  lemma SameSelfInside(mem: Ram, D: iset<nat>)
    requires mem.Valid()
    ensures SameInside(mem, mem, D)
  {
  }

  /** CMPS and SCAS take an operand from consecutive physical bytes: its own, exactly
      when it lies in one page or its second page follows the first in memory. */
  lemma ComparedBytes(s: State, linear: u64, n: Size)
    requires s.Valid() && Walk(s, linear).Some?
    requires !OnePage(linear, n) ==> Walk(s, NextPage(linear)).Some?
    ensures Run(PhysOf(s, linear), n) == LinearAddrs(s, linear, n) <==>
              OnePage(linear, n) || PhysOf(s, NextPage(linear)) == PhysOf(s, linear) / 0x1000 * 0x1000 + 0x1000
  {
    hide Walk, NextPage, PhysOf;
    SplitIsLinear(s, linear, n);
    PhysOffset(s, linear);
    var run, addrs, first := Run(PhysOf(s, linear), n), LinearAddrs(s, linear, n), 0x1000 - linear % 0x1000;
    if !OnePage(linear, n) {
      assert addrs[first] == PhysOf(s, NextPage(linear)) && run[first] == PhysOf(s, linear) + first;
    }
  }
}
