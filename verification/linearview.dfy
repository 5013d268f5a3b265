/** Data as a program sees it, by linear address: a memory that holds every byte at
    its home, and a machine whose page tables show some of those bytes somewhere. */
module LinearView {
  import opened Words
  import opened Memory
  import opened Paging
  import opened Mmu
  import opened TlbRefinement
  import opened AddressSpace
  import opened Operands
  import opened SplitAccess
  import opened DataAccess
  import opened Strings

  ghost predicate SameByte(mem: Ram, a: nat, mem': Ram, h: nat)
    requires mem.Valid() && mem'.Valid()
  {
    ReadU8(mem, a) == ReadU8(mem', h) && (Slot(mem, a).Some? <==> Slot(mem', h).Some?)
  }

  /** Where the machine keeps the bytes of `A` that are mapped. */
  ghost function DataOf(s: State, A: iset<u64>): iset<nat>
    requires s.Valid()
  {
    iset l: u64 | l in A && Walk(s, l).Some? :: PhysOf(s, l)
  }

  /** Bytes with one home are one byte of the machine; and where a store could go
      through one of them, the converse. Read-only bytes may share a frame for as
      long as nothing is stored through it, as pages about to be copied on write do. */
  ghost predicate Sharing(s: State, T: u64 -> nat, A: iset<u64>)
    requires s.Valid()
  {
    forall l: u64, m: u64 :: l in A && m in A && Walk(s, l).Some? && Walk(s, m).Some? ==>
      && (T(l) == T(m) ==> PhysOf(s, l) == PhysOf(s, m))
      && (PhysOf(s, l) == PhysOf(s, m) && Reachable(s, l, true, false) ==> T(l) == T(m))
  }

  /** Every byte of `A` that is mapped holds, wherever it is, what `mem` has at its home. */
  ghost predicate Shows(s: State, ram: Ram, T: u64 -> nat, A: iset<u64>, mem: Ram)
    requires s.Valid() && ram.Valid() && mem.Valid()
  {
    forall l: u64 :: l in A && Walk(s, l).Some? ==> SameByte(ram, PhysOf(s, l), mem, T(l))
  }

  ghost predicate View(s: State, T: u64 -> nat, A: iset<u64>, mem: Ram) {
    && s.Valid() && mem.Valid() && Inv(s) && Separate(s, DataOf(s, A))
    && Sharing(s, T, A) && Shows(s, s.mem, T, A, mem)
  }

  /** Some byte that lives at `h` is mapped. */
  ghost predicate Resident(s: State, T: u64 -> nat, A: iset<u64>, h: nat)
    requires s.Valid()
  {
    exists l: u64 :: l in A && Walk(s, l).Some? && T(l) == h
  }

  /** `mem'` has what `mem` has at the homes of bytes that are not mapped. */
  ghost predicate AbsentKept(s: State, T: u64 -> nat, A: iset<u64>, mem: Ram, mem': Ram)
    requires s.Valid()
  {
    && mem.Valid() && mem'.Valid() && |mem'.data| == |mem.data|
    && forall l: u64 :: l in A && !Resident(s, T, A, T(l)) ==> ReadU8(mem', T(l)) == ReadU8(mem, T(l))
  }

  // ---- Walks that stay ----

  ghost predicate SameWalks(s: State, s': State)
    requires s.Valid()
  {
    && s'.Valid() && s' == s.(mem := s'.mem, tlb := s'.tlb, cr2 := s'.cr2, pending := s'.pending)
    && forall l: u64 :: Walk(s', l) == Walk(s, l)
  }

  lemma SamePlaces(s: State, s': State, T: u64 -> nat, A: iset<u64>)
    requires s.Valid() && SameWalks(s, s')
    ensures DataOf(s', A) == DataOf(s, A) && (Sharing(s, T, A) ==> Sharing(s', T, A))
    ensures forall l: u64 :: PhysOf(s', l) == PhysOf(s, l)
    ensures forall h: nat :: Resident(s', T, A, h) == Resident(s, T, A, h)
  {
    hide Walk, State.Valid, Reachable;
    forall l: u64 ensures PhysOf(s', l) == PhysOf(s, l) { assert Walk(s', l) == Walk(s, l); }
    forall l: u64 ensures Reachable(s', l, true, false) == Reachable(s, l, true, false) { ReachableSame(s, s', l); }
  }

  /** Translating keeps the view. */
  lemma ViewTranslated(s: State, s': State, T: u64 -> nat, A: iset<u64>, mem: Ram)
    requires View(s, T, A, mem) && Inv(s') && Translated(s, s')
    requires Separate(s', DataOf(s, A)) && SameInside(s.mem, s'.mem, DataOf(s, A))
    ensures View(s', T, A, mem) && SameWalks(s, s')
  {
    TranslatedWalks(s, s');
    SamePlaces(s, s', T, A);
    hide Walk, Agrees, Separate, Translated, Sharing, PhysOf, State.Valid;
    forall l: u64 | l in A && Walk(s', l).Some?
      ensures SameByte(s'.mem, PhysOf(s', l), mem, T(l))
    {
      assert SameByte(s.mem, PhysOf(s, l), mem, T(l));
      assert PhysOf(s, l) in DataOf(s, A);
      assert s'.mem.lowSize == s.mem.lowSize;
    }
  }

  lemma ViewAccess(s: State, linear: u64, write: bool, T: u64 -> nat, A: iset<u64>, mem: Ram)
    requires View(s, T, A, mem)
    ensures var s', p := Access(s, linear, write, false).0, Access(s, linear, write, false).1;
            && View(s', T, A, mem) && SameWalks(s, s')
            && (s.pending.Some? ==> s'.pending.Some?)
            && (s'.pending.None? ==> Reachable(s, linear, write, false) && p == PhysOf(s, linear))
  {
    hide Access, Agrees, Separate, Sharing, MoreMarked, Walk, Reachable, Shows, SameInside;
    AnyAccess(s, linear, write, DataOf(s, A));
    ViewTranslated(s, Access(s, linear, write, false).0, T, A, mem);
    if s.pending.None? {
      AccessOutcome(s, linear, write, false);
      if Access(s, linear, write, false).0.pending.None? { ReachableWalks(s, linear, write); }
    }
  }

  // ---- Reading ----

  /** All the bytes of the element belong to the view. */
  ghost predicate InView(A: iset<u64>, linear: u64, n: Size) {
    forall i :: 0 <= i < n ==> Bytes(linear, n)[i] in A
  }

  lemma {:induction false} ReadAlike(mem: Ram, addrs: seq<nat>, mem': Ram, homes: seq<nat>)
    requires mem.Valid() && mem'.Valid() && |addrs| == |homes|
    requires forall i :: 0 <= i < |addrs| ==> ReadU8(mem, addrs[i]) == ReadU8(mem', homes[i])
    ensures ReadAt(mem, addrs) == ReadAt(mem', homes)
    decreases |addrs|
  {
    if addrs != [] { ReadAlike(mem, addrs[1..], mem', homes[1..]); }
  }

  lemma ViewReads(s: State, linear: u64, n: Size, write: bool, T: u64 -> nat, A: iset<u64>, mem: Ram)
    requires View(s, T, A, mem) && InView(A, linear, n) && OperandReachable(s, linear, n, write)
    ensures ReadAt(s.mem, LinearAddrs(s, linear, n)) == ValueAt(mem, T, linear, n)
  {
    hide Walk, Agrees, Separate, Sharing, OperandReachable, ReadU8, PhysOf;
    var addrs, homes := LinearAddrs(s, linear, n), Homes(T, linear, n);
    forall i: nat | i < n
      ensures ReadU8(s.mem, addrs[i]) == ReadU8(mem, homes[i])
    {
      ByteReachable(s, linear, n, i, write);
      assert SameByte(s.mem, PhysOf(s, Bytes(linear, n)[i]), mem, T(Bytes(linear, n)[i]));
    }
    ReadAlike(s.mem, addrs, mem, homes);
  }

  // ---- Storing ----

  /** The machine's byte `a` and home `h` stand for each other and nothing else. */
  ghost predicate Alone(s: State, T: u64 -> nat, A: iset<u64>, a: nat, h: nat)
    requires s.Valid()
  {
    forall l: u64 :: l in A && Walk(s, l).Some? ==> (PhysOf(s, l) == a <==> T(l) == h)
  }

  lemma ByteShown(s: State, ram: Ram, T: u64 -> nat, A: iset<u64>, mem: Ram, a: nat, h: nat, v: u8)
    requires s.Valid() && ram.Valid() && mem.Valid() && Shows(s, ram, T, A, mem) && Alone(s, T, A, a, h)
    requires Slot(ram, a).Some? <==> Slot(mem, h).Some?
    ensures Shows(s, WriteU8(ram, a, v), T, A, WriteU8(mem, h, v))
  {
    hide Walk, PhysOf;
    var ram', mem' := WriteU8(ram, a, v), WriteU8(mem, h, v);
    forall l: u64 | l in A && Walk(s, l).Some?
      ensures SameByte(ram', PhysOf(s, l), mem', T(l))
    {
      assert SameByte(ram, PhysOf(s, l), mem, T(l));
      assert PhysOf(s, l) == a <==> T(l) == h;
    }
  }

  lemma {:induction false} StoreShows(s: State, ram: Ram, T: u64 -> nat, A: iset<u64>, mem: Ram,
                                      addrs: seq<nat>, homes: seq<nat>, v: nat)
    requires s.Valid() && ram.Valid() && mem.Valid() && Shows(s, ram, T, A, mem) && |addrs| == |homes|
    requires forall i :: 0 <= i < |addrs| ==> Alone(s, T, A, addrs[i], homes[i])
    requires forall i :: 0 <= i < |addrs| ==> (Slot(ram, addrs[i]).Some? <==> Slot(mem, homes[i]).Some?)
    ensures Shows(s, WriteAt(ram, addrs, v), T, A, WriteAt(mem, homes, v))
    decreases |addrs|
  {
    hide Shows, Alone;
    if addrs != [] {
      var ram1, mem1 := WriteU8(ram, addrs[0], v % 256), WriteU8(mem, homes[0], v % 256);
      ByteShown(s, ram, T, A, mem, addrs[0], homes[0], v % 256);
      forall i | 0 <= i < |addrs| - 1
        ensures Slot(ram1, addrs[1..][i]).Some? <==> Slot(mem1, homes[1..][i]).Some?
      {
        assert Slot(ram, addrs[i + 1]).Some? <==> Slot(mem, homes[i + 1]).Some?;
      }
      StoreShows(s, ram1, T, A, mem1, addrs[1..], homes[1..], v / 256);
    }
  }

  /** Storing an operand keeps the view of the memory it is stored in. */
  lemma ViewStores(s: State, linear: u64, n: Size, v: u64, T: u64 -> nat, A: iset<u64>, mem: Ram)
    requires View(s, T, A, mem) && InView(A, linear, n) && OperandReachable(s, linear, n, true)
    ensures var s' := s.(mem := WriteAt(s.mem, LinearAddrs(s, linear, n), v));
            && View(s', T, A, WriteAt(mem, Homes(T, linear, n), v)) && SameWalks(s, s')
  {
    hide Walk, Agrees, Separate, OperandReachable, PhysOf, WriteAt, Reachable;
    var addrs, homes := LinearAddrs(s, linear, n), Homes(T, linear, n);
    forall i: nat | i < n
      ensures Alone(s, T, A, addrs[i], homes[i]) && addrs[i] in DataOf(s, A)
      ensures Slot(s.mem, addrs[i]).Some? <==> Slot(mem, homes[i]).Some?
    {
      ByteReachable(s, linear, n, i, true);
      var b := Bytes(linear, n)[i];
      assert SameByte(s.mem, PhysOf(s, b), mem, T(b));
      assert addrs[i] == PhysOf(s, b) && homes[i] == T(b);
    }
    StoreShows(s, s.mem, T, A, mem, addrs, homes, v);
    WriteAtOutside(s.mem, addrs, v, DataOf(s, A));
    var s' := s.(mem := WriteAt(s.mem, addrs, v));
    DataStore(s, s'.mem, DataOf(s, A));
    SamePlaces(s, s', T, A);
  }

  /** ... and the homes of absent bytes as they were. */
  lemma StoreKeepsAbsent(s: State, linear: u64, n: Size, v: u64, T: u64 -> nat, A: iset<u64>, mem: Ram, mem': Ram)
    requires s.Valid() && InView(A, linear, n) && OperandReachable(s, linear, n, true)
    requires AbsentKept(s, T, A, mem, mem')
    ensures AbsentKept(s, T, A, mem, WriteAt(mem', Homes(T, linear, n), v))
  {
    hide Walk, OperandReachable, WriteAt, ReadU8, Reachable;
    var homes := Homes(T, linear, n);
    forall l: u64 | l in A && !Resident(s, T, A, T(l))
      ensures ReadU8(WriteAt(mem', homes, v), T(l)) == ReadU8(mem, T(l))
    {
      forall i: nat | i < n ensures homes[i] != T(l) {
        ByteReachable(s, linear, n, i, true);
        assert Bytes(linear, n)[i] in A;
      }
      WriteAtFrame(mem', homes, v, T(l));
    }
  }
}
