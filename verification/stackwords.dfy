/** Pushing and popping sequences of words: each in its place, nothing else touched. */
module StackWords {
  import opened Words
  import opened Memory
  import opened Paging
  import opened Mmu
  import opened TlbRefinement
  import opened AddressSpace
  import opened Operands
  import opened SplitAccess
  import opened Alu
  import opened Processor
  import opened DataAccess
  import opened Interrupts
  import Division

  // ---- Words in memory ----

  lemma {:induction false} FlagsRoundTrip(f: seq<bool>)
    ensures NatToBits(BitsToNat(f), |f|) == f
  {
    if f != [] {
      FlagsRoundTrip(f[1..]);
      var rest, bit := BitsToNat(f[1..]), if f[0] then 1 else 0;
      LowBit(bit, rest);
      assert NatToBits(bit + 2 * rest, |f|) == [f[0]] + NatToBits(rest, |f| - 1);
      assert [f[0]] + f[1..] == f;
    }
  }

  lemma LowBit(bit: nat, rest: nat)
    requires bit < 2
    ensures (bit + 2 * rest) % 2 == bit && (bit + 2 * rest) / 2 == rest
  {
  }

  lemma {:induction false} BitsBound(f: seq<bool>)
    ensures BitsToNat(f) < BitRange(|f|)
  {
    if f != [] { BitsBound(f[1..]); }
  }

  function BitRange(k: nat): nat { if k == 0 then 1 else 2 * BitRange(k - 1) }

  lemma BitRange32()
    ensures BitRange(32) == TWO32
  {
    assert BitRange(8) == 0x100;
    assert BitRange(16) == 0x1_0000;
    assert BitRange(24) == 0x100_0000;
  }

  lemma FlagsWordFits(f: Eflags)
    ensures FlagsWord(f) < TWO32 && WordFlags(FlagsWord(f)) == f
  {
    BitsBound(f);
    BitRange32();
    FlagsRoundTrip(f);
  }

  /** A word of a frame: its bytes hold it, all of them data. */
  ghost predicate Holds(mem: Ram, a: nat, n: Size, v: u64, D: iset<nat>)
    requires mem.Valid()
  {
    DataAt(mem, a, n, D) && ReadSize(mem, a, n) == v
  }

  ghost predicate Apart(a: nat, b: nat, n: nat) { a + n <= b || b + n <= a }

  lemma HoldsStays(mem: Ram, mem': Ram, a: nat, n: Size, v: u64, D: iset<nat>)
    requires mem.Valid() && mem'.Valid() && |mem'.data| == |mem.data| && Holds(mem, a, n, v, D)
    requires forall k :: a <= k < a + n ==> ReadU8(mem', k) == ReadU8(mem, k)
    ensures Holds(mem', a, n, v, D)
  {
    hide ReadSize, ReadAt;
    WholeIsRun(mem, a, n, 0);
    WholeIsRun(mem', a, n, 0);
    SameBytesReadAt(mem, mem', Run(a, n));
  }

  lemma StoredHolds(mem: Ram, a: nat, n: Size, v: u64, D: iset<nat>)
    requires mem.Valid() && DataAt(mem, a, n, D) && Backed(mem, a, n) && v < Modulus(n)
    ensures Holds(WriteSize(mem, a, n, v), a, n, v, D)
    ensures forall b: nat :: b < a || a + n <= b ==> ReadU8(WriteSize(mem, a, n, v), b) == ReadU8(mem, b)
  {
    hide ReadSize, WriteSize, ReadAt, WriteAt, Modulus;
    var mem' := WriteSize(mem, a, n, v);
    WholeIsRun(mem, a, n, v);
    WholeIsRun(mem', a, n, v);
    assert Distinct(Run(a, n));
    forall x | x in Run(a, n) ensures Slot(mem, x).Some? {}
    ReadAfterWriteAt(mem, Run(a, n), v) by { ModulusIsRange(n); }
    forall b: nat | b < a || a + n <= b
      ensures ReadU8(mem', b) == ReadU8(mem, b)
    {
      WriteAtFrame(mem, Run(a, n), v, b);
    }
  }

  lemma ModulusIsRange(n: Size)
    ensures Modulus(n) == ByteRange(n)
  {
  }

  // ---- The stack, word by word ----

  /** Physical home of the word at offset `d` from the stack pointer. */
  function SlotAt(c: Cpu, d: int): nat
    requires c.Valid()
  {
    PhysOf(c.mmu, LinearAddr(c, Ss, StackAt(c, d)))
  }

  /** Homes of the next `k` words pushed, in push order. */
  function PushSlots(c: Cpu, n: nat, k: nat): (s: seq<nat>)
    requires c.Valid()
    ensures |s| == k
  {
    seq<nat>(k, i requires 0 <= i < k => SlotAt(c, -(n * (i + 1))))
  }

  /** Homes of the next `k` words popped, in pop order. */
  function PopSlots(c: Cpu, n: nat, k: nat): (s: seq<nat>)
    requires c.Valid()
    ensures |s| == k
  {
    seq<nat>(k, i requires 0 <= i < k => SlotAt(c, n * i))
  }

  /** The memory, mode and segments a stack operation leaves alone. */
  ghost predicate SameMachine(c: Cpu, c': Cpu)
    requires c.Valid()
  {
    && c'.Valid()
    && c' == c.(mmu := c'.mmu, regs := c.regs[SP := c'.regs[SP]])
    && c'.mmu.efer == c.mmu.efer && c'.mmu.pe == c.mmu.pe && c'.mmu.cs == c.mmu.cs
    && |c'.mmu.mem.data| == |c.mmu.mem.data|
    && forall l: u64 :: Walk(c'.mmu, l) == Walk(c.mmu, l)
  }

  ghost predicate Sound(c: Cpu, D: iset<nat>) {
    c.Valid() && Inv(c.mmu) && Separate(c.mmu, D) && c.mmu.pe
  }

  lemma StackAtMoves(c: Cpu, c': Cpu, a: int, b: int)
    requires c.Valid() && SameMachine(c, c') && c'.regs[SP] == StackAt(c, a)
    ensures c'.Valid() && StackAt(c', b) == StackAt(c, a + b)
    ensures SlotAt(c', b) == SlotAt(c, a + b)
  {
    hide Walk, State.Valid;
    Division.ModShift(c.regs[SP] + a, b, TWO64);
    Division.ModShift(c.regs[SP] + a, b, TWO32);
    assert Long64(c') == Long64(c);
    var l := LinearAddr(c, Ss, StackAt(c, a + b));
    assert LinearAddr(c', Ss, StackAt(c', b)) == l;
    assert Walk(c'.mmu, l) == Walk(c.mmu, l);
  }

  lemma SameMachineTransitive(c0: Cpu, c1: Cpu, c2: Cpu)
    requires c0.Valid() && SameMachine(c0, c1) && SameMachine(c1, c2)
    ensures SameMachine(c0, c2)
  {
    hide Walk, State.Valid;
  }

  /** One push that does not fault stores its word and nothing else of the data. */
  lemma PushFacts(c: Cpu, n: WordSize, v: u64, D: iset<nat>)
    requires Sound(c, D) && !Faulted(c) && v < Modulus(n)
    requires DataAt(c.mmu.mem, SlotAt(c, 0 - n as int), n, D) && Backed(c.mmu.mem, SlotAt(c, 0 - n as int), n)
    ensures var c', a := PushW(c, n, v), SlotAt(c, 0 - n as int);
            !Faulted(c') ==>
              && Sound(c', D) && SameMachine(c, c') && c'.regs[SP] == StackAt(c, 0 - n as int)
              && Holds(c'.mmu.mem, a, n, v, D)
              && forall b :: b in D && (b < a || a + n <= b) ==> ReadU8(c'.mmu.mem, b) == ReadU8(c.mmu.mem, b)
  {
    hide Access, Agrees, Separate, SameInside, SameOutside, MoreMarked, Walk, WriteSize, Holds, DataAt, LinearAddr,
      PhysOf;
    var sp := StackAt(c, 0 - n as int);
    var linear, a := LinearAddr(c, Ss, sp), SlotAt(c, 0 - n as int);
    AccessOutcome(c.mmu, linear, true, false);
    AccessKeepsData(c.mmu, linear, true, false, D);
    var (m, addr) := Access(c.mmu, linear, true, false);
    if m.pending.None? {
      AccessHome(c.mmu, linear, true);
      TranslatedWalks(c.mmu, m);
      BackedStays(c.mmu.mem, m.mem, a, n);
      DataAtStays(c.mmu.mem, m.mem, a, n, D);
      StoredHolds(m.mem, a, n, v, D);
      SameDataWrite(m.mem, m.mem, a, n, v, D) by { SameSelf(m.mem, D); }
      DataStore(m, WriteSize(m.mem, a, n, v), D);
      SameInsideReads(c.mmu.mem, m.mem, D);
    }
  }

  lemma BackedStays(mem: Ram, mem': Ram, a: nat, n: nat)
    requires mem.Valid() && mem'.Valid() && |mem'.data| == |mem.data|
    ensures Backed(mem', a, n) == Backed(mem, a, n)
  {
    assert forall k: nat :: Slot(mem', k) == Slot(mem, k);
  }

  lemma SameSelf(mem: Ram, D: iset<nat>)
    requires mem.Valid()
    ensures SameInside(mem, mem, D)
  {
  }

  lemma SameInsideReads(mem: Ram, mem': Ram, D: iset<nat>)
    requires mem.Valid() && SameInside(mem, mem', D)
    ensures mem'.Valid() && forall b: nat :: b in D ==> ReadU8(mem', b) == ReadU8(mem, b)
  {
  }

  lemma AccessHome(s: State, linear: u64, write: bool)
    requires Inv(s) && s.pending.None? && Access(s, linear, write, false).0.pending.None?
    ensures Access(s, linear, write, false).1 == PhysOf(s, linear)
  {
    hide Access, Agrees, TranslateMode, MoreMarked;
    AccessOutcome(s, linear, write, false);
  }

  lemma PushSticks(c: Cpu, n: WordSize, v: u64)
    requires c.Valid() && Faulted(c) && c.mmu.pe
    ensures Faulted(PushW(c, n, v)) && PushW(c, n, v).mmu.pe
  {
    var sp := StackAt(c, 0 - n as int);
    PendingPassesThrough(c.mmu, LinearAddr(c, Ss, sp), true);
    AccessKeepsMode(c.mmu, LinearAddr(c, Ss, sp), true, false);
    hide Access, LinearAddr, WriteSize;
  }

  lemma {:induction false} PushAllSticks(c: Cpu, n: WordSize, words: seq<u64>)
    requires c.Valid() && Faulted(c) && c.mmu.pe
    ensures Faulted(PushAll(c, n, words))
    decreases |words|
  {
    hide PushW;
    if words != [] {
      PushSticks(c, n, words[0]);
      PushAllSticks(PushW(c, n, words[0]), n, words[1..]);
    }
  }

  /** The slots of a frame are backed data, and apart from each other. */
  ghost predicate GoodSlots(mem: Ram, slots: seq<nat>, n: Size, D: iset<nat>)
    requires mem.Valid()
  {
    && (forall i :: 0 <= i < |slots| ==> DataAt(mem, slots[i], n, D) && Backed(mem, slots[i], n))
    && forall i, j :: 0 <= i < j < |slots| ==> Apart(slots[i], slots[j], n)
  }

  ghost predicate OutsideSlots(slots: seq<nat>, n: nat, b: nat) {
    forall i :: 0 <= i < |slots| ==> b < slots[i] || slots[i] + n <= b
  }

  /** The stack pointer moved by `a`: every offset now means what it meant. */
  ghost predicate Shifted(c: Cpu, c': Cpu, a: int)
    requires c.Valid() && c'.Valid()
  {
    forall d: int :: StackAt(c', d) == StackAt(c, a + d) && SlotAt(c', d) == SlotAt(c, a + d)
  }

  ghost predicate HoldAll(mem: Ram, slots: seq<nat>, n: Size, words: seq<u64>, D: iset<nat>)
    requires mem.Valid() && |slots| == |words|
  {
    forall i :: 0 <= i < |words| ==> Holds(mem, slots[i], n, words[i], D)
  }

  /** `mem'` has the data of `mem` but for the words in `slots`. */
  ghost predicate SameBut(mem: Ram, mem': Ram, slots: seq<nat>, n: nat, D: iset<nat>)
    requires mem.Valid() && mem'.Valid()
  {
    forall b :: b in D && OutsideSlots(slots, n, b) ==> ReadU8(mem', b) == ReadU8(mem, b)
  }

  /** What pushing `words` does when no push faults. */
  ghost predicate Pushed(c: Cpu, n: WordSize, words: seq<u64>, D: iset<nat>, c': Cpu)
    requires c.Valid()
  {
    var slots := PushSlots(c, n, |words|);
    && Sound(c', D) && SameMachine(c, c') && Shifted(c, c', -(n * |words|))
    && HoldAll(c'.mmu.mem, slots, n, words, D) && SameBut(c.mmu.mem, c'.mmu.mem, slots, n, D)
  }

  /** Pushing a sequence of words: each ends up in its slot, in push order. */
  lemma {:induction false} PushAllFacts(c: Cpu, n: WordSize, words: seq<u64>, D: iset<nat>)
    requires Sound(c, D) && !Faulted(c) && forall w :: w in words ==> w < Modulus(n)
    requires GoodSlots(c.mmu.mem, PushSlots(c, n, |words|), n, D)
    ensures var c' := PushAll(c, n, words); !Faulted(c') ==> Pushed(c, n, words, D, c')
    decreases |words|
  {
    hide PushW, Modulus, Inv, Separate, DataAt, Backed, SameMachine, GoodSlots, Pushed, Shifted;
    var c', slots := PushAll(c, n, words), PushSlots(c, n, |words|);
    if words == [] {
      NothingPushed(c, n, D);
    } else {
      assert slots[0] == SlotAt(c, 0 - n as int);
      FirstGood(c.mmu.mem, slots, n, D);
      assert words[0] in words && forall w :: w in words[1..] ==> w in words;
      PushFacts(c, n, words[0], D);
      var c1 := PushW(c, n, words[0]);
      if Faulted(c1) {
        PushKeepsPe(c, n, words[0]);
        PushAllSticks(c1, n, words[1..]);
      } else {
        RestOfSlots(c, c1, n, |words|);
        MachineValid(c, c1);
        GoodTail(c.mmu.mem, c1.mmu.mem, slots, n, D);
        PushAllFacts(c1, n, words[1..], D);
        if !Faulted(c') { PushedMore(c, c1, n, words, D, c'); }
      }
    }
  }

  lemma NothingPushed(c: Cpu, n: WordSize, D: iset<nat>)
    requires Sound(c, D)
    ensures Pushed(c, n, [], D, c)
  {
    hide Inv, Separate, SlotAt, StackAt, ReadU8, Holds;
    SameMachineReflexive(c);
  }

  /** One word, then the others. */
  lemma PushedMore(c: Cpu, c1: Cpu, n: WordSize, words: seq<u64>, D: iset<nat>, c': Cpu)
    requires Sound(c, D) && |words| > 0 && GoodSlots(c.mmu.mem, PushSlots(c, n, |words|), n, D)
    requires Sound(c1, D) && SameMachine(c, c1) && c1.regs[SP] == StackAt(c, 0 - n as int)
    requires var slots := PushSlots(c, n, |words|);
             && Holds(c1.mmu.mem, slots[0], n, words[0], D)
             && forall b :: b in D && (b < slots[0] || slots[0] + n <= b) ==>
                  ReadU8(c1.mmu.mem, b) == ReadU8(c.mmu.mem, b)
    requires Pushed(c1, n, words[1..], D, c')
    ensures Pushed(c, n, words, D, c')
  {
    hide Inv, Separate, SlotAt, StackAt, ReadU8, Holds, SameMachine, GoodSlots;
    var slots, rest := PushSlots(c, n, |words|), PushSlots(c1, n, |words| - 1);
    RestOfSlots(c, c1, n, |words|);
    MachineValid(c, c1);
    MachineValid(c1, c');
    SameMachineTransitive(c, c1, c');
    MovedMore(c, c1, c', n, |words|);
    GoodStays(c.mmu.mem, c1.mmu.mem, slots, n, D);
    FirstWordStays(c1.mmu.mem, c'.mmu.mem, slots, n, words[0], D);
    forall i | 0 <= i < |words|
      ensures Holds(c'.mmu.mem, slots[i], n, words[i], D)
    {
      if i > 0 { assert slots[i] == rest[i - 1] && words[i] == words[1..][i - 1]; }
    }
    forall b | b in D && OutsideSlots(slots, n, b)
      ensures ReadU8(c'.mmu.mem, b) == ReadU8(c.mmu.mem, b)
    {
      assert b < slots[0] || slots[0] + n <= b;
      forall i | 0 <= i < |rest| ensures b < rest[i] || rest[i] + n <= b { assert slots[i + 1] == rest[i]; }
      assert OutsideSlots(rest, n, b);
    }
  }

  lemma MovedMore(c: Cpu, c1: Cpu, c': Cpu, n: WordSize, k: nat)
    requires c.Valid() && SameMachine(c, c1) && c1.regs[SP] == StackAt(c, 0 - n as int) && k > 0
    requires c'.Valid() && Shifted(c1, c', -(n * (k - 1)))
    ensures Shifted(c, c', -(n * k))
  {
    hide SlotAt, StackAt, SameMachine;
    assert n * k == n * (k - 1) + n;
    forall d: int
      ensures StackAt(c', d) == StackAt(c, -(n * k) + d) && SlotAt(c', d) == SlotAt(c, -(n * k) + d)
    {
      StackAtMoves(c, c1, 0 - n as int, -(n * (k - 1)) + d);
    }
  }

  lemma SameMachineReflexive(c: Cpu)
    requires c.Valid()
    ensures SameMachine(c, c)
  {
    hide Walk;
    assert c.regs[SP := c.regs[SP]] == c.regs;
  }

  lemma PushKeepsPe(c: Cpu, n: WordSize, v: u64)
    requires c.Valid() && c.mmu.pe
    ensures PushW(c, n, v).mmu.pe
  {
    var sp := StackAt(c, 0 - n as int);
    AccessKeepsMode(c.mmu, LinearAddr(c, Ss, sp), true, false);
    hide Access, LinearAddr, WriteSize;
  }

  lemma RestOfSlots(c: Cpu, c1: Cpu, n: WordSize, k: nat)
    requires c.Valid() && SameMachine(c, c1) && c1.regs[SP] == StackAt(c, 0 - n as int) && k > 0
    ensures c1.Valid() && PushSlots(c1, n, k - 1) == PushSlots(c, n, k)[1..]
  {
    hide SlotAt, StackAt, SameMachine;
    assert c1.Valid() by { MachineValid(c, c1); }
    var rest, all := PushSlots(c1, n, k - 1), PushSlots(c, n, k);
    forall i: nat | i < |rest|
      ensures rest[i] == all[1..][i]
    {
      StackAtMoves(c, c1, 0 - n as int, -(n * (i + 1)));
      assert 0 - n - n * (i + 1) == -(n * (i + 2));
    }
  }

  lemma MachineValid(c: Cpu, c': Cpu)
    requires c.Valid() && SameMachine(c, c')
    ensures c'.Valid() && |c'.mmu.mem.data| == |c.mmu.mem.data|
  {
  }

  lemma GoodTail(mem: Ram, mem': Ram, slots: seq<nat>, n: Size, D: iset<nat>)
    requires mem.Valid() && mem'.Valid() && |mem'.data| == |mem.data| && |slots| > 0 && GoodSlots(mem, slots, n, D)
    ensures GoodSlots(mem', slots[1..], n, D)
  {
    hide DataAt, Backed;
    var rest := slots[1..];
    forall i | 0 <= i < |rest|
      ensures DataAt(mem', rest[i], n, D) && Backed(mem', rest[i], n)
    {
      assert rest[i] == slots[i + 1];
      BackedStays(mem, mem', rest[i], n);
      DataAtStays(mem, mem', rest[i], n, D);
    }
    forall i, j | 0 <= i < j < |rest|
      ensures Apart(rest[i], rest[j], n)
    {
      assert Apart(slots[i + 1], slots[j + 1], n);
    }
  }

  lemma GoodStays(mem: Ram, mem': Ram, slots: seq<nat>, n: Size, D: iset<nat>)
    requires mem.Valid() && mem'.Valid() && |mem'.data| == |mem.data| && GoodSlots(mem, slots, n, D)
    ensures GoodSlots(mem', slots, n, D)
  {
    hide DataAt, Backed, Apart;
    forall i | 0 <= i < |slots|
      ensures DataAt(mem', slots[i], n, D) && Backed(mem', slots[i], n)
    {
      BackedStays(mem, mem', slots[i], n);
      DataAtStays(mem, mem', slots[i], n, D);
    }
  }

  lemma FirstGood(mem: Ram, slots: seq<nat>, n: Size, D: iset<nat>)
    requires mem.Valid() && |slots| > 0 && GoodSlots(mem, slots, n, D)
    ensures DataAt(mem, slots[0], n, D) && Backed(mem, slots[0], n)
  {
  }

  lemma FirstWordStays(mem: Ram, mem': Ram, slots: seq<nat>, n: Size, v: u64, D: iset<nat>)
    requires mem.Valid() && mem'.Valid() && |mem'.data| == |mem.data|
    requires |slots| > 0 && GoodSlots(mem, slots, n, D) && Holds(mem, slots[0], n, v, D)
    requires forall b :: b in D && OutsideSlots(slots[1..], n, b) ==> ReadU8(mem', b) == ReadU8(mem, b)
    ensures Holds(mem', slots[0], n, v, D)
  {
    forall k | slots[0] <= k < slots[0] + n
      ensures ReadU8(mem', k) == ReadU8(mem, k)
    {
      assert k in D;
      forall i | 0 <= i < |slots[1..]|
        ensures k < slots[1..][i] || slots[1..][i] + n <= k
      {
        assert Apart(slots[0], slots[i + 1], n);
      }
      assert OutsideSlots(slots[1..], n, k);
    }
    HoldsStays(mem, mem', slots[0], n, v, D);
  }

  // ---- Popping ----

  /** What popping does when no pop faults: it moves the pointer, and reads. */
  ghost predicate Popped(c: Cpu, n: WordSize, k: nat, D: iset<nat>, c': Cpu)
    requires c.Valid()
  {
    && Sound(c', D) && SameMachine(c, c') && Shifted(c, c', n * k)
    && SameInside(c.mmu.mem, c'.mmu.mem, D)
  }

  lemma PopFacts(c: Cpu, n: WordSize, D: iset<nat>)
    requires Sound(c, D) && !Faulted(c) && DataAt(c.mmu.mem, SlotAt(c, 0), n, D)
    ensures var (c', w) := PopW(c, n);
            !Faulted(c') ==>
              && Sound(c', D) && SameMachine(c, c') && c'.regs[SP] == StackAt(c, n)
              && SameInside(c.mmu.mem, c'.mmu.mem, D) && w == ReadSize(c.mmu.mem, SlotAt(c, 0), n)
  {
    hide Access, Agrees, Separate, SameInside, SameOutside, MoreMarked, Walk, ReadSize, DataAt, LinearAddr, PhysOf;
    var linear := LinearAddr(c, Ss, StackPtr(c));
    assert StackPtr(c) == StackAt(c, 0);
    AccessOutcome(c.mmu, linear, false, false);
    AccessKeepsData(c.mmu, linear, false, false, D);
    var (m, addr) := Access(c.mmu, linear, false, false);
    if m.pending.None? {
      AccessHome(c.mmu, linear, false);
      TranslatedWalks(c.mmu, m);
      SameDataRead(c.mmu.mem, m.mem, addr, n, D);
    }
  }

  lemma PopSticks(c: Cpu, n: WordSize)
    requires c.Valid() && Faulted(c) && c.mmu.pe
    ensures Faulted(PopW(c, n).0) && PopW(c, n).0.mmu.pe
  {
    var linear := LinearAddr(c, Ss, StackPtr(c));
    PendingPassesThrough(c.mmu, linear, false);
    AccessKeepsMode(c.mmu, linear, false, false);
    hide Access, LinearAddr, ReadSize;
  }

  lemma PopKeepsPe(c: Cpu, n: WordSize)
    requires c.Valid() && c.mmu.pe
    ensures PopW(c, n).0.mmu.pe
  {
    AccessKeepsMode(c.mmu, LinearAddr(c, Ss, StackPtr(c)), false, false);
    hide Access, LinearAddr, ReadSize;
  }

  lemma {:induction false} PopAllSticks(c: Cpu, n: WordSize, k: nat)
    requires c.Valid() && Faulted(c) && c.mmu.pe
    ensures Faulted(PopAll(c, n, k).0)
    decreases k
  {
    hide PopW;
    if k > 0 {
      PopSticks(c, n);
      PopAllSticks(PopW(c, n).0, n, k - 1);
    }
  }

  /** Popping `k` words that are in their slots returns them, in order. */
  lemma {:induction false} PopAllFacts(c: Cpu, n: WordSize, words: seq<u64>, D: iset<nat>)
    requires Sound(c, D) && !Faulted(c)
    requires HoldAll(c.mmu.mem, PopSlots(c, n, |words|), n, words, D)
    ensures var (c', w) := PopAll(c, n, |words|);
            !Faulted(c') ==> w == words && Popped(c, n, |words|, D, c')
    decreases |words|
  {
    hide PopW, Inv, Separate, DataAt, SameMachine, Shifted, SameInside, ReadSize, SlotAt, StackAt, ReadU8;
    var (c', w) := PopAll(c, n, |words|);
    var slots := PopSlots(c, n, |words|);
    if words == [] {
      NothingPopped(c, n, D);
    } else {
      assert slots[0] == SlotAt(c, 0);
      assert Holds(c.mmu.mem, slots[0], n, words[0], D);
      PopFacts(c, n, D);
      var c1 := PopW(c, n).0;
      if Faulted(c1) {
        PopKeepsPe(c, n);
        PopAllSticks(c1, n, |words| - 1);
      } else {
        RestOfPops(c, c1, n, |words|);
        HoldRest(c.mmu.mem, c1.mmu.mem, slots, n, words, D);
        PopAllFacts(c1, n, words[1..], D);
        assert [words[0]] + words[1..] == words;
        if !Faulted(c') { PoppedMore(c, c1, n, |words|, D, c'); }
      }
    }
  }

  lemma NothingPopped(c: Cpu, n: WordSize, D: iset<nat>)
    requires Sound(c, D)
    ensures Popped(c, n, 0, D, c)
  {
    hide Inv, Separate, SlotAt, StackAt;
    SameMachineReflexive(c);
    SameSelf(c.mmu.mem, D);
  }

  lemma RestOfPops(c: Cpu, c1: Cpu, n: WordSize, k: nat)
    requires c.Valid() && SameMachine(c, c1) && c1.regs[SP] == StackAt(c, n) && k > 0
    ensures c1.Valid() && PopSlots(c1, n, k - 1) == PopSlots(c, n, k)[1..]
  {
    hide SlotAt, StackAt, SameMachine;
    MachineValid(c, c1);
    var rest, all := PopSlots(c1, n, k - 1), PopSlots(c, n, k);
    forall i: nat | i < |rest|
      ensures rest[i] == all[1..][i]
    {
      StackAtMoves(c, c1, n, n * i);
      assert n + n * i == n * (i + 1);
    }
  }

  lemma HoldRest(mem: Ram, mem': Ram, slots: seq<nat>, n: Size, words: seq<u64>, D: iset<nat>)
    requires mem.Valid() && SameInside(mem, mem', D) && |slots| == |words| > 0 && HoldAll(mem, slots, n, words, D)
    ensures mem'.Valid() && HoldAll(mem', slots[1..], n, words[1..], D)
  {
    hide SameInside, DataAt, ReadSize;
    HoldAllStays(mem, mem', slots, n, words, D);
    forall i | 0 <= i < |words| - 1
      ensures Holds(mem', slots[1..][i], n, words[1..][i], D)
    {
      assert Holds(mem', slots[i + 1], n, words[i + 1], D);
    }
  }

  lemma HoldAllStays(mem: Ram, mem': Ram, slots: seq<nat>, n: Size, words: seq<u64>, D: iset<nat>)
    requires mem.Valid() && SameInside(mem, mem', D) && |slots| == |words| && HoldAll(mem, slots, n, words, D)
    ensures mem'.Valid() && HoldAll(mem', slots, n, words, D)
  {
    hide DataAt, ReadSize;
    forall i | 0 <= i < |words|
      ensures Holds(mem', slots[i], n, words[i], D)
    {
      assert Holds(mem, slots[i], n, words[i], D);
      SameDataRead(mem, mem', slots[i], n, D);
      DataAtStays(mem, mem', slots[i], n, D);
    }
  }

  lemma PoppedMore(c: Cpu, c1: Cpu, n: WordSize, k: nat, D: iset<nat>, c': Cpu)
    requires Sound(c, D) && SameMachine(c, c1) && c1.regs[SP] == StackAt(c, n) && k > 0
    requires c1.Valid() && SameInside(c.mmu.mem, c1.mmu.mem, D) && Popped(c1, n, k - 1, D, c')
    ensures Popped(c, n, k, D, c')
  {
    hide Inv, Separate, SlotAt, StackAt, SameMachine;
    MachineValid(c, c1);
    SameMachineTransitive(c, c1, c');
    SameInsideTransitive(c.mmu.mem, c1.mmu.mem, c'.mmu.mem, D);
    assert n * k == n * (k - 1) + n;
    forall d: int
      ensures StackAt(c', d) == StackAt(c, n * k + d) && SlotAt(c', d) == SlotAt(c, n * k + d)
    {
      StackAtMoves(c, c1, n, n * (k - 1) + d);
    }
  }
}
