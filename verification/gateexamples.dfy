/** Two machines whose gates are not honest: the return does not undo the delivery. */
module GateExamples {
  import opened Words
  import opened Memory
  import opened Mmu
  import opened Operands
  import opened Processor
  import opened DataAccess
  import opened Interrupts
  import opened StackWords
  import opened Frames
  import opened Nesting

  /** One megabyte holding an interrupt gate for vector 0 at 0x1000, a segment
      descriptor at 0x2008, and a TSS at 0x3000 with ESP0 0x5000 and SS0 0x10. */
  function Image(selector: u8, access: u8): (data: seq<u8>)
    ensures |data| == 0x10_0000
  {
    seq<u8>(0x10_0000, i requires 0 <= i < 0x10_0000 =>
      if i == 0x1002 then selector else if i == 0x1005 then 0x8E
      else if i == 0x200D then access
      else if i == 0x3005 then 0x50 else if i == 0x3008 then 0x10 else 0)
  }

  /** Ring-3 code in 32-bit protected mode without paging, stack pointer at 0x4F00. */
  function Machine(selector: u8, access: u8): (c: Cpu)
    ensures c.Valid()
  {
    var s := State(Ram(Image(selector, access), 0x10_0000), Cr0(true, false, false), 0, 0, Cr4(false),
                   Efer(false, false, false), true, 0x1B,
                   seq<TlbEntry>(TLB_SIZE, _ => TlbEntry(false, 0, 0, false, false, false, false)), false, None, false);
    Cpu(s, seq<u64>(16, i => if i == SP then 0x4F00 else 0), 0x100, 0, false, 0, 0, seq<bool>(32, i => i == 1),
        0x23, 0x23, 0x23, 0, 0, seq<Descriptor>(6, _ => Descriptor(0, 3, false)), 0, 0, 0x2000, 0, 0x1000, 0x3000)
  }

  const STACK: iset<nat> := iset a: nat | 0x4000 <= a < 0x5000

  /** Paging off and no fault pending: nothing on the stack can fault. */
  predicate Unpaged(c: Cpu) { c.Valid() && !Faulted(c) && !Pg(c.mmu) && !c.mmu.efer.lma && c.mmu.pe }

  lemma {:induction false} UnpagedPushes(c: Cpu, words: seq<u64>)
    requires Unpaged(c)
    ensures Unpaged(PushAll(c, 4, words))
    decreases |words|
  {
    hide WriteSize, LinearAddr, StackAt, DescriptorFor;
    if words != [] { UnpagedPushes(PushW(c, 4, words[0]), words[1..]); }
  }

  lemma {:induction false} UnpagedPops(c: Cpu, k: nat)
    requires Unpaged(c)
    ensures Unpaged(PopAll(c, 4, k).0)
    decreases k
  {
    hide ReadSize, LinearAddr, StackAt, StackPtr;
    if k > 0 { UnpagedPops(PopW(c, 4).0, k - 1); }
  }

  lemma UnpagedDelivery(c: Cpu, vector: u8)
    requires Unpaged(c)
    ensures Unpaged(Deliver(c, vector, None)) && Unpaged(Return(Dropped(c, vector, None)))
  {
    hide PushAll, PopAll, LoadSeg, Target, Pushes, Landing, StackAt, Deliver, WriteFlags, WordFlags, State.Valid;
    LandingFacts(c, vector);
    UnpagedPushes(Landing(c, vector), Pushes(c, vector) + ErrorWord(None));
    DeliverIsPushes(c, vector, None);
    UnpagedReturn(Dropped(c, vector, None));
  }

  lemma UnpagedReturn(c: Cpu)
    requires Unpaged(c)
    ensures Unpaged(Iret32(c))
  {
    hide PopAll, LoadSeg, WriteFlags, WordFlags, State.Valid;
    UnpagedPops(c, 3);
    var (c1, w) := PopAll(c, 4, 3);
    UnpagedPops(c1, 2);
    var (d, v) := PopAll(c1, 4, 2);
    LoadSegOnly(d, Ss, v[1] % 0x1_0000);
    var l := LoadSeg(d, Ss, v[1] % 0x1_0000);
    var outward := w[1] % 0x1_0000 % 4 > Cpl(c1.mmu.pe, c1.mmu.cs);
    var c2 := if outward then l.(regs := l.regs[SP := v[0] % TWO32]) else c1;
    LoadSegOnly(c2.(rip := w[0] % TWO32), Cs, w[1] % 0x1_0000);
  }

  lemma MachineIntact(selector: u8, access: u8)
    ensures Intact(Machine(selector, access), [], STACK) && Unpaged(Machine(selector, access))
  {
  }

  lemma {:induction false} OnlyByte(data: seq<u8>, i: nat, n: nat, j: nat, v: nat)
    requires i + n <= |data| && j < n && (forall k :: i <= k < i + n && k != i + j ==> data[k] == 0)
    requires v == ByteRange(j)
    ensures Cells(data, i, n) == data[i + j] as int * v
    decreases n
  {
    if j == 0 {
      ZeroCells(data, i + 1, n - 1);
    } else {
      OnlyByte(data, i + 1, n - 1, j - 1, ByteRange(j - 1));
    }
  }

  predicate Blank(i: nat) { i != 0x1002 && i != 0x1005 && i != 0x200D && i != 0x3005 && i != 0x3008 }

  /** A read of `n` bytes at `a` of which at most the one at `a + j` is not zero. */
  lemma ImageRead(selector: u8, access: u8, a: nat, n: nat, j: nat)
    requires a + 8 <= 0x10_0000 && j < n <= 8
    requires forall k: nat :: a <= k < a + n && k != a + j ==> Blank(k)
    ensures var mem := Machine(selector, access).mmu.mem;
            Cells(mem.data, a, n) == mem.data[a + j] as int * ByteRange(j)
  {
    var data := Machine(selector, access).mmu.mem.data;
    forall k | a <= k < a + n && k != a + j ensures data[k] == 0 { assert Blank(k); }
    OnlyByte(data, a, n, j, ByteRange(j));
  }

  /** What the processor reads of the gate, the descriptor and the TSS. */
  lemma MachineReads(selector: u8, access: u8)
    ensures var mem := Machine(selector, access).mmu.mem;
            && ReadU16(mem, 0x1002) == selector && ReadU64(mem, 0x2010) == 0
            && ReadU64(mem, 0x2008) == access as int * 0x100_0000_0000
            && ReadU32(mem, 0x3004) == 0x5000 && ReadU16(mem, 0x3008) == 0x10
            && ReadSize(mem, 0x4F00, 4) == 0 && ReadSize(mem, 0x4F04, 4) == 0
  {
    hide Cells, ReadU16, ReadU32, ReadU64, Slot;
    var mem := Machine(selector, access).mmu.mem;
    ByteRanges();
    assert ByteRange(5) == 0x100_0000_0000;
    LowReads(mem, 0x1002);
    ImageRead(selector, access, 0x1002, 2, 0);
    LowReads(mem, 0x2008);
    ImageRead(selector, access, 0x2008, 8, 5);
    LowReads(mem, 0x2010);
    ImageRead(selector, access, 0x2010, 8, 0);
    LowReads(mem, 0x3004);
    ImageRead(selector, access, 0x3004, 4, 1);
    LowReads(mem, 0x3008);
    ImageRead(selector, access, 0x3008, 2, 0);
    LowReads(mem, 0x4F00);
    ImageRead(selector, access, 0x4F00, 4, 0);
    LowReads(mem, 0x4F04);
    ImageRead(selector, access, 0x4F04, 4, 0);
  }

  lemma MachineGate(selector: u8, access: u8)
    requires selector / 8 == 1 && selector / 4 % 2 == 0
    ensures var c := Machine(selector, access);
            && Target(c, 0).selector == selector && DescriptorFor(c, selector).dpl == access / 32 % 4
            && TssStack0(c) == (0x10, 0x5000) && DescriptorFor(c, 0x10).base == 0
  {
    hide ReadU8, ReadU16, ReadU32, ReadU64, Image;
    MachineReads(selector, access);
  }

  /** Distinct aligned words of the stack region have room in it. */
  lemma StackRoom(mem: Ram, slots: seq<nat>)
    requires mem.Valid()
    requires forall i :: 0 <= i < |slots| ==> 0x4000 <= slots[i] < 0x5000 && slots[i] % 4 == 0
    requires forall i, j :: 0 <= i < j < |slots| ==> slots[i] != slots[j]
    ensures GoodSlots(mem, slots, 4, STACK)
  {
    forall i | 0 <= i < |slots| ensures DataAt(mem, slots[i], 4, STACK) && Backed(mem, slots[i], 4) {
      assert slots[i] % 0x1000 % 4 == 0;
    }
  }

  /** Without paging, and with a stack segment based at zero. */
  lemma FlatSlot(c: Cpu, o: int)
    requires Unpaged(c) && c.desc[SegIndex(Ss)].base == 0
    ensures SlotAt(c, o) == Wrap32(c.regs[SP] + o)
  {
  }

  lemma RoomSwitched(c: Cpu)
    requires Unpaged(c) && SwitchedIn(c, 0) && TssStack0(c) == (0x10, 0x5000) && DescriptorFor(c, 0x10).base == 0
    ensures Room(c, 0, None, [], STACK)
  {
    hide Target, TssStack0, DescriptorFor, SlotAt, GoodSlots, Switching;
    var e := Landing(c, 0);
    LandingSwitched(c, 0);
    LandingFacts(c, 0);
    assert |Pushes(c, 0) + ErrorWord(None)| == 5;
    FlatSlot(e, -4);
    FlatSlot(e, -8);
    FlatSlot(e, -12);
    FlatSlot(e, -16);
    FlatSlot(e, -20);
    assert DeliverySlots(c, 0, None) == [0x4FFC, 0x4FF8, 0x4FF4, 0x4FF0, 0x4FEC];
    StackRoom(c.mmu.mem, DeliverySlots(c, 0, None) + Above(c, 0));
  }

  lemma RoomUnswitched(c: Cpu)
    requires Unpaged(c) && !SwitchedIn(c, 0) && SwitchedOut(c, 0)
    requires c.regs[SP] == 0x4F00 && c.desc[SegIndex(Ss)].base == 0
    ensures Room(c, 0, None, [], STACK)
  {
    hide Target, DescriptorFor, SlotAt, GoodSlots, Switching, Landing, Outward;
    var e := Landing(c, 0);
    LandingFacts(c, 0);
    assert |Pushes(c, 0) + ErrorWord(None)| == 3;
    FlatSlot(c, -4);
    FlatSlot(c, -8);
    FlatSlot(c, -12);
    FlatSlot(c, 0);
    FlatSlot(c, 4);
    SlotsOfLanding(c, 0, -4);
    SlotsOfLanding(c, 0, -8);
    SlotsOfLanding(c, 0, -12);
    assert DeliverySlots(c, 0, None) == [0x4EFC, 0x4EF8, 0x4EF4];
    StackRoom(c.mmu.mem, DeliverySlots(c, 0, None) + Above(c, 0));
  }

  /** A gate whose selector has RPL 3 to a segment with DPL 0, taken from ring 3:
      the stack is switched on the way in and not on the way out. */
  lemma StrandedOnHandlerStack()
    ensures var c := Machine(0x0B, 0x9A);
            var r := Return(Dropped(c, 0, None));
            && Intact(c, [], STACK) && Room(c, 0, None, [], STACK)
            && !Faulted(Deliver(c, 0, None)) && !Faulted(r)
            && c.regs[SP] == 0x4F00 && c.ss == 0x23 && r.regs[SP] % TWO32 == 0x4FF8 && r.ss == 0x10
  {
    hide Intact, Deliver, Return, Dropped, Room, Image, Target, TssStack0, DescriptorFor;
    var c := Machine(0x0B, 0x9A);
    MachineIntact(0x0B, 0x9A);
    MachineGate(0x0B, 0x9A);
    RoomSwitched(c);
    UnpagedDelivery(c, 0);
    ReturnInverts(c, 0, None, STACK);
  }

  /** A gate whose selector has RPL 0 to a segment with DPL 3, taken from ring 3:
      the stack is not switched on the way in, and the return takes the program's
      own top two words for its SS:ESP. */
  lemma TakesStackWords()
    ensures var c := Machine(0x08, 0xFA);
            var r := Return(Dropped(c, 0, None));
            && Intact(c, [], STACK) && Room(c, 0, None, [], STACK)
            && !Faulted(Deliver(c, 0, None)) && !Faulted(r)
            && c.regs[SP] == 0x4F00 && c.ss == 0x23 && r.regs[SP] % TWO32 == 0 && r.ss == 0
  {
    hide Intact, Deliver, Return, Dropped, Room, Image, Target, TssStack0, DescriptorFor, SlotAt, ReadSize,
      State.Valid, ReadU64, ReadU32;
    var c := Machine(0x08, 0xFA);
    MachineIntact(0x08, 0xFA);
    MachineGate(0x08, 0xFA);
    MachineReads(0x08, 0xFA);
    RoomUnswitched(c);
    FlatSlot(c, 0);
    FlatSlot(c, 4);
    UnpagedDelivery(c, 0);
    ReturnInverts(c, 0, None, STACK);
  }
}
