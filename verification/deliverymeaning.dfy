/** Where a delivery lands and what it leaves on the stack, told from the bytes of the
    gate, the descriptor and the task-state segment. */
module DeliveryMeaning {
  import opened Words
  import opened Memory
  import opened Mmu
  import opened TlbRefinement
  import opened AddressSpace
  import opened Operands
  import opened SplitAccess
  import opened Alu
  import opened Processor
  import opened Interrupts
  import opened StackWords
  import opened Frames
  import opened Nesting
  import Division

  // ---- System structures in memory ----

  /** Where byte 0 of the structure at a linear address is. */
  function Place(c: Cpu, linear: int): nat
    requires c.Valid()
  {
    PhysOf(c.mmu, linear % TWO64)
  }

  lemma PlaceIs(c: Cpu, linear: int)
    requires c.Valid()
    ensures LinearToPhysRo(c.mmu, Wrap64(linear)) == Place(c, linear)
  {
    hide Walk;
    if !Pg(c.mmu) { FlatWalk(c.mmu, Wrap64(linear)); }
  }

  /** The eight bytes of a segment descriptor. */
  function DescriptorBytes(c: Cpu, selector: u16): u64
    requires c.Valid()
  {
    ReadU64(c.mmu.mem, Place(c, (if selector % 8 >= 4 then c.ldtBase else c.gdtBase) + 8 * (selector as int / 8)))
  }

  /** Privilege in bits 46:45, the 64-bit mark in bit 53, the base in bits 39:16 and 63:56. */
  ghost predicate Described(d: Descriptor, raw: u64) {
    && d.dpl == raw / 0x2000_0000_0000 % 4
    && d.l == (raw / 0x20_0000_0000_0000 % 2 == 1)
    && d.base == raw / 0x1_0000 % 0x100_0000 + 0x100_0000 * (raw / 0x100_0000_0000_0000)
  }

  lemma DescriptorIs(c: Cpu, selector: u16)
    requires c.Valid()
    ensures Described(DescriptorFor(c, selector), DescriptorBytes(c, selector))
  {
    hide ReadU64, Place, ParseDescriptor, Described, State.Valid;
    var base := if selector / 4 % 2 == 1 then c.ldtBase else c.gdtBase;
    TableBit(selector);
    PlaceIs(c, base + selector / 8 * 8);
    Parsed(DescriptorBytes(c, selector));
  }

  lemma TableBit(selector: u16)
    ensures selector / 4 % 2 == 1 <==> selector % 8 >= 4
  {
  }

  lemma Parsed(raw: u64)
    ensures Described(ParseDescriptor(raw), raw)
  {
    BasePieces(raw);
  }

  lemma BasePieces(raw: u64)
    ensures raw / 0x1_0000 % 0x100_0000 == raw / 0x1_0000 % 0x1_0000 + raw / 0x1_0000_0000 % 0x100 * 0x1_0000
    ensures raw / 0x100_0000_0000_0000 % 0x100 == raw / 0x100_0000_0000_0000
  {
    Division.DivDiv(raw, 0x1_0000, 0x1_0000);
    Division.ModSplit(raw / 0x1_0000, 0x1_0000, 0x100);
    Division.DivUnique(raw / 0x100_0000_0000_0000, 0x100, 0, raw / 0x100_0000_0000_0000);
  }

  predicate Inward(c: Cpu, selector: u16)
    requires c.Valid()
  {
    DescriptorBytes(c, selector) / 0x2000_0000_0000 % 4 < if c.mmu.pe then c.mmu.cs as int % 4 else 0
  }

  lemma InwardIs(c: Cpu, selector: u16)
    requires c.Valid()
    ensures Inward(c, selector) <==> DescriptorFor(c, selector).dpl < Cpl(c.mmu.pe, c.mmu.cs)
  {
    hide DescriptorFor, DescriptorBytes;
    DescriptorIs(c, selector);
  }

  // ---- Pushes ----

  lemma {:induction false} PushAllMoves(c: Cpu, n: WordSize, words: seq<u64>)
    requires c.Valid() && c.mmu.pe
    ensures var c' := PushAll(c, n, words);
            && c' == c.(mmu := c'.mmu, regs := c'.regs)
            && c'.mmu.cs == c.mmu.cs && c'.mmu.efer == c.mmu.efer && c'.mmu.pe
            && (words != [] && !Faulted(c') ==> c'.regs == c.regs[SP := StackAt(c, -(n * |words|))])
    decreases |words|
  {
    hide PushW, StackAt;
    if words != [] {
      var c1, k := PushW(c, n, words[0]), |words| - 1;
      PushMoves(c, n, words[0]);
      PushAllMoves(c1, n, words[1..]);
      if Faulted(c1) {
        PushAllSticks(c1, n, words[1..]);
      } else {
        Division.Distribute(k, 1, n);
        if k > 0 { StackAgain(c, c1, -(n as int), -(n * k)); }
      }
    }
  }

  lemma PushMoves(c: Cpu, n: WordSize, v: u64)
    requires c.Valid() && c.mmu.pe
    ensures var c' := PushW(c, n, v);
            && c' == c.(mmu := c'.mmu, regs := c'.regs)
            && c'.mmu.cs == c.mmu.cs && c'.mmu.efer == c.mmu.efer && c'.mmu.pe
            && (!Faulted(c') ==> c'.regs == c.regs[SP := StackAt(c, -(n as int))])
  {
    hide Access, StackAt, LinearAddr, WriteSize;
    AccessKeepsMode(c.mmu, LinearAddr(c, Ss, StackAt(c, 0 - n as int)), true, false);
  }

  lemma StackAgain(c: Cpu, c1: Cpu, a: int, b: int)
    requires c.Valid() && c1 == c.(mmu := c1.mmu, regs := c.regs[SP := StackAt(c, a)]) && c1.Valid()
    requires c1.mmu.efer == c.mmu.efer
    ensures StackAt(c1, b) == StackAt(c, a + b)
  {
    hide State.Valid;
    Division.ModShift(c.regs[SP] + a, b, TWO64);
    Division.ModShift(c.regs[SP] + a, b, TWO32);
  }

  // ---- The entry ----

  /** Of the flags, TF, RF and -- through an interrupt gate -- IF are cleared. */
  ghost predicate HandlerFlags(f: Eflags, f': Eflags, interrupt: bool) {
    forall i: FlagNo :: f'[i] == (f[i] && i != 8 && i != 16 && !(interrupt && i == 9))
  }

  /** What entering a handler changes: CS and its descriptor, the stack, the cursor. */
  ghost predicate Entered(c: Cpu, selector: u16, ss: u16, sp: u64, e: Cpu)
    requires c.Valid()
  {
    && e.Valid() && e == c.(mmu := e.mmu, ss := ss, desc := e.desc, regs := c.regs[SP := sp])
    && e.mmu == c.mmu.(cs := selector, ipValid := false)
    && Described(e.desc[1], DescriptorBytes(c, selector))
  }

  lemma CodeLoaded(c: Cpu, c1: Cpu, selector: u16)
    requires c.Valid() && c.mmu.pe && c1.Valid() && c1 == c.(ss := c1.ss, desc := c1.desc, regs := c1.regs)
    ensures var e := LoadSeg(c1, Cs, selector);
            && e.Valid() && e == c1.(mmu := c.mmu.(cs := selector, ipValid := false), desc := e.desc)
            && Described(e.desc[1], DescriptorBytes(c, selector))
  {
    hide DescriptorFor, State.Valid, Described, DescriptorBytes;
    DescriptorIs(c, selector);
    SameDescriptor(c, c1, selector);
  }

  lemma SameDescriptor(c: Cpu, c1: Cpu, selector: u16)
    requires c.Valid() && c1.Valid() && c1.mmu == c.mmu && c1.ldtBase == c.ldtBase && c1.gdtBase == c.gdtBase
    ensures DescriptorFor(c1, selector) == DescriptorFor(c, selector)
  {
    hide LinearToPhysRo, ReadU64, ParseDescriptor;
  }

  lemma StackLoaded(c: Cpu, selector: u16)
    requires c.Valid() && c.mmu.pe
    ensures var l := LoadSeg(c, Ss, selector); l.Valid() && l == c.(ss := selector, desc := l.desc)
  {
    hide DescriptorFor, State.Valid;
  }

  /** The stack pointer a long-mode gate starts from. */
  function LongTop(c: Cpu, ist: nat, selector: u16): u64
    requires c.Valid()
  {
    var mem := c.mmu.mem;
    if ist > 0 then ReadU64(mem, Place(c, c.trBase + 0x24 + 8 * (ist - 1)))
    else if Inward(c, selector) then ReadU64(mem, Place(c, c.trBase + 4))
    else c.regs[4]
  }

  lemma LongEnters(c: Cpu, g: Gate)
    requires c.Valid() && c.mmu.pe
    ensures Entered(c, g.selector, if g.ist > 0 || Inward(c, g.selector) then 0 else c.ss,
                    LongTop(c, g.ist, g.selector) / 16 * 16, LongEntry(c, g))
  {
    hide DescriptorFor, ReadU64, Place, LoadSeg, State.Valid, LinearToPhysRo, Described, DescriptorBytes, Inward;
    InwardIs(c, g.selector);
    PlaceIs(c, c.trBase + 4);
    if g.ist > 0 { PlaceIs(c, c.trBase + 0x24 + (g.ist - 1) * 8); }
    StackLoaded(c, 0);
    var top := LongTop(c, g.ist, g.selector);
    var c1 := if g.ist > 0 || Inward(c, g.selector) then LoadSeg(c, Ss, 0).(regs := c.regs[SP := top]) else c;
    assert c.regs[SP := c.regs[SP]] == c.regs;
    CodeLoaded(c, c1, g.selector);
    assert c1.regs[SP := top / 16 * 16] == c.regs[SP := top / 16 * 16];
  }

  /** The fields of a sixteen-byte gate at `a`. */
  ghost predicate LongFields(mem: Ram, a: nat, g: Gate)
    requires mem.Valid()
  {
    && g.target == ReadU16(mem, a) + 0x1_0000 * ReadU16(mem, a + 6) + TWO32 * ReadU32(mem, a + 8)
    && g.selector == ReadU16(mem, a + 2) && g.ist == ReadU8(mem, a + 4) % 8 && g.kind == ReadU8(mem, a + 5) % 16
  }

  lemma LongFieldsAre(c: Cpu, vector: u8)
    requires c.Valid()
    ensures LongFields(c.mmu.mem, Place(c, c.idtBase + 16 * vector), LongGate(c, vector))
  {
    hide ReadU8, ReadU16, ReadU32, Place, LinearToPhysRo;
    PlaceIs(c, c.idtBase + vector * 16);
  }

  /** Long mode. The handler's address and selector are those of the gate, its stack that
      of the IST entry, of RSP0 when it is more privileged, or the interrupted one, then
      aligned down to 16 with the frame below it; SS is null on a new stack. */
  lemma LongMeans(c: Cpu, vector: u8, err: Option<u32>)
    requires c.Valid() && c.mmu.pe
    ensures var mem, a := c.mmu.mem, Place(c, c.idtBase + 16 * vector);
            var selector, ist, kind := ReadU16(mem, a + 2), ReadU8(mem, a + 4) % 8, ReadU8(mem, a + 5) % 16;
            var c', count := LongInt(c, vector, err), if err.Some? then 6 else 5;
            && c'.rip == ReadU16(mem, a) + 0x1_0000 * ReadU16(mem, a + 6) + TWO32 * ReadU32(mem, a + 8)
            && c'.mmu.cs == selector && Described(c'.desc[1], DescriptorBytes(c, selector))
            && c'.ss == (if ist > 0 || Inward(c, selector) then 0 else c.ss)
            && HandlerFlags(c.flags, c'.flags, kind == 14) && !c'.mmu.ipValid
            && (!Faulted(c') ==>
                  c'.regs == c.regs[4 := (LongTop(c, ist, selector) / 16 * 16 - 8 * count)
                                         % if c.mmu.efer.lma && c'.desc[1].l then TWO64 else TWO32])
  {
    hide ReadU8, ReadU16, ReadU32, Place, LongGate, LongEntry, PushAll, LongTop, Inward, State.Valid, Described,
      DescriptorBytes, FlagsWord;
    LongFieldsAre(c, vector);
    var g := LongGate(c, vector);
    LongEnters(c, g);
    var e, words := LongEntry(c, g), LongFrame(c) + ErrorWord(err);
    PushAllMoves(e, 8, words);
  }

  // ---- 32-bit gates ----

  /** The fields of an eight-byte gate at `a`. */
  ghost predicate ShortFields(mem: Ram, a: nat, g: Gate)
    requires mem.Valid()
  {
    && g.target == ReadU16(mem, a) + 0x1_0000 * ReadU16(mem, a + 6)
    && g.selector == ReadU16(mem, a + 2) && g.kind == ReadU8(mem, a + 5) % 16
  }

  lemma ShortFieldsAre(c: Cpu, vector: u8)
    requires c.Valid()
    ensures ShortFields(c.mmu.mem, Place(c, c.idtBase + 8 * vector), ProtectedGate(c, vector))
  {
    hide ReadU8, ReadU16, Place, LinearToPhysRo;
    PlaceIs(c, c.idtBase + vector * 8);
  }

  /** SS0 and ESP0 of the task-state segment, or the interrupted stack. */
  function ShortSs(c: Cpu, selector: u16): u16
    requires c.Valid()
  {
    if Inward(c, selector) then ReadU16(c.mmu.mem, Place(c, c.trBase + 8)) else c.ss
  }

  function ShortTop(c: Cpu, selector: u16): u64
    requires c.Valid()
  {
    if Inward(c, selector) then ReadU32(c.mmu.mem, Place(c, c.trBase + 4)) else c.regs[4]
  }

  lemma ShortEnters(c: Cpu, g: Gate)
    requires c.Valid() && c.mmu.pe
    ensures Entered(c, g.selector, ShortSs(c, g.selector), ShortTop(c, g.selector), ProtectedEntry(c, g))
  {
    hide DescriptorFor, ReadU16, ReadU32, Place, LoadSeg, State.Valid, LinearToPhysRo, Described, DescriptorBytes,
      Inward;
    InwardIs(c, g.selector);
    PlaceIs(c, c.trBase + 4);
    PlaceIs(c, c.trBase + 8);
    StackLoaded(c, ShortSs(c, g.selector));
    var c1 := if Inward(c, g.selector)
              then LoadSeg(c, Ss, ShortSs(c, g.selector)).(regs := c.regs[SP := ShortTop(c, g.selector)]) else c;
    assert c.regs[SP := c.regs[SP]] == c.regs;
    CodeLoaded(c, c1, g.selector);
  }

  /** 32-bit protected mode: the same from the shorter gate, with SS0:ESP0 on a switch
      and the interrupted SS:ESP in the frame only then. */
  lemma ProtectedMeans(c: Cpu, vector: u8, err: Option<u32>)
    requires c.Valid() && c.mmu.pe && !c.mmu.efer.lma
    ensures var mem, a := c.mmu.mem, Place(c, c.idtBase + 8 * vector);
            var selector, kind := ReadU16(mem, a + 2), ReadU8(mem, a + 5) % 16;
            var c' := ProtectedInt(c, vector, err);
            var count := (if Inward(c, selector) then 5 else 3) + if err.Some? then 1 else 0;
            && c'.rip == ReadU16(mem, a) + 0x1_0000 * ReadU16(mem, a + 6)
            && c'.mmu.cs == selector && Described(c'.desc[1], DescriptorBytes(c, selector))
            && c'.ss == ShortSs(c, selector)
            && HandlerFlags(c.flags, c'.flags, kind == 6 || kind == 14) && !c'.mmu.ipValid
            && (!Faulted(c') ==> c'.regs == c.regs[4 := (ShortTop(c, selector) - 4 * count) % TWO32])
  {
    hide ReadU8, ReadU16, ReadU32, Place, ProtectedGate, ProtectedEntry, PushAll, ShortTop, ShortSs, Inward,
      State.Valid, Described, DescriptorBytes, FlagsWord, DescriptorFor;
    ShortFieldsAre(c, vector);
    var g := ProtectedGate(c, vector);
    InwardIs(c, g.selector);
    ShortEnters(c, g);
    var e, words := ProtectedEntry(c, g), ProtectedFrame(c, Switching(c, g)) + ErrorWord(err);
    PushAllMoves(e, 4, words);
    TargetFits(c, g);
  }

  lemma TargetFits(c: Cpu, g: Gate)
    requires g.target < TWO32
    ensures g.target % TWO32 == g.target
  {
  }

  // ---- The frame ----

  /** The words on the handler's stack, from its pointer up. */
  function FrameWords(c: Cpu, vector: u8, err: Option<u32>): seq<u64>
    requires c.Valid()
  {
    var flags := FlagsWord(c.flags) % TWO64;
    ErrorWord(err) +
    if c.mmu.efer.lma then [c.rip, c.mmu.cs, flags, c.regs[4], c.ss]
    else if Inward(c, ReadU16(c.mmu.mem, Place(c, c.idtBase + 8 * vector) + 2)) then
      [c.rip % TWO32, c.mmu.cs, flags, c.regs[4] % TWO32, c.ss]
    else [c.rip % TWO32, c.mmu.cs, flags]
  }

  /** Bit `i` of the pushed flags word is flag `i`. */
  lemma {:induction false} FlagsBit(f: seq<bool>, i: nat)
    requires i < |f|
    ensures BitRange(i) > 0 && (BitsToNat(f) / BitRange(i) % 2 == 1 <==> f[i])
    decreases i
  {
    var rest, bit := BitsToNat(f[1..]), if f[0] then 1 else 0;
    LowBit(bit, rest);
    if i > 0 {
      FlagsBit(f[1..], i - 1);
      Division.DivDiv(bit + 2 * rest, 2, BitRange(i - 1));
    }
  }

  // ---- The flags word read back ----

  lemma {:induction false} BitsRead(v: nat, k: nat, i: nat)
    requires i < k
    ensures BitRange(i) > 0 && (NatToBits(v, k)[i] <==> v / BitRange(i) % 2 == 1)
    decreases k
  {
    if i > 0 {
      BitsRead(v / 2, k - 1, i - 1);
      Division.DivDiv(v, 2, BitRange(i - 1));
    }
  }

  /** What is left of the mask 0x003F_7FD5 when its low bits are shifted out. */
  const MASK_FROM: seq<nat> :=
    [0x3F7FD5, 0x1FBFEA, 0xFDFF5, 0x7EFFA, 0x3F7FD, 0x1FBFE, 0xFDFF, 0x7EFF, 0x3F7F, 0x1FBF, 0xFDF, 0x7EF, 0x3F7,
     0x1FB, 0xFD, 0x7E, 0x3F, 0x1F, 0xF, 0x7, 0x3, 0x1, 0x0, 0x0, 0x0, 0x0, 0x0, 0x0, 0x0, 0x0, 0x0, 0x0]

  lemma {:induction false} MaskFrom(i: nat)
    requires i < 32
    ensures BitRange(i) > 0 && 0x3F_7FD5 / BitRange(i) == MASK_FROM[i]
  {
    if i > 0 {
      MaskFrom(i - 1);
      Division.DivDiv(0x3F_7FD5, BitRange(i - 1), 2);
      MaskStep(i);
    }
  }

  lemma MaskStep(i: nat)
    requires 0 < i < 32
    ensures MASK_FROM[i - 1] / 2 == MASK_FROM[i]
  {
  }

  lemma MaskBit(i: FlagNo)
    ensures MASK_FROM[i] % 2 == 1 <==> Writable(i)
  {
  }

  /** A flags word that software writes sets the bits that are set in 0x003F_7FD5 and
      leaves the others, but that bit 1 comes out set. */
  lemma WriteFlagsMeans(was: Eflags, w: u32, i: FlagNo)
    ensures BitRange(i) > 0
    ensures WriteFlags(was, WordFlags(w))[i] <==>
              if 0x3F_7FD5 / BitRange(i) % 2 == 1 then w / BitRange(i) % 2 == 1 else i == 1 || was[i]
  {
    BitsRead(w, 32, i);
    MaskFrom(i);
    MaskBit(i);
    hide Writable, BitRange, NatToBits;
  }

  lemma SwitchIs(c: Cpu, vector: u8)
    requires c.Valid() && !c.mmu.efer.lma
    ensures SwitchedIn(c, vector) <==> Inward(c, ReadU16(c.mmu.mem, Place(c, c.idtBase + 8 * vector) + 2))
  {
    hide ReadU8, ReadU16, Place, ProtectedGate, Inward, DescriptorFor;
    ShortFieldsAre(c, vector);
    InwardIs(c, ProtectedGate(c, vector).selector);
  }

  lemma WordsAre(c: Cpu, vector: u8, err: Option<u32>)
    requires c.Valid()
    ensures Reversed(Pushes(c, vector) + ErrorWord(err)) == FrameWords(c, vector, err)
  {
    hide Pushes, SwitchedIn, FlagsWord, Inward, Place, ReadU16;
    PushedWords(c, vector);
    Division.DivUnique(FlagsWord(c.flags), TWO64, 0, FlagsWord(c.flags));
    if !c.mmu.efer.lma { SwitchIs(c, vector); }
    var words := Pushes(c, vector);
    assert Reversed(words + ErrorWord(err)) == ErrorWord(err) + Reversed(words);
  }

  /** From the handler's stack pointer up lie the error code, if any, then RIP, CS,
      RFLAGS and, in long mode or on a switch, the interrupted RSP and SS. */
  lemma FrameMeans(c: Cpu, vector: u8, err: Option<u32>, D: iset<nat>)
    requires Sound(c, D) && !Faulted(c) && FlagsOk(c.flags) && HasRoom(c, vector, err, D)
    requires !Faulted(Deliver(c, vector, err))
    ensures var c', n, words := Deliver(c, vector, err), WordOf(c), FrameWords(c, vector, err);
            HoldAll(c'.mmu.mem, PopSlots(c', n, |words|), n, words, D)
  {
    hide Landing, Target, FlagsOk, Inv, Separate, PushAll, Pushes, Shifted, ErrorWord, Deliver, EntryFlags, PushSlots,
      SameMachine, Reversed, StackAt, SlotAt, GoodSlots, HoldAll, SameBut, PopSlots, FrameWords, Above, Modulus;
    var e, n, words := Landing(c, vector), WordOf(c), Pushes(c, vector) + ErrorWord(err);
    GoodPrefix(c.mmu.mem, DeliverySlots(c, vector, err), Above(c, vector), n, D);
    LandingFacts(c, vector);
    SegmentsKeepSound(c, e, D);
    PushesFit(c, vector);
    ErrorFits(err);
    PushAllFacts(e, n, words, D);
    DeliverIsPushes(c, vector, err);
    EnteredState(c, vector, err, D);
    WordsAre(c, vector, err);
    assert words + [] == words;
    FrameHeld(Deliver(c, vector, err).mmu.mem, e, n, words, [], D);
    PopsReversePushes(e, Deliver(c, vector, err), n, |words|);
  }
}
