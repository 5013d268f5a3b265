/** Delivery and return are inverse at any nesting depth. */
module Frames {
  import opened Words
  import opened Memory
  import opened Mmu
  import opened TlbRefinement
  import opened AddressSpace
  import opened Operands
  import opened Alu
  import opened Processor
  import opened DataAccess
  import opened Interrupts
  import opened StackWords
  import Division

  // ---- What a frame is for ----

  /** What an interrupted program owns and a return must give back. */
  datatype Context = Context(rip: u64, cs: u16, flags: Eflags, rsp: u64, ss: u16)

  /** Outside long mode RIP and RSP have no upper halves. */
  function ContextOf(c: Cpu): Context
    requires c.Valid()
  {
    if c.mmu.efer.lma then Context(c.rip, c.mmu.cs, c.flags, c.regs[SP], c.ss)
    else Context(c.rip % TWO32, c.mmu.cs, c.flags, c.regs[SP] % TWO32, c.ss)
  }

  function WordOf(c: Cpu): WordSize { if c.mmu.efer.lma then 8 else 4 }

  function Target(c: Cpu, vector: u8): Gate
    requires c.Valid()
  {
    if c.mmu.efer.lma then LongGate(c, vector) else ProtectedGate(c, vector)
  }

  /** The processor on the handler's stack and at its privilege, about to push. */
  function Landing(c: Cpu, vector: u8): (c': Cpu)
    requires c.Valid()
    ensures c'.Valid()
  {
    if c.mmu.efer.lma then LongEntry(c, Target(c, vector)) else ProtectedEntry(c, Target(c, vector))
  }

  /** The words of the frame below the error code, in push order. */
  function Pushes(c: Cpu, vector: u8): (words: seq<u64>)
    requires c.Valid()
    ensures |words| == if c.mmu.efer.lma || SwitchedIn(c, vector) then 5 else 3
  {
    if c.mmu.efer.lma then LongFrame(c) else ProtectedFrame(c, Switching(c, Target(c, vector)))
  }

  /** The return pops SS:ESP when the CS it pops is less privileged than its own. */
  predicate Outward(from: u16, to: u16) { to % 4 > from % 4 }

  /** Outside long mode, whether the stack is switched on the way in is a question
      about the target's DPL, and whether it is on the way out about the two selectors'
      RPLs. In long mode the frame has one shape. */
  predicate SwitchedIn(c: Cpu, vector: u8)
    requires c.Valid()
  {
    !c.mmu.efer.lma && Switching(c, Target(c, vector))
  }

  predicate SwitchedOut(c: Cpu, vector: u8)
    requires c.Valid()
  {
    !c.mmu.efer.lma && Outward(Target(c, vector).selector, c.mmu.cs)
  }

  predicate Honest(c: Cpu, vector: u8)
    requires c.Valid()
  {
    SwitchedIn(c, vector) <==> SwitchedOut(c, vector)
  }

  /** Homes of the program's own top two words, when a return will take them for SS:ESP. */
  function Above(c: Cpu, vector: u8): seq<nat>
    requires c.Valid()
  {
    if !SwitchedIn(c, vector) && SwitchedOut(c, vector) then [SlotAt(c, 0), SlotAt(c, 4)] else []
  }

  function WordsAbove(c: Cpu, vector: u8): (words: seq<u64>)
    requires c.Valid()
    ensures |words| == |Above(c, vector)|
  {
    var above := Above(c, vector);
    seq<u64>(|above|, i requires 0 <= i < |above| => ReadSize(c.mmu.mem, above[i], 4))
  }

  /** What a return past a gate that is not honest takes for the interrupted
      program's stack: the handler's own, a frame's first two words below its top,
      or whatever the program kept in its top two words. */
  function Mistaken(c: Cpu, vector: u8): (ctx: Context)
    requires c.Valid()
  {
    if SwitchedIn(c, vector) then
      ContextOf(c).(rsp := Wrap32(TssStack0(c).1 - 8), ss := TssStack0(c).0)
    else
      ContextOf(c).(rsp := ReadSize(c.mmu.mem, SlotAt(c, 0), 4) % TWO32,
                    ss := ReadSize(c.mmu.mem, SlotAt(c, 4), 4) % 0x1_0000)
  }

  /** The context a delivery saves, as the return through its frame will see it. */
  function Saved(c: Cpu, vector: u8): (ctx: Context)
    requires c.Valid()
  {
    if Honest(c, vector) then ContextOf(c) else Mistaken(c, vector)
  }

  function Reversed<T>(s: seq<T>): (r: seq<T>)
    ensures |r| == |s|
  {
    seq(|s|, i requires 0 <= i < |s| => s[|s| - 1 - i])
  }

  /** A live frame: the context it saves, the selector and stack pointer its handler
      returns with, and the words its return pops with their homes, in pop order. */
  datatype Frame = Frame(ctx: Context, cs: u16, sp: u64, words: seq<u64>, slots: seq<nat>)

  function FrameOf(c: Cpu, vector: u8): Frame
    requires c.Valid()
  {
    var e, n, words := Landing(c, vector), WordOf(c), Pushes(c, vector);
    var k := if c.mmu.efer.lma || SwitchedOut(c, vector) then 5 else 3;
    Frame(Saved(c, vector), Target(c, vector).selector, StackAt(e, -(n * |words|)),
          (Reversed(words) + WordsAbove(c, vector))[..k],
          (Reversed(PushSlots(e, n, |words|)) + Above(c, vector))[..k])
  }

  /** How many words the return pops, and whose they are. */
  lemma FrameShape(c: Cpu, vector: u8)
    requires c.Valid()
    ensures var f, k := FrameOf(c, vector), |Pushes(c, vector)|;
            && |f.words| == |f.slots| == (if c.mmu.efer.lma || SwitchedOut(c, vector) then 5 else 3)
            && |f.words| <= k + |Above(c, vector)| && |WordsAbove(c, vector)| == |Above(c, vector)|
            && (Above(c, vector) != [] ==> k == 3 && WordOf(c) == 4 && !c.mmu.efer.lma && !SwitchedIn(c, vector))
            && (Above(c, vector) != [] ==> |f.words| == 5)
  {
    hide Landing, Target, Switching, Outward, StackAt, SlotAt, ReadSize, State.Valid, FlagsWord, Saved, Reversed;
  }

  /** The reserved bits of EFLAGS have their architectural values. */
  predicate FlagsOk(f: Eflags) { forall i: FlagNo :: !Writable(i) ==> f[i] == (i == 1) }

  /** The first three words popped spell out RIP, CS and the flags of `ctx`. */
  ghost predicate Spells(words: seq<u64>, ctx: Context) {
    && |words| >= 3 && ctx.rip == words[0] % TWO32 && ctx.cs == words[1] % 0x1_0000
    && FlagsOk(ctx.flags) && words[2] == FlagsWord(ctx.flags)
  }

  /** The words of a frame are what its return makes its context from. */
  ghost predicate Encodes(f: Frame, long: bool) {
    var ctx := f.ctx;
    && |f.slots| == |f.words|
    && if long then
         FlagsOk(ctx.flags) && f.words == [ctx.rip, ctx.cs, FlagsWord(ctx.flags), ctx.rsp, ctx.ss]
       else if Outward(f.cs, ctx.cs) then
         && |f.words| == 5 && Spells(f.words, ctx)
         && ctx.rsp == f.words[3] % TWO32 && ctx.ss == f.words[4] % 0x1_0000
       else |f.words| == 3 && Spells(f.words, ctx) && ctx.rsp == Wrap32(f.sp + 12)
  }

  /** The handler is about to return: its own code segment, and the stack pointer
      where the frame is, mapped to where the frame was written. */
  ghost predicate AtFrame(c: Cpu, f: Frame)
    requires c.Valid()
  {
    && c.mmu.cs == f.cs && StackPtr(c) == f.sp
    && PopSlots(c, WordOf(c), |f.slots|) == f.slots
    && (|f.words| == 3 ==> c.ss == f.ctx.ss)
  }

  function Deliver(c: Cpu, vector: u8, err: Option<u32>): (c': Cpu)
    requires c.Valid()
    ensures c'.Valid()
  {
    ProtectedInt(c, vector, err)
  }

  function Return(c: Cpu): (c': Cpu)
    requires c.Valid()
    ensures c'.Valid()
  {
    if c.mmu.efer.lma then Iretq(c) else Iret32(c)
  }

  // ---- Segment loads ----

  /** Segments, registers, RIP and flags may differ; paging and memory may not. */
  predicate SegmentsOnly(c: Cpu, c': Cpu) {
    && c'.Valid()
    && c'.mmu == c.mmu.(cs := c'.mmu.cs, ipValid := c'.mmu.ipValid)
  }

  lemma LoadSegOnly(c: Cpu, s: SegReg, selector: u16)
    requires c.Valid()
    ensures var c' := LoadSeg(c, s, selector);
            && SegmentsOnly(c, c') && c'.regs == c.regs && c'.flags == c.flags && c'.rip == c.rip
            && Selector(c', s) == selector
            && (s == Ss ==> c'.mmu.cs == c.mmu.cs) && (s == Cs ==> c'.ss == c.ss)
  {
    hide DescriptorFor, State.Valid;
  }

  lemma SegmentsKeepSound(c: Cpu, c': Cpu, D: iset<nat>)
    requires Sound(c, D) && SegmentsOnly(c, c')
    ensures Sound(c', D)
  {
    hide Walk, Tables, InEntry;
    var s, s' := c.mmu, c'.mmu;
    forall l: u64 ensures Walk(s', l) == Walk(s, l) && Tables(s', l) == Tables(s, l) { SameTables(s, s', l); }
    forall i | 0 <= i < TLB_SIZE
      ensures Agrees(s', s'.tlb[i])
    {
      assert Agrees(s, s.tlb[i]);
    }
  }

  lemma SameTables(s: State, s': State, l: u64)
    requires s.Valid() && s' == s.(cs := s'.cs, ipValid := s'.ipValid)
    ensures s'.Valid() && Walk(s', l) == Walk(s, l) && Tables(s', l) == Tables(s, l)
  {
  }

  lemma LandingFacts(c: Cpu, vector: u8)
    requires c.Valid()
    ensures var e := Landing(c, vector);
            && SegmentsOnly(c, e) && e.flags == c.flags && e.mmu.cs == Target(c, vector).selector
            && (!c.mmu.efer.lma && !Switching(c, Target(c, vector)) ==> e.regs == c.regs && e.ss == c.ss)
  {
    hide LoadSeg, DescriptorFor, LongGate, ProtectedGate, TssIst, TssRsp0, TssStack0, State.Valid, Switching;
    var g := Target(c, vector);
    if c.mmu.efer.lma {
      LoadSegOnly(c, Ss, 0);
      var l := LoadSeg(c, Ss, 0);
      var c1 := if g.ist != 0 then l.(regs := l.regs[SP := TssIst(c, g.ist)])
                else if DescriptorFor(c, g.selector).dpl < Cpl(c.mmu.pe, c.mmu.cs) then
                  l.(regs := l.regs[SP := TssRsp0(c)])
                else c;
      LoadSegOnly(c1, Cs, g.selector);
    } else {
      var (ss0, esp0) := TssStack0(c);
      LoadSegOnly(c, Ss, ss0);
      var l := LoadSeg(c, Ss, ss0);
      var c1 := if Switching(c, g) then l.(regs := l.regs[SP := esp0]) else c;
      LoadSegOnly(c1, Cs, g.selector);
    }
  }

  // ---- Delivery ----

  lemma ReversedFive(a: u64, b: u64, c: u64, d: u64, e: u64)
    ensures Reversed([a, b, c, d, e]) == [e, d, c, b, a] && Reversed([a, b, c]) == [c, b, a]
  {
  }

  lemma FrameEncodes(c: Cpu, vector: u8)
    requires c.Valid() && FlagsOk(c.flags)
    ensures Encodes(FrameOf(c, vector), c.mmu.efer.lma)
  {
    hide Landing, Target, FlagsOk, State.Valid, SlotAt, StackAt, Switching, Reversed, Pushes, ReadSize, TssStack0,
      FlagsWord;
    PushedWords(c, vector);
    if !c.mmu.efer.lma && !SwitchedOut(c, vector) {
      PointerOut(c, vector);
    }
  }

  /** The words pushed, in pop order. */
  lemma PushedWords(c: Cpu, vector: u8)
    requires c.Valid()
    ensures var words, ctx, flags := Reversed(Pushes(c, vector)), ContextOf(c), FlagsWord(c.flags);
            && flags < TWO64
            && words == (if c.mmu.efer.lma || SwitchedIn(c, vector) then [ctx.rip, ctx.cs, flags, ctx.rsp, ctx.ss]
                         else [ctx.rip, ctx.cs, flags])
  {
    hide Target, Switching, FlagsWord, Reversed, State.Valid;
    FlagsWordFits(c.flags);
    var ctx, flags := ContextOf(c), FlagsWord(c.flags);
    ReversedFive(ctx.ss, ctx.rsp, flags, ctx.cs, ctx.rip);
    ReversedFive(flags, ctx.cs, ctx.rip, 0, 0);
    Division.DivUnique(flags, TWO64, 0, flags);
    if c.mmu.efer.lma || SwitchedIn(c, vector) {
      assert Pushes(c, vector) == [ctx.ss, ctx.rsp, flags, ctx.cs, ctx.rip];
    } else {
      assert Pushes(c, vector) == [flags, ctx.cs, ctx.rip];
    }
  }

  /** The pointer a return that does not switch leaves. */
  lemma PointerOut(c: Cpu, vector: u8)
    requires c.Valid() && !c.mmu.efer.lma && !SwitchedOut(c, vector)
    ensures Saved(c, vector).rsp == Wrap32(FrameOf(c, vector).sp + 12)
  {
    hide Landing, Target, State.Valid, SlotAt, SwitchedOut, Reversed, ReadSize, TssStack0, Switching;
    if SwitchedIn(c, vector) {
      LandingSwitched(c, vector);
      Division.ModShift(TssStack0(c).1 - 20, 12, TWO32);
    } else {
      UnswitchedPointer(c, vector);
    }
  }

  lemma LandingSwitched(c: Cpu, vector: u8)
    requires c.Valid() && SwitchedIn(c, vector)
    ensures var e, (ss0, esp0) := Landing(c, vector), TssStack0(c);
            e.regs[SP] == esp0 && e.ss == ss0 && e.mmu.efer == c.mmu.efer
  {
    hide DescriptorFor, State.Valid, TssStack0, Switching, LoadSeg, Target;
    var (ss0, esp0) := TssStack0(c);
    LoadSegOnly(c, Ss, ss0);
    var l := LoadSeg(c, Ss, ss0);
    LoadSegOnly(l.(regs := l.regs[SP := esp0]), Cs, Target(c, vector).selector);
  }

  lemma UnswitchedPointer(c: Cpu, vector: u8)
    requires c.Valid() && !c.mmu.efer.lma && !Switching(c, Target(c, vector))
    ensures c.regs[SP] % TWO32 == Wrap32(StackAt(Landing(c, vector), -12) + 12)
  {
    hide Landing, Target, Switching, State.Valid;
    LandingFacts(c, vector);
    var x: int := c.regs[SP];
    Division.ModShift(x - 12, 12, TWO32);
  }

  lemma PushesFit(c: Cpu, vector: u8)
    requires c.Valid()
    ensures forall w :: w in Pushes(c, vector) ==> w < Modulus(WordOf(c))
  {
    hide Target, DescriptorFor, State.Valid, Switching, BitsToNat, NatToBits;
    FlagsWordFits(c.flags);
  }

  /** Words and homes of a frame, in push order, whatever is pushed after it. */
  lemma FrameHeld(mem: Ram, e: Cpu, n: WordSize, words: seq<u64>, more: seq<u64>, D: iset<nat>)
    requires e.Valid() && mem.Valid()
    requires HoldAll(mem, PushSlots(e, n, |words + more|), n, words + more, D)
    ensures HoldAll(mem, Reversed(PushSlots(e, n, |words|)), n, Reversed(words), D)
  {
    hide Holds, SlotAt;
    var k, slots := |words|, PushSlots(e, n, |words + more|);
    forall i | 0 <= i < k
      ensures Holds(mem, Reversed(PushSlots(e, n, k))[i], n, Reversed(words)[i], D)
    {
      assert Holds(mem, slots[k - 1 - i], n, (words + more)[k - 1 - i], D);
    }
  }

  /** Homes of everything a delivery pushes, the error code included. */
  function DeliverySlots(c: Cpu, vector: u8, err: Option<u32>): (slots: seq<nat>)
    requires c.Valid()
  {
    PushSlots(Landing(c, vector), WordOf(c), |Pushes(c, vector) + ErrorWord(err)|)
  }

  /** The words pushed go to RAM that is data, and so are the words of `Above`, apart
      from them. */
  ghost predicate HasRoom(c: Cpu, vector: u8, err: Option<u32>, D: iset<nat>)
    requires c.Valid()
  {
    GoodSlots(c.mmu.mem, DeliverySlots(c, vector, err) + Above(c, vector), WordOf(c), D)
  }

  lemma GoodPrefix(mem: Ram, a: seq<nat>, b: seq<nat>, n: Size, D: iset<nat>)
    requires mem.Valid() && GoodSlots(mem, a + b, n, D)
    ensures GoodSlots(mem, a, n, D)
  {
    hide DataAt, Backed, Apart;
    forall i | 0 <= i < |a| ensures DataAt(mem, a[i], n, D) && Backed(mem, a[i], n) { assert (a + b)[i] == a[i]; }
    forall i, j | 0 <= i < j < |a| ensures Apart(a[i], a[j], n) { assert Apart((a + b)[i], (a + b)[j], n); }
  }

  /** The state after a delivery: the frame in place, every other byte of data as
      it was, the handler's code segment loaded. */
  ghost predicate Delivered(c: Cpu, vector: u8, err: Option<u32>, D: iset<nat>, c': Cpu)
    requires c.Valid()
  {
    var f, e, n := FrameOf(c, vector), Landing(c, vector), WordOf(c);
    && Sound(c', D) && FlagsOk(c'.flags) && c'.mmu.efer == c.mmu.efer && c'.mmu.cs == f.cs && c'.ss == e.ss
    && HoldAll(c'.mmu.mem, f.slots, n, f.words, D)
    && |c'.mmu.mem.data| == |c.mmu.mem.data|
    && SameBut(c.mmu.mem, c'.mmu.mem, DeliverySlots(c, vector, err), n, D)
    && Shifted(e, c', -(n * |Pushes(c, vector) + ErrorWord(err)|))
  }

  lemma DeliverFacts(c: Cpu, vector: u8, err: Option<u32>, D: iset<nat>)
    requires Sound(c, D) && !Faulted(c) && FlagsOk(c.flags)
    requires HasRoom(c, vector, err, D)
    ensures !Faulted(Deliver(c, vector, err)) ==> Delivered(c, vector, err, D, Deliver(c, vector, err))
  {
    hide Landing, Target, FlagsOk, Inv, Separate, PushAll, GoodSlots, PushSlots, Modulus, Pushes, Delivered, Pushed,
      ErrorWord, Deliver, Above;
    GoodPrefix(c.mmu.mem, DeliverySlots(c, vector, err), Above(c, vector), WordOf(c), D);
    var e, n, words := Landing(c, vector), WordOf(c), Pushes(c, vector) + ErrorWord(err);
    LandingFacts(c, vector);
    SegmentsKeepSound(c, e, D);
    PushesFit(c, vector);
    ErrorFits(err);
    PushAllFacts(e, n, words, D);
    DeliverIsPushes(c, vector, err);
    if !Faulted(PushAll(e, n, words)) {
      PushedThenEntered(c, vector, err, D);
    }
  }

  lemma PushedThenEntered(c: Cpu, vector: u8, err: Option<u32>, D: iset<nat>)
    requires Sound(c, D) && FlagsOk(c.flags)
    requires var e, n, words := Landing(c, vector), WordOf(c), Pushes(c, vector) + ErrorWord(err);
             Pushed(e, n, words, D, PushAll(e, n, words))
    requires HasRoom(c, vector, err, D)
    ensures Delivered(c, vector, err, D, Deliver(c, vector, err))
  {
    hide Landing, Target, FlagsOk, Inv, Separate, PushAll, Pushes, HoldAll, SameBut, Shifted, SlotAt, StackAt,
      ErrorWord, Deliver, EntryFlags, Reversed, PushSlots, SameMachine, SegmentsOnly, Above, WordsAbove, HasRoom;
    EnteredState(c, vector, err, D);
    EnteredMemory(c, vector, err, D);
  }

  /** Of a delivery, all but what it left in memory. */
  lemma EnteredState(c: Cpu, vector: u8, err: Option<u32>, D: iset<nat>)
    requires Sound(c, D) && FlagsOk(c.flags)
    requires var e, n, words := Landing(c, vector), WordOf(c), Pushes(c, vector) + ErrorWord(err);
             Pushed(e, n, words, D, PushAll(e, n, words))
    ensures var c', e := Deliver(c, vector, err), Landing(c, vector);
            && Sound(c', D) && FlagsOk(c'.flags) && c'.mmu.efer == c.mmu.efer && c'.ss == e.ss
            && c'.mmu.cs == Target(c, vector).selector
            && Shifted(e, c', -(WordOf(c) * |Pushes(c, vector) + ErrorWord(err)|))
  {
    hide Landing, Target, FlagsOk, Inv, Separate, PushAll, Pushes, HoldAll, SameBut, Shifted, ErrorWord, Deliver,
      EntryFlags, PushSlots, SameMachine;
    var e, n, words := Landing(c, vector), WordOf(c), Pushes(c, vector) + ErrorWord(err);
    var c1, c' := PushAll(e, n, words), Deliver(c, vector, err);
    LandingFacts(c, vector);
    DeliverIsPushes(c, vector, err);
    PushedKeeps(e, c1);
    SegmentsKeepSound(c1, c', D);
    EntryFlagsOk(c.flags, c'.flags);
    ShiftedOn(e, c1, c', -(n * |words|));
  }

  /** ... and what it left in memory. */
  lemma EnteredMemory(c: Cpu, vector: u8, err: Option<u32>, D: iset<nat>)
    requires c.Valid() && HasRoom(c, vector, err, D)
    requires var e, n, words := Landing(c, vector), WordOf(c), Pushes(c, vector) + ErrorWord(err);
             Pushed(e, n, words, D, PushAll(e, n, words))
    ensures var c', f := Deliver(c, vector, err), FrameOf(c, vector);
            && |f.slots| == |f.words| && HoldAll(c'.mmu.mem, f.slots, WordOf(c), f.words, D)
            && |c'.mmu.mem.data| == |c.mmu.mem.data|
            && SameBut(c.mmu.mem, c'.mmu.mem, DeliverySlots(c, vector, err), WordOf(c), D)
  {
    hide Landing, Target, FlagsOk, Inv, Separate, PushAll, Pushes, HoldAll, SameBut, Shifted, ErrorWord, Deliver,
      EntryFlags, PushSlots, SameMachine, Reversed, StackAt, Above, WordsAbove, GoodSlots, SwitchedIn, SwitchedOut;
    var e, n, words := Landing(c, vector), WordOf(c), Pushes(c, vector) + ErrorWord(err);
    LandingFacts(c, vector);
    DeliverIsPushes(c, vector, err);
    PushedKeeps(e, PushAll(e, n, words));
    var mem' := Deliver(c, vector, err).mmu.mem;
    FrameHeld(mem', e, n, Pushes(c, vector), ErrorWord(err), D);
    AboveHeld(c, vector, err, mem', D);
    FrameShape(c, vector);
    HoldPrefix(mem', Reversed(PushSlots(e, n, |Pushes(c, vector)|)), Above(c, vector), n,
               Reversed(Pushes(c, vector)), WordsAbove(c, vector), |FrameOf(c, vector).words|, D);
  }

  /** The first words of two lists in memory. */
  lemma HoldPrefix(mem: Ram, a: seq<nat>, b: seq<nat>, n: Size, v: seq<u64>, w: seq<u64>, k: nat, D: iset<nat>)
    requires mem.Valid() && |a| == |v| && |b| == |w| && k <= |a| + |b|
    requires HoldAll(mem, a, n, v, D) && HoldAll(mem, b, n, w, D)
    ensures HoldAll(mem, (a + b)[..k], n, (v + w)[..k], D)
  {
    hide Holds;
    forall i | 0 <= i < k ensures Holds(mem, (a + b)[..k][i], n, (v + w)[..k][i], D) {
      if i < |a| { assert Holds(mem, a[i], n, v[i], D); } else { assert Holds(mem, b[i - |a|], n, w[i - |a|], D); }
    }
  }

  /** The program's own words are out of the delivery's way. */
  lemma AboveHeld(c: Cpu, vector: u8, err: Option<u32>, mem': Ram, D: iset<nat>)
    requires c.Valid() && HasRoom(c, vector, err, D) && mem'.Valid() && |mem'.data| == |c.mmu.mem.data|
    requires SameBut(c.mmu.mem, mem', DeliverySlots(c, vector, err), WordOf(c), D)
    ensures HoldAll(mem', Above(c, vector), WordOf(c), WordsAbove(c, vector), D)
  {
    hide GoodSlots, SameBut, ReadSize, SwitchedIn, SwitchedOut, SlotAt, DeliverySlots, Holds;
    var above := Above(c, vector);
    forall i | 0 <= i < |above| ensures Holds(mem', above[i], WordOf(c), WordsAbove(c, vector)[i], D) {
      assert WordOf(c) == 4 by { FrameShape(c, vector); }
      AboveKept(c.mmu.mem, mem', DeliverySlots(c, vector, err), above, 4, i, D);
    }
  }

  /** A word apart from everything a delivery pushes reads the same after it. */
  lemma AboveKept(mem: Ram, mem': Ram, slots: seq<nat>, more: seq<nat>, n: Size, i: nat, D: iset<nat>)
    requires mem.Valid() && mem'.Valid() && |mem'.data| == |mem.data| && i < |more|
    requires GoodSlots(mem, slots + more, n, D) && SameBut(mem, mem', slots, n, D)
    ensures Holds(mem', more[i], n, ReadSize(mem, more[i], n), D)
  {
    hide ReadSize, ReadU8, Backed;
    var all, a := slots + more, more[i];
    assert all[|slots| + i] == a;
    forall b | a <= b < a + n
      ensures ReadU8(mem', b) == ReadU8(mem, b)
    {
      forall k | 0 <= k < |slots| ensures b < slots[k] || slots[k] + n <= b {
        assert all[k] == slots[k] && Apart(all[k], all[|slots| + i], n);
      }
      assert OutsideSlots(slots, n, b);
    }
    HoldsStays(mem, mem', a, n, ReadSize(mem, a, n), D);
  }

  lemma ErrorFits(err: Option<u32>)
    ensures forall w, n: Size :: w in ErrorWord(err) && n >= 4 ==> w < Modulus(n)
  {
  }

  lemma DeliverIsPushes(c: Cpu, vector: u8, err: Option<u32>)
    requires c.Valid()
    ensures var c' := Deliver(c, vector, err);
            var c1 := PushAll(Landing(c, vector), WordOf(c), Pushes(c, vector) + ErrorWord(err));
            && c' == c1.(flags := c'.flags, rip := c'.rip, mmu := c1.mmu.(ipValid := false))
            && exists gate: bool :: c'.flags == EntryFlags(c1.flags, gate)
  {
    hide LongGate, ProtectedGate, DescriptorFor, PushAll, EntryFlags, LongEntry, ProtectedEntry, LongFrame,
      ProtectedFrame, Switching, State.Valid;
    var g := Target(c, vector);
    var c1 := PushAll(Landing(c, vector), WordOf(c), Pushes(c, vector) + ErrorWord(err));
    assert Deliver(c, vector, err).flags == EntryFlags(c1.flags, g.kind == 0xE)
        || Deliver(c, vector, err).flags == EntryFlags(c1.flags, g.kind == 0x6 || g.kind == 0xE);
  }

  lemma PushedKeeps(c: Cpu, c': Cpu)
    requires c.Valid() && SameMachine(c, c')
    ensures c'.flags == c.flags && c'.ss == c.ss && c'.mmu.cs == c.mmu.cs && c'.mmu.efer == c.mmu.efer
    ensures |c'.mmu.mem.data| == |c.mmu.mem.data|
  {
  }

  lemma EntryFlagsOk(f: Eflags, f': Eflags)
    requires FlagsOk(f) && exists gate: bool :: f' == EntryFlags(f, gate)
    ensures FlagsOk(f')
  {
  }

  lemma ShiftedOn(c: Cpu, c1: Cpu, c': Cpu, a: int)
    requires c.Valid() && c1.Valid() && c'.Valid() && Shifted(c, c1, a)
    requires SegmentsOnly(c1, c')
    requires c' == c1.(flags := c'.flags, rip := c'.rip, mmu := c1.mmu.(ipValid := c'.mmu.ipValid))
    ensures Shifted(c, c', a)
  {
    hide StackAt, SlotAt;
    forall d: int
      ensures StackAt(c', d) == StackAt(c, a + d) && SlotAt(c', d) == SlotAt(c, a + d)
    {
      assert StackAt(c1, d) == StackAt(c, a + d) && SlotAt(c1, d) == SlotAt(c, a + d);
      SameSlot(c1, c', d);
    }
  }

  lemma SameSlot(c: Cpu, c': Cpu, d: int)
    requires c.Valid() && SegmentsOnly(c, c')
    requires c' == c.(flags := c'.flags, rip := c'.rip, mmu := c.mmu.(ipValid := c'.mmu.ipValid))
    ensures StackAt(c', d) == StackAt(c, d) && SlotAt(c', d) == SlotAt(c, d)
  {
    hide Walk, State.Valid;
    var l := LinearAddr(c, Ss, StackAt(c, d));
    assert LinearAddr(c', Ss, StackAt(c', d)) == l;
    SameTables(c.mmu, c'.mmu, l);
  }

  // ---- Return ----

  lemma FlagsRestored(was: Eflags, f: Eflags)
    requires FlagsOk(was) && FlagsOk(f)
    ensures WriteFlags(was, WordFlags(FlagsWord(f) % TWO32)) == f
  {
    hide FlagsWord, WordFlags;
    FlagsWordFits(f);
    var r := WriteFlags(was, WordFlags(FlagsWord(f)));
    forall i: FlagNo ensures r[i] == f[i] {}
  }

  lemma LongReturn(c: Cpu, f: Frame, D: iset<nat>)
    requires Sound(c, D) && !Faulted(c) && FlagsOk(c.flags) && c.mmu.efer.lma
    requires Encodes(f, true) && AtFrame(c, f) && HoldAll(c.mmu.mem, f.slots, 8, f.words, D)
    ensures Restored(c, f.ctx, D, Iretq(c))
  {
    hide LoadSeg, PopAll, Inv, Separate, HoldAll, FlagsOk, SlotAt, StackAt, WriteFlags, WordFlags, FlagsWord,
      SameInside;
    PopAllFacts(c, 8, f.words, D);
    var (c1, w) := PopAll(c, 8, 5);
    LoadSegOnly(c1, Cs, w[1] % 0x1_0000);
    var c2 := LoadSeg(c1, Cs, w[1] % 0x1_0000);
    LoadSegOnly(c2, Ss, w[4] % 0x1_0000);
    if !Faulted(c1) {
      FlagsRestored(c.flags, f.ctx.flags);
      SegmentsKeepSound(c1, Iretq(c), D);
    }
  }

  lemma {:induction false} PopAllKeepsPe(c: Cpu, n: WordSize, k: nat)
    requires c.Valid() && c.mmu.pe
    ensures PopAll(c, n, k).0.mmu.pe
    decreases k
  {
    hide PopW;
    if k > 0 {
      PopKeepsPe(c, n);
      PopAllKeepsPe(PopW(c, n).0, n, k - 1);
    }
  }

  /** The slots still to pop after the first `k`. */
  lemma PopSlotsSplit(c: Cpu, c1: Cpu, n: WordSize, k: nat, more: nat)
    requires c.Valid() && c1.Valid() && Shifted(c, c1, n * k)
    ensures PopSlots(c, n, k) + PopSlots(c1, n, more) == PopSlots(c, n, k + more)
  {
    hide SlotAt, StackAt;
    var all, rest := PopSlots(c, n, k + more), PopSlots(c1, n, more);
    forall i: nat | i < more
      ensures rest[i] == all[k..][i]
    {
      assert n * k + n * i == n * (k + i);
      assert SlotAt(c1, n * i) == SlotAt(c, n * k + n * i);
    }
  }

  /** A 32-bit return that stays on its stack: three words, and the pointer moves past them. */
  lemma ShortReturn(c: Cpu, words: seq<u64>, ctx: Context, D: iset<nat>)
    requires Sound(c, D) && !Faulted(c) && FlagsOk(c.flags) && !c.mmu.efer.lma
    requires |words| == 3 && HoldAll(c.mmu.mem, PopSlots(c, 4, 3), 4, words, D)
    requires Spells(words, ctx) && !Outward(c.mmu.cs, ctx.cs)
    requires ctx.rsp == Wrap32(StackPtr(c) + 12) && ctx.ss == c.ss
    ensures Restored(c, ctx, D, Iret32(c))
  {
    hide LoadSeg, PopAll, Inv, Separate, HoldAll, FlagsOk, SlotAt, StackAt, WriteFlags, BitsToNat, NatToBits,
      SameInside, PopSlots, Shifted;
    PopAllFacts(c, 4, words, D);
    var (c1, w) := PopAll(c, 4, 3);
    if Faulted(c1) {
      Iret32Sticks(c);
    } else {
      LoadSegOnly(c1.(rip := w[0] % TWO32), Cs, w[1] % 0x1_0000);
      FlagsRestored(c.flags, ctx.flags);
      SegmentsKeepSound(c1, Iret32(c), D);
      PointerAfterThree(c, c1);
    }
  }

  lemma PointerAfterThree(c: Cpu, c1: Cpu)
    requires c.Valid() && c1.Valid() && !c.mmu.efer.lma && c1.mmu.efer == c.mmu.efer && Shifted(c, c1, 12)
    ensures c1.regs[SP] % TWO32 == Wrap32(StackPtr(c) + 12)
  {
    hide SlotAt;
    assert StackAt(c1, 0) == StackAt(c, 12);
    Division.ModShift(c.regs[SP], 12, TWO32);
  }

  lemma Iret32Sticks(c: Cpu)
    requires c.Valid() && c.mmu.pe && Faulted(PopAll(c, 4, 3).0)
    ensures Faulted(Iret32(c))
  {
    hide LoadSeg, PopAll, WriteFlags, WordFlags;
    var (c1, w) := PopAll(c, 4, 3);
    PopAllKeepsPe(c, 4, 3);
    PopAllSticks(c1, 4, 2);
    var (d, v) := PopAll(c1, 4, 2);
    LoadSegOnly(d, Ss, v[1] % 0x1_0000);
    var l := LoadSeg(d, Ss, v[1] % 0x1_0000);
    var c2 := if w[1] % 0x1_0000 % 4 > Cpl(c1.mmu.pe, c1.mmu.cs) then l.(regs := l.regs[SP := v[0] % TWO32]) else c1;
    LoadSegOnly(c2.(rip := w[0] % TWO32), Cs, w[1] % 0x1_0000);
  }

  /** `HoldAll` of a list of words, in two parts. */
  lemma HoldParts(mem: Ram, a: seq<nat>, b: seq<nat>, n: Size, v: seq<u64>, w: seq<u64>, D: iset<nat>)
    requires mem.Valid() && |a| == |v| && |b| == |w| && HoldAll(mem, a + b, n, v + w, D)
    ensures HoldAll(mem, a, n, v, D) && HoldAll(mem, b, n, w, D)
  {
    hide Holds;
    forall i | 0 <= i < |a| ensures Holds(mem, a[i], n, v[i], D) {
      assert Holds(mem, (a + b)[i], n, (v + w)[i], D);
    }
    forall i | 0 <= i < |b| ensures Holds(mem, b[i], n, w[i], D) {
      assert Holds(mem, (a + b)[|a| + i], n, (v + w)[|a| + i], D);
    }
  }

  /** Popping a frame of five words as three and then two. */
  lemma PopThreeAndTwo(c: Cpu, words: seq<u64>, D: iset<nat>)
    requires Sound(c, D) && !Faulted(c) && |words| == 5
    requires HoldAll(c.mmu.mem, PopSlots(c, 4, 5), 4, words, D)
    ensures var (c1, w) := PopAll(c, 4, 3);
            !Faulted(c1) ==>
              && w == words[..3] && Popped(c, 4, 3, D, c1)
              && var (c2, v) := PopAll(c1, 4, 2);
              !Faulted(c2) ==> v == words[3..] && Popped(c1, 4, 2, D, c2)
  {
    hide PopAll, Inv, Separate, HoldAll, PopSlots, SlotAt, StackAt, SameInside, Shifted;
    var s3 := PopSlots(c, 4, 3);
    var (c1, w) := PopAll(c, 4, 3);
    var two := PopSlots(c, 4, 5)[3..];
    assert PopSlots(c, 4, 5) == s3 + two by { PopSlotsPrefix(c, 4, 3, 5); }
    assert words == words[..3] + words[3..];
    HoldParts(c.mmu.mem, s3, two, 4, words[..3], words[3..], D);
    PopAllFacts(c, 4, words[..3], D);
    if !Faulted(c1) {
      PopSlotsSplit(c, c1, 4, 3, 2);
      assert two == PopSlots(c1, 4, 2);
      HoldAllStays(c.mmu.mem, c1.mmu.mem, two, 4, words[3..], D);
      PopAllFacts(c1, 4, words[3..], D);
    }
  }

  lemma PopSlotsPrefix(c: Cpu, n: nat, k: nat, m: nat)
    requires c.Valid() && k <= m
    ensures PopSlots(c, n, k) == PopSlots(c, n, m)[..k]
  {
    hide SlotAt;
  }

  /** A 32-bit return to a less privileged level: SS:ESP are the next two words. */
  lemma OutwardReturn(c: Cpu, words: seq<u64>, ctx: Context, D: iset<nat>)
    requires Sound(c, D) && !Faulted(c) && FlagsOk(c.flags) && !c.mmu.efer.lma
    requires |words| == 5 && HoldAll(c.mmu.mem, PopSlots(c, 4, 5), 4, words, D)
    requires Spells(words, ctx) && Outward(c.mmu.cs, ctx.cs)
    requires ctx.rsp == words[3] % TWO32 && ctx.ss == words[4] % 0x1_0000
    ensures Restored(c, ctx, D, Iret32(c))
  {
    hide LoadSeg, PopAll, Inv, Separate, HoldAll, FlagsOk, SlotAt, StackAt, WriteFlags, BitsToNat, NatToBits,
      SameInside, PopSlots, Shifted;
    PopThreeAndTwo(c, words, D);
    var (c1, w) := PopAll(c, 4, 3);
    if Faulted(c1) {
      Iret32Sticks(c);
    } else {
      var (d, v) := PopAll(c1, 4, 2);
      LoadSegOnly(d, Ss, v[1] % 0x1_0000);
      var l := LoadSeg(d, Ss, v[1] % 0x1_0000);
      var c2 := l.(regs := l.regs[SP := v[0] % TWO32], rip := w[0] % TWO32);
      LoadSegOnly(c2, Cs, w[1] % 0x1_0000);
      if !Faulted(d) {
        SameInsideTransitive(c.mmu.mem, c1.mmu.mem, d.mmu.mem, D);
        FlagsRestored(c.flags, ctx.flags);
        SegmentsKeepSound(d, Iret32(c), D);
      }
    }
  }

  /** What a return does unless one of its pops faults: `ctx` is back. */
  ghost predicate Restored(c: Cpu, ctx: Context, D: iset<nat>, c': Cpu)
    requires c.Valid()
  {
    c'.Valid() &&
    (!Faulted(c') ==> && ContextOf(c') == ctx && Sound(c', D) && c'.mmu.efer == c.mmu.efer
                      && FlagsOk(c'.flags) && SameInside(c.mmu.mem, c'.mmu.mem, D))
  }

  /** The return from a live frame restores what it saves. */
  lemma FrameReturn(c: Cpu, f: Frame, D: iset<nat>)
    requires Sound(c, D) && !Faulted(c) && FlagsOk(c.flags) && Encodes(f, c.mmu.efer.lma) && AtFrame(c, f)
    requires HoldAll(c.mmu.mem, f.slots, WordOf(c), f.words, D)
    ensures Restored(c, f.ctx, D, Return(c))
  {
    hide Inv, Separate, FlagsOk, HoldAll, Iretq, Iret32, PopSlots, Restored, FlagsWord;
    if c.mmu.efer.lma {
      LongReturn(c, f, D);
    } else if Outward(f.cs, f.ctx.cs) {
      OutwardReturn(c, f.words, f.ctx, D);
    } else {
      ShortReturn(c, f.words, f.ctx, D);
    }
  }
}
