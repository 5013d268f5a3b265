/** Runs of interrupts, handlers and returns, nested to any depth. */
module Nesting {
  import opened Words
  import opened Memory
  import opened Mmu
  import opened TlbRefinement
  import opened AddressSpace
  import opened Operands
  import opened Processor
  import opened DataAccess
  import opened Interrupts
  import opened StackWords
  import opened Frames
  import Division

  /** `Work` is anything a program or handler does between entries and returns. */
  datatype Event = Enter(vector: u8, err: Option<u32>) | Work | Leave

  // ---- The live frames ----

  ghost predicate LiveFrame(c: Cpu, f: Frame, D: iset<nat>)
    requires c.Valid()
  {
    Encodes(f, c.mmu.efer.lma) && HoldAll(c.mmu.mem, f.slots, WordOf(c), f.words, D)
  }

  /** A processor that is not faulting, with the frames of `stack` intact in memory. */
  ghost predicate Intact(c: Cpu, stack: seq<Frame>, D: iset<nat>) {
    && Sound(c, D) && !Faulted(c) && FlagsOk(c.flags)
    && forall i :: 0 <= i < |stack| ==> LiveFrame(c, stack[i], D)
  }

  /** No word of a live frame overlaps a word about to be pushed. */
  ghost predicate Clear(slots: seq<nat>, f: Frame, n: nat) {
    forall i, j :: 0 <= i < |slots| && 0 <= j < |f.slots| ==> Apart(slots[i], f.slots[j], n)
  }

  /** Enough stack for the delivery: mapped to RAM that is data, free of live frames. */
  ghost predicate Room(c: Cpu, vector: u8, err: Option<u32>, stack: seq<Frame>, D: iset<nat>)
    requires c.Valid()
  {
    && HasRoom(c, vector, err, D)
    && forall i :: 0 <= i < |stack| ==> Clear(DeliverySlots(c, vector, err), stack[i], WordOf(c))
  }

  /** The words of a frame read the same in both memories. */
  ghost predicate FrameKept(mem: Ram, mem': Ram, f: Frame, n: Size)
    requires mem.Valid() && mem'.Valid()
  {
    forall i :: 0 <= i < |f.slots| ==> ReadSize(mem', f.slots[i], n) == ReadSize(mem, f.slots[i], n)
  }

  /** One event that does not fault. The program and its handlers may do anything
      at all between entries and returns but overwrite a live frame, leave the
      paging mode or unfix the reserved flags. RAM keeps its size. */
  ghost predicate Step(c: Cpu, ev: Event, stack: seq<Frame>, D: iset<nat>, c': Cpu)
    requires c.Valid()
  {
    match ev
    case Enter(vector, err) =>
      Room(c, vector, err, stack, D) && c' == Deliver(c, vector, err) && !Faulted(c')
    case Work =>
      && Sound(c', D) && !Faulted(c') && FlagsOk(c'.flags) && c'.mmu.efer.lma == c.mmu.efer.lma
      && |c'.mmu.mem.data| == |c.mmu.mem.data|
      && forall i :: 0 <= i < |stack| ==> FrameKept(c.mmu.mem, c'.mmu.mem, stack[i], WordOf(c))
    case Leave =>
      |stack| > 0 && AtFrame(c, stack[|stack| - 1]) && c' == Return(c) && !Faulted(c')
  }

  function After(c: Cpu, ev: Event, stack: seq<Frame>): seq<Frame>
    requires c.Valid()
  {
    match ev
    case Enter(vector, _) => stack + [FrameOf(c, vector)]
    case Work => stack
    case Leave => if stack == [] then [] else stack[..|stack| - 1]
  }

  // ---- One event ----

  lemma KeptIsLive(c: Cpu, c': Cpu, f: Frame, D: iset<nat>)
    requires c.Valid() && c'.Valid() && LiveFrame(c, f, D) && c'.mmu.efer.lma == c.mmu.efer.lma
    requires FrameKept(c.mmu.mem, c'.mmu.mem, f, WordOf(c)) && |c'.mmu.mem.data| == |c.mmu.mem.data|
    ensures LiveFrame(c', f, D)
  {
    hide Encodes, DataAt, ReadSize;
    assert |f.slots| == |f.words| by { EncodesLength(f, c.mmu.efer.lma); }
    forall i | 0 <= i < |f.words|
      ensures Holds(c'.mmu.mem, f.slots[i], WordOf(c), f.words[i], D)
    {
      assert Holds(c.mmu.mem, f.slots[i], WordOf(c), f.words[i], D);
      DataAtStays(c.mmu.mem, c'.mmu.mem, f.slots[i], WordOf(c), D);
    }
  }

  lemma EncodesLength(f: Frame, long: bool)
    requires Encodes(f, long)
    ensures |f.slots| == |f.words|
  {
  }

  /** Pushing apart from a live frame leaves it live. */
  lemma ClearIsLive(c: Cpu, c': Cpu, f: Frame, slots: seq<nat>, D: iset<nat>)
    requires c.Valid() && c'.Valid() && LiveFrame(c, f, D) && c'.mmu.efer == c.mmu.efer
    requires |c'.mmu.mem.data| == |c.mmu.mem.data|
    requires SameBut(c.mmu.mem, c'.mmu.mem, slots, WordOf(c), D) && Clear(slots, f, WordOf(c))
    ensures LiveFrame(c', f, D)
  {
    hide Encodes, ReadSize, ReadU8;
    var n := WordOf(c);
    assert |f.slots| == |f.words| by { EncodesLength(f, c.mmu.efer.lma); }
    forall i | 0 <= i < |f.words|
      ensures Holds(c'.mmu.mem, f.slots[i], n, f.words[i], D)
    {
      assert Holds(c.mmu.mem, f.slots[i], n, f.words[i], D);
      forall b | f.slots[i] <= b < f.slots[i] + n
        ensures ReadU8(c'.mmu.mem, b) == ReadU8(c.mmu.mem, b)
      {
        forall k | 0 <= k < |slots| ensures b < slots[k] || slots[k] + n <= b { assert Apart(slots[k], f.slots[i], n); }
        assert OutsideSlots(slots, n, b);
      }
      HoldsStays(c.mmu.mem, c'.mmu.mem, f.slots[i], n, f.words[i], D);
    }
  }

  lemma SameDataIsLive(c: Cpu, c': Cpu, f: Frame, D: iset<nat>)
    requires c.Valid() && c'.Valid() && LiveFrame(c, f, D) && c'.mmu.efer == c.mmu.efer
    requires SameInside(c.mmu.mem, c'.mmu.mem, D)
    ensures LiveFrame(c', f, D)
  {
    hide Encodes, SameInside, Holds, HoldAll;
    EncodesLength(f, c.mmu.efer.lma);
    HoldAllStays(c.mmu.mem, c'.mmu.mem, f.slots, WordOf(c), f.words, D);
  }

  lemma ClearAreLive(c: Cpu, c': Cpu, stack: seq<Frame>, slots: seq<nat>, D: iset<nat>)
    requires Intact(c, stack, D) && c'.Valid() && c'.mmu.efer == c.mmu.efer && |c'.mmu.mem.data| == |c.mmu.mem.data|
    requires SameBut(c.mmu.mem, c'.mmu.mem, slots, WordOf(c), D)
    requires forall i :: 0 <= i < |stack| ==> Clear(slots, stack[i], WordOf(c))
    ensures forall i :: 0 <= i < |stack| ==> LiveFrame(c', stack[i], D)
  {
    hide Inv, Separate, FlagsOk, LiveFrame, SameBut, Clear;
    forall i | 0 <= i < |stack| ensures LiveFrame(c', stack[i], D) { ClearIsLive(c, c', stack[i], slots, D); }
  }

  lemma EnterKeeps(c: Cpu, vector: u8, err: Option<u32>, stack: seq<Frame>, D: iset<nat>, c': Cpu)
    requires Intact(c, stack, D) && Step(c, Enter(vector, err), stack, D, c')
    ensures Intact(c', stack + [FrameOf(c, vector)], D)
  {
    hide Inv, Separate, FlagsOk, Encodes, HoldAll, FrameOf, Deliver, DeliverySlots, HasRoom, Clear, SameBut, Shifted,
      Landing, Pushes;
    DeliverFacts(c, vector, err, D);
    assert Delivered(c, vector, err, D, c');
    hide Delivered;
    DeliveredParts(c, vector, err, D, c');
    FrameEncodes(c, vector);
    ClearAreLive(c, c', stack, DeliverySlots(c, vector, err), D);
  }

  lemma DeliveredParts(c: Cpu, vector: u8, err: Option<u32>, D: iset<nat>, c': Cpu)
    requires c.Valid() && Delivered(c, vector, err, D, c')
    ensures var f, n, e := FrameOf(c, vector), WordOf(c), Landing(c, vector);
            && Sound(c', D) && FlagsOk(c'.flags) && c'.mmu.efer == c.mmu.efer && c'.mmu.cs == f.cs && c'.ss == e.ss
            && |f.slots| == |f.words| && HoldAll(c'.mmu.mem, f.slots, n, f.words, D)
            && |c'.mmu.mem.data| == |c.mmu.mem.data|
            && SameBut(c.mmu.mem, c'.mmu.mem, DeliverySlots(c, vector, err), n, D)
            && Shifted(e, c', -(n * (|Pushes(c, vector)| + |ErrorWord(err)|)))
  {
    hide Inv, Separate, FlagsOk, HoldAll, SameBut, Landing, Pushes, Target, StackAt, SlotAt, Shifted;
    FrameShape(c, vector);
  }

  lemma LeaveKeeps(c: Cpu, stack: seq<Frame>, D: iset<nat>, c': Cpu)
    requires Intact(c, stack, D) && Step(c, Leave, stack, D, c')
    ensures Intact(c', stack[..|stack| - 1], D)
    ensures ContextOf(c') == stack[|stack| - 1].ctx
  {
    hide Inv, Separate, FlagsOk, Encodes, HoldAll, AtFrame, Return, SameInside;
    var f := stack[|stack| - 1];
    assert LiveFrame(c, f, D);
    FrameReturn(c, f, D);
    assert Restored(c, f.ctx, D, c');
    var rest := stack[..|stack| - 1];
    forall i | 0 <= i < |rest| ensures LiveFrame(c', rest[i], D) { SameDataIsLive(c, c', stack[i], D); }
  }

  lemma StepKeeps(c: Cpu, ev: Event, stack: seq<Frame>, D: iset<nat>, c': Cpu)
    requires Intact(c, stack, D) && Step(c, ev, stack, D, c')
    ensures Intact(c', After(c, ev, stack), D)
    ensures ev.Leave? ==> |stack| > 0 && ContextOf(c') == stack[|stack| - 1].ctx
  {
    hide Inv, Separate, FlagsOk, LiveFrame, FrameOf, Room, Deliver, Return, AtFrame, ContextOf, FrameKept;
    match ev
    case Enter(vector, err) => EnterKeeps(c, vector, err, stack, D, c');
    case Work =>
      forall i | 0 <= i < |stack| ensures LiveFrame(c', stack[i], D) { KeptIsLive(c, c', stack[i], D); }
    case Leave => LeaveKeeps(c, stack, D, c');
  }

  // ---- Runs ----

  /** The frames live before event `k`. */
  ghost function LiveAt(cs: seq<Cpu>, evs: seq<Event>, k: nat): (stack: seq<Frame>)
    requires k <= |evs| < |cs| && forall i :: 0 <= i < |cs| ==> cs[i].Valid()
    decreases k
  {
    if k == 0 then [] else After(cs[k - 1], evs[k - 1], LiveAt(cs, evs, k - 1))
  }

  /** A run from a processor that is not in any handler. */
  ghost predicate Run(cs: seq<Cpu>, evs: seq<Event>, D: iset<nat>) {
    && |cs| == |evs| + 1 && (forall i :: 0 <= i < |cs| ==> cs[i].Valid())
    && Intact(cs[0], [], D)
    && forall i: nat :: i < |evs| ==> Step(cs[i], evs[i], LiveAt(cs, evs, i), D, cs[i + 1])
  }

  /** Entries less returns among the first `k` events. */
  function Depth(evs: seq<Event>, k: nat): int
    requires k <= |evs|
    decreases k
  {
    if k == 0 then 0
    else Depth(evs, k - 1) + (match evs[k - 1] case Enter(_, _) => 1 case Work => 0 case Leave => -1)
  }

  /** The return at `j` closes the entry at `i`: nested pairs lie in between. */
  ghost predicate Closes(evs: seq<Event>, i: nat, j: nat) {
    && i < j < |evs| && evs[i].Enter? && evs[j].Leave?
    && Depth(evs, j + 1) == Depth(evs, i)
    && forall k: nat :: i < k <= j ==> Depth(evs, k) > Depth(evs, i)
  }

  /** At every moment of a run every live frame is intact in memory, and there
      are as many as there are entries without a return. */
  lemma {:induction false} AlwaysIntact(cs: seq<Cpu>, evs: seq<Event>, D: iset<nat>, k: nat)
    requires Run(cs, evs, D) && k <= |evs|
    ensures Intact(cs[k], LiveAt(cs, evs, k), D)
    ensures |LiveAt(cs, evs, k)| == Depth(evs, k)
    decreases k
  {
    hide Step, Intact, FrameOf;
    if k > 0 {
      AlwaysIntact(cs, evs, D, k - 1);
      assert Step(cs[k - 1], evs[k - 1], LiveAt(cs, evs, k - 1), D, cs[k - 1 + 1]);
      StepKeeps(cs[k - 1], evs[k - 1], LiveAt(cs, evs, k - 1), D, cs[k]);
    }
  }

  /** While an entry is open its frame stays where it was on the stack of frames. */
  lemma {:induction false} FrameStays(cs: seq<Cpu>, evs: seq<Event>, D: iset<nat>, i: nat, j: nat, k: nat)
    requires Run(cs, evs, D) && Closes(evs, i, j) && i < k <= j
    ensures |LiveAt(cs, evs, k)| == Depth(evs, k) > Depth(evs, i) == |LiveAt(cs, evs, i)|
    ensures LiveAt(cs, evs, k)[|LiveAt(cs, evs, i)|] == FrameOf(cs[i], evs[i].vector)
    decreases k
  {
    hide Step, Intact, FrameOf;
    AlwaysIntact(cs, evs, D, i);
    AlwaysIntact(cs, evs, D, k);
    if k > i + 1 {
      FrameStays(cs, evs, D, i, j, k - 1);
    }
  }

  /** Entry and return are inverse at any nesting depth. In every run of entries,
      handler work and returns -- in long mode with or without a ring switch or an
      IST stack, in 32-bit mode with and without SS:ESP in the frame, with or
      without an error code for the handler to drop -- the return that closes an
      entry restores RIP, CS, RFLAGS, RSP and SS exactly, if the gate of that entry is
      honest. If it is not, whatever the others of the run are, `Mistaken` comes back,
      which is the interrupted context only if the two happen to be equal. */
  lemma NestedRestores(cs: seq<Cpu>, evs: seq<Event>, D: iset<nat>, i: nat, j: nat)
    requires Run(cs, evs, D) && Closes(evs, i, j)
    ensures var vector := evs[i].vector;
            && ContextOf(cs[j + 1]) == (if Honest(cs[i], vector) then ContextOf(cs[i]) else Mistaken(cs[i], vector))
            && (ContextOf(cs[j + 1]) == ContextOf(cs[i]) <==>
                  Honest(cs[i], vector) || Mistaken(cs[i], vector) == ContextOf(cs[i]))
  {
    hide Step, Intact, FrameOf, ContextOf, Return, Deliver, LiveAt, Honest, Mistaken;
    AlwaysIntact(cs, evs, D, j);
    FrameStays(cs, evs, D, i, j, j);
    assert Step(cs[j], evs[j], LiveAt(cs, evs, j), D, cs[j + 1]);
    StepKeeps(cs[j], evs[j], LiveAt(cs, evs, j), D, cs[j + 1]);
    FrameSaves(cs[i], evs[i].vector);
  }

  lemma FrameSaves(c: Cpu, vector: u8)
    requires c.Valid()
    ensures FrameOf(c, vector).ctx == Saved(c, vector)
  {
    hide Landing, Target, Pushes, StackAt, SlotAt, Saved, SwitchedIn, SwitchedOut;
  }

  /** The state an entry leaves, once the handler has dropped the error code, if any. */
  function Dropped(c: Cpu, vector: u8, err: Option<u32>): (c': Cpu)
    requires c.Valid()
    ensures c'.Valid()
  {
    var d := Deliver(c, vector, err);
    d.(regs := d.regs[SP := StackAt(d, WordOf(c) * |ErrorWord(err)|)])
  }

  /** Dropping `b` of `a + b` words leaves the pointer where it was after `a`. */
  lemma DropShifts(e: Cpu, d: Cpu, n: WordSize, a: nat, b: nat)
    requires e.Valid() && d.Valid() && Shifted(e, d, -(n * (a + b)))
    ensures Shifted(e, d.(regs := d.regs[SP := StackAt(d, n * b)]), -(n * a))
  {
    hide StackAt, SlotAt, Shifted, SameMachine, State.Valid;
    Division.Distribute(a, b, n);
    PointerMoved(d, StackAt(d, n * b));
    ShiftedMore(e, d, d.(regs := d.regs[SP := StackAt(d, n * b)]), -(n * (a + b)), n * b);
  }

  lemma PointerMoved(c: Cpu, sp: u64)
    requires c.Valid()
    ensures SameMachine(c, c.(regs := c.regs[SP := sp]))
  {
    hide Walk;
  }

  lemma ShiftedMore(e: Cpu, c: Cpu, c': Cpu, a: int, x: int)
    requires e.Valid() && c.Valid() && Shifted(e, c, a) && SameMachine(c, c') && c'.regs[SP] == StackAt(c, x)
    ensures c'.Valid() && Shifted(e, c', a + x)
  {
    hide SlotAt, StackAt;
    forall o: int
      ensures StackAt(c', o) == StackAt(e, a + x + o) && SlotAt(c', o) == SlotAt(e, a + x + o)
    {
      StackAtMoves(c, c', x, o);
      assert StackAt(c, x + o) == StackAt(e, a + (x + o)) && SlotAt(c, x + o) == SlotAt(e, a + (x + o));
    }
  }

  /** With the pointer where the pushes left it, the pops find them in reverse. */
  lemma PopsReversePushes(e: Cpu, c: Cpu, n: WordSize, k: nat)
    requires e.Valid() && c.Valid() && Shifted(e, c, -(n * k))
    ensures PopSlots(c, n, k) == Reversed(PushSlots(e, n, k)) && StackPtr(c) == StackAt(e, -(n * k))
  {
    hide SlotAt, StackAt, StackPtr;
    PointerIsOffsetZero(c);
    assert StackAt(c, 0) == StackAt(e, -(n * k));
    forall i: nat | i < k
      ensures PopSlots(c, n, k)[i] == Reversed(PushSlots(e, n, k))[i]
    {
      assert -(n * k) + n * i == -(n * (k - 1 - i + 1));
      assert SlotAt(c, n * i) == SlotAt(e, -(n * k) + n * i);
    }
  }

  /** On an unswitched stack the words above the frame are the program's own. */
  lemma AboveFrame(c: Cpu, vector: u8, d: Cpu)
    requires c.Valid() && d.Valid() && Above(c, vector) != [] && Shifted(Landing(c, vector), d, -12)
    ensures PopSlots(d, 4, 5) == PopSlots(d, 4, 3) + Above(c, vector)
  {
    hide Landing, SlotAt, SwitchedOut, SwitchedIn, Shifted;
    FrameShape(c, vector);
    ShiftedSlot(Landing(c, vector), d, -12, 12);
    ShiftedSlot(Landing(c, vector), d, -12, 16);
    SlotsOfLanding(c, vector, 0);
    SlotsOfLanding(c, vector, 4);
  }

  lemma ShiftedSlot(e: Cpu, d: Cpu, a: int, o: int)
    requires e.Valid() && d.Valid() && Shifted(e, d, a)
    ensures SlotAt(d, o) == SlotAt(e, a + o)
  {
    hide StackAt, SlotAt;
  }

  lemma SlotsOfLanding(c: Cpu, vector: u8, o: int)
    requires c.Valid() && !c.mmu.efer.lma && !SwitchedIn(c, vector)
    ensures SlotAt(Landing(c, vector), o) == SlotAt(c, o)
  {
    hide Target, DescriptorFor, Switching, State.Valid, Walk;
    LandingFacts(c, vector);
    var e := Landing(c, vector);
    var l := LinearAddr(c, Ss, StackAt(c, o));
    assert LinearAddr(e, Ss, StackAt(e, o)) == l;
    SameTables(c.mmu, e.mmu, l);
  }

  /** A return that does not switch stays in the stack segment the frame is for. */
  lemma SavedSs(c: Cpu, vector: u8)
    requires c.Valid() && !c.mmu.efer.lma && !SwitchedOut(c, vector)
    ensures Landing(c, vector).ss == Saved(c, vector).ss
  {
    hide Landing, Target, SwitchedOut, Switching, TssStack0, SlotAt, ReadSize, State.Valid;
    if SwitchedIn(c, vector) { LandingSwitched(c, vector); } else { LandingFacts(c, vector); }
  }

  /** The return is possible from the state an entry leaves: once the error code,
      if there is one, has been dropped, the stack pointer is at the frame. */
  lemma EntryIsAtFrame(c: Cpu, vector: u8, err: Option<u32>, D: iset<nat>)
    requires Intact(c, [], D) && Room(c, vector, err, [], D) && !Faulted(Deliver(c, vector, err))
    ensures AtFrame(Dropped(c, vector, err), FrameOf(c, vector))
  {
    hide Inv, Separate, FlagsOk, HoldAll, Deliver, HasRoom, SameBut, Landing, Target, SlotAt, StackAt, Pushes,
      SwitchedIn, SwitchedOut, Shifted, StackPtr, PopSlots, PushSlots, Above, Saved, Reversed, Delivered, ErrorWord,
      WordsAbove, DeliverySlots;
    var d, n, k := Dropped(c, vector, err), WordOf(c), |FrameOf(c, vector).slots|;
    DeliverFacts(c, vector, err, D);
    DeliveredParts(c, vector, err, D, Deliver(c, vector, err));
    DropShifts(Landing(c, vector), Deliver(c, vector, err), n, |Pushes(c, vector)|, |ErrorWord(err)|);
    PopsReversePushes(Landing(c, vector), d, n, |Pushes(c, vector)|);
    FrameShape(c, vector);
    if Above(c, vector) == [] {
      PopSlotsPrefix(d, n, k, |Pushes(c, vector)|);
    } else {
      AboveFrame(c, vector, d);
    }
    if k == 3 { SavedSs(c, vector); }
  }

  lemma PointerIsOffsetZero(c: Cpu)
    requires c.Valid()
    ensures StackPtr(c) == StackAt(c, 0)
  {
  }

  lemma MovingThePointer(c: Cpu, sp: u64, stack: seq<Frame>, D: iset<nat>)
    requires Intact(c, stack, D)
    ensures Step(c, Work, stack, D, c.(regs := c.regs[SP := sp]))
  {
    hide Inv, Separate, FlagsOk, ReadSize;
  }

  /** A gate and its return, nothing in between but dropping the error code. In long
      mode, and outside it when the stack is switched both ways or neither, the return
      restores the interrupted context. Otherwise `Mistaken` comes back. */
  lemma ReturnInverts(c: Cpu, vector: u8, err: Option<u32>, D: iset<nat>)
    requires Intact(c, [], D) && Room(c, vector, err, [], D)
    requires !Faulted(Deliver(c, vector, err)) && !Faulted(Return(Dropped(c, vector, err)))
    ensures var r := Return(Dropped(c, vector, err));
            && ContextOf(r) == (if Honest(c, vector) then ContextOf(c) else Mistaken(c, vector))
            && (ContextOf(r) == ContextOf(c) <==> Honest(c, vector) || Mistaken(c, vector) == ContextOf(c))
  {
    hide Inv, Separate, FlagsOk, Encodes, HoldAll, FrameOf, Deliver, Room, AtFrame, Return, ContextOf, Honest, Mistaken,
      StackAt, ReadSize;
    var c', d, f := Deliver(c, vector, err), Dropped(c, vector, err), FrameOf(c, vector);
    StepKeeps(c, Enter(vector, err), [], D, c');
    assert [] + [f] == [f];
    MovingThePointer(c', d.regs[SP], [f], D);
    StepKeeps(c', Work, [f], D, d);
    EntryIsAtFrame(c, vector, err, D);
    StepKeeps(d, Leave, [f], D, Return(d));
    FrameSaves(c, vector);
  }
}
