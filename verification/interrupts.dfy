/** Interrupt and exception delivery, and the returns that undo it. */
module Interrupts {
  import opened Words
  import opened Memory
  import opened Mmu
  import opened Operands
  import opened Alu
  import opened Processor

  const SP: RegNo := 4

  type WordSize = n: Size | n == 2 || n == 4 || n == 8 witness 8

  // ---- EFLAGS as a word ----

  function BitsToNat(f: seq<bool>): (v: nat) {
    if f == [] then 0 else (if f[0] then 1 else 0) + 2 * BitsToNat(f[1..])
  }

  function NatToBits(v: nat, k: nat): (f: seq<bool>)
    ensures |f| == k
    decreases k
  {
    if k == 0 then [] else [v % 2 == 1] + NatToBits(v / 2, k - 1)
  }

  function FlagsWord(f: Eflags): (w: nat) { BitsToNat(f) }
  function WordFlags(w: nat): Eflags { NatToBits(w, 32) }

  /** The bits software may write through POPF and IRET: 0x003F_7FD5. */
  predicate Writable(i: FlagNo) {
    i == 0 || i == 2 || i == 4 || 6 <= i <= 14 || 16 <= i <= 21
  }

  /** Merge a software-written value onto EFLAGS: only writable bits move, bit 1 is set. */
  function WriteFlags(was: Eflags, now: Eflags): Eflags {
    seq(32, i requires 0 <= i < 32 => if Writable(i) then now[i] else i == 1 || was[i])
  }

  // ---- Descriptors and the TSS, read through the page tables ----

  function LinearToPhysRo(s: State, linear: u64): nat
    requires s.Valid()
  {
    if !Pg(s) then linear
    else
      match Walk(s, linear)
      case Some(mp) => mp.phys
      case None => UNBACKED
  }

  function ParseDescriptor(raw: u64): Descriptor {
    Descriptor(raw / 0x1_0000 % 0x1_0000 + raw / 0x1_0000_0000 % 0x100 * 0x1_0000
               + raw / 0x100_0000_0000_0000 % 0x100 * 0x100_0000,
               raw / 0x2000_0000_0000 % 4,
               raw / 0x20_0000_0000_0000 % 2 == 1)
  }

  function DescriptorFor(c: Cpu, selector: u16): Descriptor
    requires c.Valid()
  {
    var base := if selector / 4 % 2 == 1 then c.ldtBase else c.gdtBase;
    ParseDescriptor(ReadU64(c.mmu.mem, LinearToPhysRo(c.mmu, Wrap64(base + selector / 8 * 8))))
  }

  function SetSelector(c: Cpu, s: SegReg, v: u16): (c': Cpu)
    requires c.Valid()
    ensures c'.Valid()
  {
    match s
    case Es => c.(es := v)
    case Cs => c.(mmu := c.mmu.(cs := v))
    case Ss => c.(ss := v)
    case Ds => c.(ds := v)
    case Fs => c.(fs := v)
    case Gs => c.(gs := v)
  }

  /** Load a segment register; in protected mode resolve its descriptor too. */
  function LoadSeg(c: Cpu, s: SegReg, selector: u16): (c': Cpu)
    requires c.Valid()
    ensures c'.Valid()
  {
    var c1 := if c.mmu.pe then c.(desc := c.desc[SegIndex(s) := DescriptorFor(c, selector)]) else c;
    var c2 := SetSelector(c1, s, selector);
    if s == Cs then c2.(mmu := c2.mmu.(ipValid := false)) else c2
  }

  function TssRsp0(c: Cpu): u64
    requires c.Valid()
  {
    ReadU64(c.mmu.mem, LinearToPhysRo(c.mmu, Wrap64(c.trBase + 4)))
  }

  function TssIst(c: Cpu, ist: nat): u64
    requires c.Valid() && ist > 0
  {
    ReadU64(c.mmu.mem, LinearToPhysRo(c.mmu, Wrap64(c.trBase + 0x24 + (ist - 1) * 8)))
  }

  function TssStack0(c: Cpu): (u16, u32)
    requires c.Valid()
  {
    (ReadU16(c.mmu.mem, LinearToPhysRo(c.mmu, Wrap64(c.trBase + 8))),
     ReadU32(c.mmu.mem, LinearToPhysRo(c.mmu, Wrap64(c.trBase + 4))))
  }

  // ---- The stack ----

  function StackPtr(c: Cpu): u64
    requires c.Valid()
  {
    if Long64(c) then c.regs[SP] else c.regs[SP] % TWO32
  }

  /** The stack pointer moved by `d` bytes, at the width of the mode. */
  function StackAt(c: Cpu, d: int): u64
    requires c.Valid()
  {
    if Long64(c) then Wrap64(c.regs[SP] + d) else Wrap32(c.regs[SP] + d)
  }

  function RealStack(c: Cpu, sp: u16): nat { (c.ss * 16 + sp) % 0x10_0000 }

  /** Push one word: a fault in the translation keeps the old stack pointer. */
  function PushW(c: Cpu, n: WordSize, v: u64): (c': Cpu)
    requires c.Valid()
    ensures c'.Valid()
  {
    if c.mmu.pe then
      var sp := StackAt(c, 0 - n as int);
      var (m, addr) := Access(c.mmu, LinearAddr(c, Ss, sp), true, false);
      if m.pending.Some? then c.(mmu := m)
      else c.(mmu := m.(mem := WriteSize(m.mem, addr, n, v)), regs := c.regs[SP := sp])
    else
      var sp := (c.regs[SP] - n) % 0x1_0000;
      c.(regs := SetRegW(c.regs, SP, 2, sp),
         mmu := c.mmu.(mem := WriteSize(c.mmu.mem, RealStack(c, sp), n, v)))
  }

  function PopW(c: Cpu, n: WordSize): (r: (Cpu, u64))
    requires c.Valid()
    ensures r.0.Valid()
  {
    if c.mmu.pe then
      var (m, addr) := Access(c.mmu, LinearAddr(c, Ss, StackPtr(c)), false, false);
      if m.pending.Some? then (c.(mmu := m), 0)
      else (c.(mmu := m, regs := c.regs[SP := StackAt(c, n)]), ReadSize(m.mem, addr, n))
    else
      (c.(regs := SetRegW(c.regs, SP, 2, (c.regs[SP] + n) % 0x1_0000)),
       ReadSize(c.mmu.mem, RealStack(c, c.regs[SP] % 0x1_0000), n))
  }

  /** A sequence of pushes, first word first. */
  function PushAll(c: Cpu, n: WordSize, words: seq<u64>): (c': Cpu)
    requires c.Valid()
    ensures c'.Valid()
    decreases |words|
  {
    if words == [] then c else PushAll(PushW(c, n, words[0]), n, words[1..])
  }

  /** A sequence of `k` pops. */
  function PopAll(c: Cpu, n: WordSize, k: nat): (r: (Cpu, seq<u64>))
    requires c.Valid()
    ensures r.0.Valid() && |r.1| == k
    decreases k
  {
    if k == 0 then (c, [])
    else
      var (c1, w) := PopW(c, n);
      var (c2, ws) := PopAll(c1, n, k - 1);
      (c2, [w] + ws)
  }

  function ErrorWord(err: Option<u32>): seq<u64> {
    match err
    case Some(code) => [code]
    case None => []
  }

  /** IF is cleared by an interrupt gate; TF and RF always. */
  function EntryFlags(f: Eflags, interruptGate: bool): Eflags {
    var f1 := if interruptGate then SetFlag(f, IF, false) else f;
    SetFlag(SetFlag(f1, TF, false), RF, false)
  }

  // ---- Long mode ----

  datatype Gate = Gate(target: u64, selector: u16, ist: nat, kind: nat)

  function LongGate(c: Cpu, vector: u8): Gate
    requires c.Valid()
  {
    var a := LinearToPhysRo(c.mmu, Wrap64(c.idtBase + vector * 16));
    var m := c.mmu.mem;
    Gate(ReadU16(m, a) + ReadU16(m, a + 6) * 0x1_0000 + ReadU32(m, a + 8) * TWO32,
         ReadU16(m, a + 2), ReadU8(m, a + 4) % 8, ReadU8(m, a + 5) % 16)
  }

  /** The handler's stack: the IST's if the gate names one, RSP0 if the privilege
      changes, else the interrupted one. Then the handler's code segment, and
      RSP aligned down to 16 bytes. */
  function LongEntry(c: Cpu, g: Gate): (c': Cpu)
    requires c.Valid()
    ensures c'.Valid()
  {
    var switching := DescriptorFor(c, g.selector).dpl < Cpl(c.mmu.pe, c.mmu.cs);
    var c1 :=
      if g.ist != 0 then
        var sp := TssIst(c, g.ist);
        var l := LoadSeg(c, Ss, 0);
        l.(regs := l.regs[SP := sp])
      else if switching then
        var sp := TssRsp0(c);
        var l := LoadSeg(c, Ss, 0);
        l.(regs := l.regs[SP := sp])
      else c;
    var c2 := LoadSeg(c1, Cs, g.selector);
    c2.(regs := c2.regs[SP := c2.regs[SP] / 16 * 16])
  }

  function LongFrame(c: Cpu): seq<u64>
    requires c.Valid()
  {
    [c.ss, c.regs[SP], FlagsWord(c.flags) % TWO64, c.mmu.cs, c.rip]
  }

  function LongInt(c: Cpu, vector: u8, err: Option<u32>): (c': Cpu)
    requires c.Valid()
    ensures c'.Valid()
  {
    var g := LongGate(c, vector);
    var c1 := PushAll(LongEntry(c, g), 8, LongFrame(c) + ErrorWord(err));
    c1.(flags := EntryFlags(c1.flags, g.kind == 0xE), rip := g.target, mmu := c1.mmu.(ipValid := false))
  }

  /** IRETQ always pops five words. */
  function Iretq(c: Cpu): (c': Cpu)
    requires c.Valid()
    ensures c'.Valid()
  {
    var (c1, w) := PopAll(c, 8, 5);
    var c2 := LoadSeg(c1, Cs, w[1] % 0x1_0000);
    var c3 := LoadSeg(c2, Ss, w[4] % 0x1_0000);
    c3.(regs := c3.regs[SP := w[3]], rip := w[0], flags := WriteFlags(c3.flags, WordFlags(w[2] % TWO32)),
        mmu := c3.mmu.(ipValid := false))
  }

  // ---- 32-bit protected mode ----

  function ProtectedGate(c: Cpu, vector: u8): Gate
    requires c.Valid()
  {
    var a := LinearToPhysRo(c.mmu, Wrap64(c.idtBase + vector * 8));
    var m := c.mmu.mem;
    Gate(ReadU16(m, a) + ReadU16(m, a + 6) * 0x1_0000, ReadU16(m, a + 2), 0, ReadU8(m, a + 5) % 16)
  }

  /** Does delivery change stacks? It does when the handler is more privileged. */
  predicate Switching(c: Cpu, g: Gate)
    requires c.Valid()
  {
    DescriptorFor(c, g.selector).dpl < Cpl(c.mmu.pe, c.mmu.cs)
  }

  function ProtectedEntry(c: Cpu, g: Gate): (c': Cpu)
    requires c.Valid()
    ensures c'.Valid()
  {
    var c1 :=
      if Switching(c, g) then
        var (ss0, esp0) := TssStack0(c);
        var l := LoadSeg(c, Ss, ss0);
        l.(regs := l.regs[SP := esp0])
      else c;
    LoadSeg(c1, Cs, g.selector)
  }

  /** SS:ESP only when the stack was switched; then EFLAGS, CS, EIP. */
  function ProtectedFrame(c: Cpu, switching: bool): seq<u64>
    requires c.Valid()
  {
    (if switching then [c.ss, c.regs[SP] % TWO32] else [])
    + [FlagsWord(c.flags) % TWO64, c.mmu.cs, c.rip % TWO32]
  }

  /** Delivery outside long mode (`protected_int_err` hands long mode on). */
  function ProtectedInt(c: Cpu, vector: u8, err: Option<u32>): (c': Cpu)
    requires c.Valid()
    ensures c'.Valid()
  {
    if c.mmu.efer.lma then LongInt(c, vector, err)
    else
      var g := ProtectedGate(c, vector);
      var c1 := PushAll(ProtectedEntry(c, g), 4, ProtectedFrame(c, Switching(c, g)) + ErrorWord(err));
      c1.(flags := EntryFlags(c1.flags, g.kind == 0x6 || g.kind == 0xE), rip := g.target % TWO32,
          mmu := c1.mmu.(ipValid := false))
  }

  /** The frame carries SS:ESP exactly when the popped CS is less privileged. */
  function Iret32(c: Cpu): (c': Cpu)
    requires c.Valid()
    ensures c'.Valid()
  {
    var (c1, w) := PopAll(c, 4, 3);
    var cs := w[1] % 0x1_0000;
    var c2 :=
      if cs % 4 > Cpl(c1.mmu.pe, c1.mmu.cs) then
        var (d, v) := PopAll(c1, 4, 2);
        var l := LoadSeg(d, Ss, v[1] % 0x1_0000);
        l.(regs := l.regs[SP := v[0] % TWO32])
      else c1;
    var c3 := LoadSeg(c2.(rip := w[0] % TWO32), Cs, cs);
    c3.(flags := WriteFlags(c3.flags, WordFlags(w[2] % TWO32)), mmu := c3.mmu.(ipValid := false))
  }
}
