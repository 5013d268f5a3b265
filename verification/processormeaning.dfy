/** Registers, segments, addresses and control registers: what writing one means for
    everything that reads it afterwards. */
module ProcessorMeaning {
  import opened Words
  import opened Memory
  import opened Mmu
  import opened Operands
  import opened Alu
  import opened Processor
  import opened Interrupts
  import opened Fetch
  import opened DeliveryMeaning
  import Rmw = ReadModifyWrite
  import Division

  // ---- General registers ----

  /** The low `n` bytes of a register hold the value; those above are what they were, but
      that a 32-bit write clears them. */
  lemma RegisterMeans(g: Regs, i: RegNo, n: Size, v: u64)
    ensures RegW(g, i, n) == g[i] % Modulus(n)
    ensures var g' := SetRegW(g, i, n, v);
            && g'[i] % Modulus(n) == v % Modulus(n)
            && g'[i] / Modulus(n) == (if n >= 4 then 0 else g[i] / Modulus(n))
            && forall k: RegNo :: k != i ==> g'[k] == g[k]
  {
    if n == 8 {
      Division.DivUnique(g[i], TWO64, 0, g[i]);
      Division.DivUnique(v, TWO64, 0, v);
    } else if n == 4 {
      Division.DivUnique(v % TWO32, TWO32, 0, v % TWO32);
    } else {
      var m := Modulus(n);
      Division.DivUnique(g[i] / m * m + v % m, m, g[i] / m, v % m);
    }
  }

  /** AH, CH, DH and BH are bits 15:8. */
  lemma HighByteMeans(g: Regs, i: RegNo, v: u64)
    ensures Rmw.GetReg(g, Rmw.RegOp(i, true), 1) == g[i] / 0x100 % 0x100
    ensures var g' := Rmw.PutReg(g, Rmw.RegOp(i, true), 1, v);
            && g'[i] / 0x100 % 0x100 == v % 0x100
            && g'[i] % 0x100 == g[i] % 0x100 && g'[i] / 0x1_0000 == g[i] / 0x1_0000
            && forall k: RegNo :: k != i ==> g'[k] == g[k]
  {
    var low, mid, high := g[i] % 0x100, v % 0x100, g[i] / 0x1_0000;
    var x := high * 0x1_0000 + mid * 0x100 + low;
    Division.DivUnique(x, 0x100, high * 0x100 + mid, low);
    Division.DivUnique(high * 0x100 + mid, 0x100, high, mid);
    Division.DivUnique(x, 0x1_0000, high, mid * 0x100 + low);
  }

  // ---- Read-modify-write instructions ----

  /** What a register operand of `n` bytes holds. */
  function Held(g: Regs, r: Rmw.RegOp, n: Size): int {
    if n == 1 && r.high then g[r.i] as int / 0x100 % 0x100 else g[r.i] as int % Modulus(n)
  }

  lemma OperandMeans(g: Regs, r: Rmw.RegOp, n: Size, v: u64)
    requires v < Modulus(n)
    ensures 0 <= Held(g, r, n) < Modulus(n) && Rmw.GetReg(g, r, n) == Held(g, r, n)
    ensures Held(Rmw.PutReg(g, r, n, v), r, n) == v
    ensures forall k: RegNo :: k != r.i ==> Rmw.PutReg(g, r, n, v)[k] == g[k]
  {
    if n == 1 && r.high { HighByteMeans(g, r.i, v); } else { RegisterMeans(g, r.i, n, v); }
    Division.DivUnique(v, Modulus(n), 0, v);
    hide Rmw.PutReg, SetRegW;
  }

  /** The meaning of an instruction on an operand holding `v`, in terms of the ALU: what
      is combined with what, in which order, and where the results go. */
  lemma EffectMeans(c: Cpu, i: Rmw.Rmw, n: Size, v: u64)
    requires c.Valid() && v < Modulus(n)
    ensures var e := Rmw.Effect(c, i, n, v);
            match i
            case AluReg(op, _, reg, toRm) =>
              var x := Held(c.regs, reg, n);
              && 0 <= x < Modulus(n)
              && var (f, r) := if toRm then Compute(c.flags, op, v, x, n) else Compute(c.flags, op, x, v, n);
                 && e.flags == f && (toRm || op == Cmp ==> e.regs == c.regs)
                 && e.value == (if toRm && op != Cmp then r else v)
                 && (!toRm && op != Cmp && r < Modulus(n) ==> Held(e.regs, reg, n) == r)
            case AluImm(op, _, imm) =>
              var (f, r) := Compute(c.flags, op, v, imm % Modulus(n), n);
              e.flags == f && e.regs == c.regs && e.value == if op == Cmp then v else r
            case Xchg(_, reg) => e.flags == c.flags && e.value == Held(c.regs, reg, n) && Held(e.regs, reg, n) == v
            case Cmpxchg(_, reg) =>
              var acc := c.regs[0] as int % Modulus(n);
              && e.flags == Compute(c.flags, Cmp, acc, v, n).0
              && (acc == v ==> e.regs == c.regs && e.value == Held(c.regs, reg, n))
              && (acc != v ==> e.value == v && e.regs[0] as int % Modulus(n) == v)
            case Xadd(_, reg) =>
              && 0 <= Held(c.regs, reg, n) < Modulus(n)
              && (e.flags, e.value) == Compute(c.flags, Add, v, Held(c.regs, reg, n), n)
              && Held(e.regs, reg, n) == v
  {
    hide Compute, Rmw.PutReg, Rmw.GetReg, Held, State.Valid;
    SmallOperand(v, n);
    match i
    case AluReg(op, _, reg, toRm) =>
      OperandMeans(c.regs, reg, n, v);
      var x: u64 := Held(c.regs, reg, n);
      SmallOperand(x, n);
      var r := (if toRm then Compute(c.flags, op, v, x, n) else Compute(c.flags, op, x, v, n)).1;
      if r < Modulus(n) { OperandMeans(c.regs, reg, n, r); }
    case AluImm(op, _, imm) =>
    case Xchg(_, reg) => OperandMeans(c.regs, reg, n, v);
    case Cmpxchg(_, reg) =>
      OperandMeans(c.regs, reg, n, v);
      OperandMeans(c.regs, Rmw.ACC, n, v);
      AccumulatorHeld(c.regs, n);
      AccumulatorHeld(Rmw.PutReg(c.regs, Rmw.ACC, n, v), n);
      SmallOperand(Held(c.regs, Rmw.ACC, n), n);
    case Xadd(_, reg) =>
      OperandMeans(c.regs, reg, n, v);
      SmallOperand(Held(c.regs, reg, n), n);
  }

  lemma SmallOperand(v: nat, n: Size)
    ensures v < Modulus(n) ==> v % Modulus(n) == v
  {
    if v < Modulus(n) { Division.DivUnique(v, Modulus(n), 0, v); }
  }

  lemma AccumulatorHeld(g: Regs, n: Size)
    ensures Held(g, Rmw.ACC, n) == g[0] as int % Modulus(n)
  {
  }

  // ---- Effective addresses ----

  function FullReg(c: Cpu, i: Option<RegNo>): int { if i.Some? then c.regs[i.value] else 0 }

  /** Base, scaled index and displacement, added up modulo the address size. */
  lemma AddressMeans(c: Cpu, a: Rmw.Addr)
    requires c.Valid()
    ensures Rmw.EffectiveAddress(c, a) ==
              if a.ripRelative then (c.rip + a.disp) % TWO64
              else (FullReg(c, a.base) + FullReg(c, a.index) * a.scale + a.disp) % if a.wide then TWO64 else TWO32
  {
    PartIs(c, a.base, a.wide);
    PartIs(c, a.index, a.wide);
    hide State.Valid, Rmw.AddrReg, FullReg;
    var x, b := FullReg(c, a.index), FullReg(c, a.base);
    if !a.ripRelative && !a.wide { Narrow(x, b, a.scale, a.disp); }
  }

  lemma PartIs(c: Cpu, i: Option<RegNo>, wide: bool)
    requires c.Valid()
    ensures Rmw.AddrReg(c, i, wide) == if wide then FullReg(c, i) else FullReg(c, i) % TWO32
  {
  }

  /** Cutting the parts, then at 64 and at 32 bits, is cutting the sum at 32. */
  lemma Narrow(x: int, b: int, scale: nat, disp: int)
    ensures (x % TWO32 * scale + b % TWO32 + disp) % TWO64 % TWO32 == (b + x * scale + disp) % TWO32
  {
    var cut := x % TWO32 * scale + b % TWO32 + disp;
    CutAgain(cut);
    ScaledPart(x, scale, b % TWO32 + disp, TWO32);
    Division.ModShift(b, x * scale + disp, TWO32);
  }

  lemma CutAgain(y: int)
    ensures y % TWO64 % TWO32 == y % TWO32
  {
    Division.ModSplit(y, TWO32, TWO32);
    Division.DivUnique(y % TWO64, TWO32, y / TWO32 % TWO32, y % TWO32);
  }

  lemma ScaledPart(x: int, k: nat, rest: int, m: int)
    requires m > 0
    ensures (x % m * k + rest) % m == (x * k + rest) % m
  {
    var part := x % m * k + rest;
    Division.Distribute(x / m * m, x % m, k);
    Division.Distribute(x / m, k, m);
    Division.Distribute(x / m * k, part / m, m);
    Division.DivUnique(x * k + rest, m, x / m * k + part / m, part % m);
  }

  // ---- Segments ----

  /** The base through which a segment register addresses: in real mode from the selector,
      in protected mode from the descriptor it was loaded with. */
  function BaseOf(c: Cpu, s: SegReg): int
    requires c.Valid()
  {
    if c.mmu.pe then c.desc[SegIndex(s)].base else 16 * Selector(c, s) as int
  }

  /** Outside 64-bit code an address is the base plus the offset modulo 2^32; in it only
      FS and GS have bases, their own. */
  lemma LinearMeans(c: Cpu, s: SegReg, offset: u64)
    requires c.Valid()
    ensures var wide := c.mmu.efer.lma && c.desc[1].l;
            LinearAddr(c, s, offset) ==
              if !wide then (BaseOf(c, s) + offset) % TWO32
              else ((if s == Fs then c.fsBase as int else if s == Gs then c.gsBase else 0) + offset) % TWO64
  {
    Division.DivUnique(offset, TWO64, 0, offset);
  }

  /** Loading a segment register sets its selector and, in protected mode, the base that
      the bytes of its descriptor spell; every other segment addresses as before. */
  lemma LoadSegMeans(c: Cpu, s: SegReg, selector: u16)
    requires c.Valid()
    ensures var c' := LoadSeg(c, s, selector);
            && Selector(c', s) == selector
            && (c.mmu.pe ==> Described(c'.desc[SegIndex(s)], DescriptorBytes(c, selector)))
            && (forall t: SegReg :: t != s ==> Selector(c', t) == Selector(c, t) && BaseOf(c', t) == BaseOf(c, t))
            && (s == Cs ==> !c'.mmu.ipValid) && c'.regs == c.regs && c'.flags == c.flags
  {
    hide DescriptorFor, Described, DescriptorBytes, State.Valid;
    DescriptorIs(c, selector);
    assert forall t: SegReg :: t != s ==> SegIndex(t) != SegIndex(s);
  }

  /** Instruction bytes are addressed through CS, by RIP, EIP or IP; fetching moves that
      register on, modulo its width. */
  lemma InstructionPointerMeans(c: Cpu, n: nat)
    requires c.Valid()
    ensures var wide := c.mmu.efer.lma && c.desc[1].l;
            IpLinear(c) == if wide then c.rip as int
                           else (BaseOf(c, Cs) + if c.mmu.pe then c.rip % TWO32 else c.ip) % TWO32
    ensures var c' := AdvanceIp(c, n);
            && c' == c.(rip := c'.rip, ip := c'.ip)
            && (c.mmu.pe ==> c'.ip == c.ip && c'.rip == (c.rip + n) % if c.wideRip then TWO64 else TWO32)
            && (!c.mmu.pe ==> c'.rip == c.rip && c'.ip == (c.ip + n) % 0x1_0000)
  {
  }

  // ---- The real-mode stack ----

  lemma PointerMoved(g: Regs, sp: u16)
    ensures var g' := SetRegW(g, SP, 2, sp);
            && g'[4] % 0x1_0000 == sp && g'[4] / 0x1_0000 == g[4] / 0x1_0000
            && forall k: RegNo :: k != 4 ==> g'[k] == g[k]
  {
    RegisterMeans(g, SP, 2, sp);
    hide SetRegW;
    Division.DivUnique(sp, 0x1_0000, 0, sp);
  }

  /** Outside protected mode a word is pushed below SP, which wraps at 64 KiB, at sixteen
      times SS plus that, modulo 1 MiB; the upper part of the register stays. */
  lemma RealPushMeans(c: Cpu, n: WordSize, v: u64)
    requires c.Valid() && !c.mmu.pe
    ensures var c', sp := PushW(c, n, v), (c.regs[4] - n) % 0x1_0000;
            && c' == c.(mmu := c.mmu.(mem := WriteSize(c.mmu.mem, (16 * c.ss + sp) % 0x10_0000, n, v)), regs := c'.regs)
            && c'.regs[4] % 0x1_0000 == sp && c'.regs[4] / 0x1_0000 == c.regs[4] / 0x1_0000
            && forall k: RegNo :: k != 4 ==> c'.regs[k] == c.regs[k]
  {
    hide SetRegW, WriteSize, Access, LinearAddr, StackAt, State.Valid;
    PointerMoved(c.regs, (c.regs[SP] - n) % 0x1_0000);
  }

  /** ... and popped from there. */
  lemma RealPopMeans(c: Cpu, n: WordSize)
    requires c.Valid() && !c.mmu.pe
    ensures var (c', v) := PopW(c, n);
            && v == ReadSize(c.mmu.mem, (16 * c.ss + c.regs[4] % 0x1_0000) % 0x10_0000, n)
            && c' == c.(regs := c'.regs)
            && c'.regs[4] % 0x1_0000 == (c.regs[4] + n) % 0x1_0000 && c'.regs[4] / 0x1_0000 == c.regs[4] / 0x1_0000
            && forall k: RegNo :: k != 4 ==> c'.regs[k] == c.regs[k]
  {
    hide SetRegW, ReadSize, Access, LinearAddr, StackAt, State.Valid;
    PointerMoved(c.regs, (c.regs[SP] + n) % 0x1_0000);
  }

  /** So a pop undoes a push, where the word lies in the first megabyte. */
  lemma RealStackRoundTrip(c: Cpu, n: WordSize, v: u64)
    requires c.Valid() && !c.mmu.pe && v < Modulus(n)
    requires (16 * c.ss + (c.regs[4] - n) % 0x1_0000) % 0x10_0000 + n <= 0x10_0000
    ensures var (c', w) := PopW(PushW(c, n, v), n); w == v && c'.regs == c.regs
  {
    hide PushW, PopW, WriteSize, ReadSize;
    RealPushMeans(c, n, v);
    var c1, a := PushW(c, n, v), (16 * c.ss + (c.regs[4] - n) % 0x1_0000) % 0x10_0000;
    RealPopMeans(c1, n);
    WordKept(c.mmu.mem, a, n, v);
    var g := PopW(c1, n).0.regs;
    Division.ModShift(c.regs[4] - n, n, 0x1_0000);
    assert g[4] == c.regs[4] by { SameHalves(g[4], c1.regs[4], c.regs[4], n); }
    assert g == c.regs;
  }

  lemma SameHalves(x: u64, y: u64, z: u64, n: nat)
    requires x % 0x1_0000 == (y + n) % 0x1_0000 && y % 0x1_0000 == (z - n) % 0x1_0000
    requires x / 0x1_0000 == z / 0x1_0000
    ensures x == z
  {
    Division.ModShift(y, n, 0x1_0000);
    Division.ModShift(z - n, n, 0x1_0000);
  }

  lemma WordKept(mem: Ram, a: nat, n: WordSize, v: u64)
    requires mem.Valid() && a + n <= 0x10_0000 && v < Modulus(n)
    ensures ReadSize(WriteSize(mem, a, n, v), a, n) == v
  {
    hide ReadU16, ReadU32, ReadU64, WriteWide;
    ByteRanges();
    WideWrite(mem, a, n, v);
    WideReads(WriteSize(mem, a, n, v), a);
    assert Backed(mem, a, n);
    ReadAfterWrite(mem, a, n, v);
  }

  // ---- Control registers ----

  ghost predicate Flushed(s: State, s': State) {
    !s'.ipValid && |s'.tlb| == |s.tlb| && forall i :: 0 <= i < |s'.tlb| ==> !s'.tlb[i].valid
  }

  /** Long mode is active exactly when paging is on and EFER.LME set; entering or leaving
      it drops all translations, and nothing else changes. */
  lemma LongModeMeans(s: State)
    requires s.Valid()
    ensures var s' := UpdateLongMode(s);
            && s' == s.(efer := s.efer.(lma := s.cr0.pg && s.efer.lme), tlb := s'.tlb, ipValid := s'.ipValid)
            && if (s.cr0.pg && s.efer.lme) != s.efer.lma then Flushed(s, s') else s' == s
  {
  }

  /** Writing CR0 sets PE, WP and PG, and with them protected and long mode; toggling PG
      drops all translations. */
  lemma Cr0Means(s: State, v: Cr0)
    requires s.Valid()
    ensures var s' := WriteCr0(s, v);
            && s' == s.(cr0 := v, pe := v.pe, efer := s.efer.(lma := v.pg && s.efer.lme), tlb := s'.tlb,
                        ipValid := s'.ipValid)
            && (if v.pg != s.cr0.pg || (v.pg && s.efer.lme) != s.efer.lma then Flushed(s, s')
                else s'.tlb == s.tlb && s'.ipValid == s.ipValid)
  {
    hide FlushTlb, UpdateLongMode;
    var s1 := s.(cr0 := v, pe := v.pe);
    FlushMeans(s1);
    LongModeMeans(s1);
    LongModeMeans(FlushTlb(s1));
  }

  lemma FlushMeans(s: State)
    requires s.Valid()
    ensures var s' := FlushTlb(s); s' == s.(tlb := s'.tlb, ipValid := s'.ipValid) && Flushed(s, s')
  {
  }

  /** Writing CR3 or CR4 always does, and sets that register. */
  lemma Cr34Means(s: State, root: u64, v: Cr4)
    requires s.Valid()
    ensures var s' := WriteCr3(s, root);
            s' == s.(cr3 := root, tlb := s'.tlb, ipValid := s'.ipValid) && Flushed(s, s')
    ensures var s' := WriteCr4(s, v); s' == s.(cr4 := v, tlb := s'.tlb, ipValid := s'.ipValid) && Flushed(s, s')
  {
    FlushMeans(s.(cr3 := root));
    FlushMeans(s.(cr4 := v));
    hide FlushTlb;
  }

  /** Writing EFER sets LME and NXE; LMA stays the processor's. */
  lemma EferMeans(s: State, v: Efer)
    requires s.Valid()
    ensures var s' := WriteEfer(s, v);
            var active := s.cr0.pg && v.lme;
            && s' == s.(efer := Efer(v.lme, active, v.nxe), tlb := s'.tlb, ipValid := s'.ipValid)
            && (active != s.efer.lma ==> Flushed(s, s'))
            && (active == s.efer.lma ==> s'.tlb == s.tlb && s'.ipValid == s.ipValid)
  {
    LongModeMeans(s.(efer := v.(lma := s.efer.lma)));
    hide UpdateLongMode;
  }

  /** INVLPG drops the translation of that page and no other. */
  lemma InvlpgMeans(s: State, linear: u64)
    requires s.Valid()
    ensures var s' := Invlpg(s, linear);
            && s' == s.(tlb := s'.tlb) && |s'.tlb| == |s.tlb|
            && (forall i :: 0 <= i < |s.tlb| && s.tlb[i].vpage != linear / 0x1000 ==> s'.tlb[i] == s.tlb[i])
            && !(s'.tlb[linear / 0x1000 % 256].valid && s'.tlb[linear / 0x1000 % 256].vpage == linear / 0x1000)
  {
  }
}
