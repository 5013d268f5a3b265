/** Instructions carried out on the processor object. Each method leaves the
    processor in the state that the function its theorems are about gives. */
module Execution {
  import opened Words
  import opened Memory
  import opened Mmu
  import opened TlbRefinement
  import opened Operands
  import opened Alu
  import opened CpuCore
  import P = Processor
  import I = Interrupts
  import S = Strings
  import R = ReadModifyWrite

  // ---- Operands of read-modify-write instructions ----

  method ReadRm(cpu: Cpu, rm: R.Rm, n: Size) returns (v: u64)
    requires cpu.Valid()
    modifies cpu`pending, cpu`cr2, cpu.mem.data, cpu.tlb
    ensures cpu.Valid() && (cpu.Whole(), v) == R.ReadRm(old(cpu.Whole()), rm, n)
  {
    hide Operands.Load, R.Linear, R.GetReg;
    match rm
    case Reg(r) => v := R.GetReg(cpu.regs[..], r, n);
    case Mem(a) => v := cpu.Load(R.Linear(cpu.Whole(), a), n);
  }

  method WriteReg(cpu: Cpu, r: R.RegOp, n: Size, v: u64)
    requires cpu.Valid()
    modifies cpu.regs
    ensures cpu.Valid() && cpu.Whole() == R.WriteReg(old(cpu.Whole()), r, n, v)
  {
    if cpu.pending.None? {
      var g := R.PutReg(cpu.regs[..], r, n, v);
      cpu.regs[r.i] := g[r.i];
    }
  }

  method WriteRm(cpu: Cpu, rm: R.Rm, n: Size, v: u64)
    requires cpu.Valid()
    modifies cpu`pending, cpu`cr2, cpu.mem.data, cpu.tlb, cpu.regs
    ensures cpu.Valid() && cpu.Whole() == R.WriteRm(old(cpu.Whole()), rm, n, v)
  {
    hide Operands.Store, R.Linear, R.PutReg;
    if cpu.pending.Some? { return; }
    match rm
    case Reg(r) => WriteReg(cpu, r, n, v);
    case Mem(a) => cpu.StoreTo(R.Linear(cpu.Whole(), a), n, v);
  }

  method SetFlags(cpu: Cpu, f: Eflags)
    requires cpu.Valid()
    modifies cpu`flags
    ensures cpu.Valid() && cpu.Whole() == old(cpu.Whole()).(flags := f)
  {
    hide Ram.Valid;
    cpu.flags := f;
  }

  /** ADD, OR, ADC, SBB, AND, SUB, XOR and CMP between a register and an operand. */
  method ExecAlu(cpu: Cpu, op: AluOp, rm: R.Rm, reg: R.RegOp, toRm: bool, n: Size)
    requires cpu.Valid()
    modifies cpu`pending, cpu`cr2, cpu`flags, cpu.mem.data, cpu.tlb, cpu.regs
    ensures cpu.Valid() && cpu.Whole() == R.Exec(old(cpu.Whole()), R.AluReg(op, rm, reg, toRm), n)
  {
    hide R.ReadRm, R.WriteRm, R.WriteReg, R.AluW, R.GetReg;
    var regv := R.GetReg(cpu.regs[..], reg, n);
    var rmv := ReadRm(cpu, rm, n);
    var (f, r) := R.AluW(cpu.flags, op, if toRm then rmv else regv, if toRm then regv else rmv, n);
    SetFlags(cpu, f);
    // CMP sets flags only.
    if op != Cmp {
      if toRm { WriteRm(cpu, rm, n, r); } else { WriteReg(cpu, reg, n, r); }
    }
  }

  /** ... and between an immediate and an operand. */
  method ExecAluImm(cpu: Cpu, op: AluOp, rm: R.Rm, imm: u64, n: Size)
    requires cpu.Valid()
    modifies cpu`pending, cpu`cr2, cpu`flags, cpu.mem.data, cpu.tlb, cpu.regs
    ensures cpu.Valid() && cpu.Whole() == R.Exec(old(cpu.Whole()), R.AluImm(op, rm, imm), n)
  {
    hide R.ReadRm, R.WriteRm, R.WriteReg, R.AluW, R.GetReg;
    var rmv := ReadRm(cpu, rm, n);
    var (f, r) := R.AluW(cpu.flags, op, rmv, imm, n);
    SetFlags(cpu, f);
    if op != Cmp { WriteRm(cpu, rm, n, r); }
  }

  method ExecXchg(cpu: Cpu, rm: R.Rm, reg: R.RegOp, n: Size)
    requires cpu.Valid()
    modifies cpu`pending, cpu`cr2, cpu`flags, cpu.mem.data, cpu.tlb, cpu.regs
    ensures cpu.Valid() && cpu.Whole() == R.Exec(old(cpu.Whole()), R.Xchg(rm, reg), n)
  {
    hide R.ReadRm, R.WriteRm, R.WriteReg, R.AluW, R.GetReg;
    var a := ReadRm(cpu, rm, n);
    var b := R.GetReg(cpu.regs[..], reg, n);
    WriteRm(cpu, rm, n, b);
    WriteReg(cpu, reg, n, a);
  }

  method ExecCmpxchg(cpu: Cpu, rm: R.Rm, reg: R.RegOp, n: Size)
    requires cpu.Valid()
    modifies cpu`pending, cpu`cr2, cpu`flags, cpu.mem.data, cpu.tlb, cpu.regs
    ensures cpu.Valid() && cpu.Whole() == R.Exec(old(cpu.Whole()), R.Cmpxchg(rm, reg), n)
  {
    hide R.ReadRm, R.WriteRm, R.WriteReg, R.AluW, R.GetReg;
    var dest := ReadRm(cpu, rm, n);
    var acc := R.GetReg(cpu.regs[..], R.ACC, n);
    SetFlags(cpu, R.AluW(cpu.flags, Cmp, acc, dest, n).0);
    if acc == dest {
      WriteRm(cpu, rm, n, R.GetReg(cpu.regs[..], reg, n));
    } else {
      WriteReg(cpu, R.ACC, n, dest);
    }
  }

  /** The order of the two writes decides whether a fault leaves the register intact. */
  method ExecXadd(cpu: Cpu, rm: R.Rm, reg: R.RegOp, n: Size)
    requires cpu.Valid()
    modifies cpu`pending, cpu`cr2, cpu`flags, cpu.mem.data, cpu.tlb, cpu.regs
    ensures cpu.Valid() && cpu.Whole() == R.Exec(old(cpu.Whole()), R.Xadd(rm, reg), n)
  {
    hide R.ReadRm, R.WriteRm, R.WriteReg, R.AluW, R.GetReg;
    var dest := ReadRm(cpu, rm, n);
    var src := R.GetReg(cpu.regs[..], reg, n);
    var (f, sum) := R.AluW(cpu.flags, Add, dest, src, n);
    SetFlags(cpu, f);
    if rm.Reg? {
      WriteReg(cpu, reg, n, dest);
      WriteRm(cpu, rm, n, sum);
    } else {
      WriteRm(cpu, rm, n, sum);
      WriteReg(cpu, reg, n, dest);
    }
  }

  method ExecRmw(cpu: Cpu, i: R.Rmw, n: Size)
    requires cpu.Valid()
    modifies cpu`pending, cpu`cr2, cpu`flags, cpu.mem.data, cpu.tlb, cpu.regs
    ensures cpu.Valid() && cpu.Whole() == R.Exec(old(cpu.Whole()), i, n)
  {
    hide R.Exec;
    match i
    case AluReg(op, rm, reg, toRm) => ExecAlu(cpu, op, rm, reg, toRm, n);
    case AluImm(op, rm, imm) => ExecAluImm(cpu, op, rm, imm, n);
    case Xchg(rm, reg) => ExecXchg(cpu, rm, reg, n);
    case Cmpxchg(rm, reg) => ExecCmpxchg(cpu, rm, reg, n);
    case Xadd(rm, reg) => ExecXadd(cpu, rm, reg, n);
  }

  // ---- String instructions ----

  /** The index and count registers record where the loop stopped. */
  method Record(cpu: Cpu, op: S.StringOp, k: S.Cursor)
    requires cpu.Valid()
    modifies cpu.regs
    ensures cpu.Valid() && cpu.regs[..] == S.Recorded(op, old(cpu.regs[..]), k)
  {
    hide P.SetRegW;
    if S.UsesSi(op.kind) { cpu.SetReg(S.SI, op.asize, k.si); }
    if S.UsesDi(op.kind) { cpu.SetReg(S.DI, op.asize, k.di); }
    if op.rep != S.NoRep { cpu.SetReg(S.CX, op.asize, k.count); }
  }

  method StrRead(cpu: Cpu, phys: u64, linear: u64, n: Size) returns (v: u64)
    requires cpu.Valid()
    modifies cpu`pending, cpu`cr2, cpu.mem.data, cpu.tlb
    ensures cpu.Valid()
    ensures v == S.StrRead(old(cpu.Unit()), phys, linear, n).1
    ensures cpu.Unit() == S.StrRead(old(cpu.Unit()), phys, linear, n).0
  {
    hide Operands.ReadSplit, ReadSize;
    if n > 1 && Straddles(phys, n) { v := cpu.ReadSplit(phys, linear, n); } else { v := cpu.LoadSize(phys, n); }
  }

  method StrWrite(cpu: Cpu, phys: u64, linear: u64, n: Size, v: u64)
    requires cpu.Valid()
    modifies cpu`pending, cpu`cr2, cpu.mem.data, cpu.tlb
    ensures cpu.Valid()
    ensures cpu.Unit() == S.StrWrite(old(cpu.Unit()), phys, linear, n, v)
  {
    hide Operands.WriteSplit, WriteSize;
    if n > 1 && Straddles(phys, n) { cpu.WriteSplit(phys, linear, n, v); } else { cpu.StoreSize(phys, n, v); }
  }

  lemma StrReadKeepsMode(s: State, phys: u64, linear: u64, n: Size)
    requires s.Valid()
    ensures var s' := S.StrRead(s, phys, linear, n).0; s'.efer == s.efer && s'.pe == s.pe && s'.cs == s.cs
  {
    hide Access, ReadAt, ReadSize;
    AccessKeepsMode(s, NextPage(linear), false, false);
  }

  lemma SameSegment(c: P.Cpu, c': P.Cpu, s: P.SegReg, offset: u64)
    requires c.Valid() && c' == c.(mmu := c'.mmu) && c'.Valid()
    requires c'.mmu.efer == c.mmu.efer && c'.mmu.pe == c.mmu.pe && c'.mmu.cs == c.mmu.cs
    ensures P.LinearAddr(c', s, offset) == P.LinearAddr(c, s, offset)
  {
    hide State.Valid, Wrap64, Wrap32;
  }

  /** Translate the addresses of one element. */
  method Touch(cpu: Cpu, op: S.StringOp, si: u64, di: u64) returns (src: u64, dst: u64)
    requires cpu.Valid()
    modifies cpu`pending, cpu`cr2, cpu.mem.data, cpu.tlb
    ensures cpu.Valid() && (cpu.Whole(), src, dst) == S.Touch(old(cpu.Whole()), op, si, di)
  {
    hide Access, P.LinearAddr;
    ghost var c := cpu.Whole();
    src, dst := 0, 0;
    if S.UsesSi(op.kind) {
      AccessKeepsMode(c.mmu, S.SourceAddr(c, op, si), false, false);
      src := cpu.ApplyPaging(S.SourceAddr(cpu.Whole(), op, si), false, false);
    }
    if S.UsesDi(op.kind) {
      SameSegment(c, cpu.Whole(), P.Es, di);
      dst := cpu.ApplyPaging(S.DestAddr(cpu.Whole(), di), S.Stores(op.kind), false);
    }
  }

  /** Move or compare one element at the addresses found. */
  method Transfer(cpu: Cpu, op: S.StringOp, si: u64, di: u64, src: u64, dst: u64)
    requires cpu.Valid()
    modifies cpu`pending, cpu`cr2, cpu`flags, cpu.mem.data, cpu.tlb, cpu.regs
    ensures cpu.Valid() && cpu.Whole() == S.Transfer(old(cpu.Whole()), op, si, di, src, dst)
  {
    hide S.StrRead, S.StrWrite, P.LinearAddr, ReadSize, S.Compare, P.RegW, P.SetRegW;
    ghost var c := cpu.Whole();
    match op.kind
    case Movs =>
      StrReadKeepsMode(c.mmu, src, S.SourceAddr(c, op, si), op.n);
      var v := StrRead(cpu, src, S.SourceAddr(cpu.Whole(), op, si), op.n);
      SameSegment(c, cpu.Whole(), P.Es, di);
      StrWrite(cpu, dst, S.DestAddr(cpu.Whole(), di), op.n, v);
    case Stos =>
      StrWrite(cpu, dst, S.DestAddr(cpu.Whole(), di), op.n, P.RegW(cpu.regs[..], 0, op.n));
    case Lods =>
      var v := StrRead(cpu, src, S.SourceAddr(cpu.Whole(), op, si), op.n);
      if cpu.pending.None? { cpu.SetReg(0, op.n, v); }
    case Cmps =>
      var a := cpu.LoadSize(src, op.n);
      var b := cpu.LoadSize(dst, op.n);
      cpu.flags := S.Compare(cpu.flags, a, b, op.n);
    case Scas =>
      var b := cpu.LoadSize(dst, op.n);
      cpu.flags := S.Compare(cpu.flags, P.RegW(cpu.regs[..], 0, op.n), b, op.n);
  }

  /** A string instruction, with or without REP: the loop stops at a fault, and
      the index and count registers say where it stopped. */
  method ExecString(cpu: Cpu, op: S.StringOp)
    requires cpu.Valid()
    modifies cpu`pending, cpu`cr2, cpu`flags, cpu.mem.data, cpu.tlb, cpu.regs
    ensures cpu.Valid() && cpu.Whole() == S.Exec(old(cpu.Whole()), op)
  {
    hide S.Touch, S.Transfer, S.Advance, S.Repeats, S.Start, S.Recorded;
    var k := S.Start(op, cpu.regs[..]);
    ghost var all := S.Loop(cpu.Whole(), op, k);
    while k.count > 0
      invariant cpu.Valid() && S.Loop(cpu.Whole(), op, k) == all
      decreases k.count
    {
      ghost var c := cpu.Whole();
      var src, dst := Touch(cpu, op, k.si, k.di);
      if cpu.pending.Some? { break; }
      Transfer(cpu, op, k.si, k.di, src, dst);
      if cpu.pending.Some? { break; }
      k := S.Next(op, cpu.flags, k);
      if S.Compares(op.kind) && !S.Repeats(cpu.flags, op.rep, k.count) { break; }
    }
    Record(cpu, op, k);
  }
}
