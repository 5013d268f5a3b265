/** The REP string instructions: the loop, and what it means on data alone. */
module Strings {
  import opened Words
  import opened Memory
  import opened Mmu
  import opened Operands
  import opened Alu
  import opened Processor

  datatype Kind = Movs | Stos | Lods | Cmps | Scas
  datatype Rep = NoRep | Repe | Repne

  type AddrSize = n: nat | n == 2 || n == 4 || n == 8 witness 2

  /** A decoded string instruction: element size, address size, and the segment
      of its source (DS unless overridden). */
  datatype StringOp = StringOp(kind: Kind, rep: Rep, n: Size, asize: AddrSize, seg: SegReg)

  predicate UsesSi(k: Kind) { k == Movs || k == Lods || k == Cmps }
  predicate UsesDi(k: Kind) { k != Lods }
  predicate Stores(k: Kind) { k == Movs || k == Stos }
  predicate Compares(k: Kind) { k == Cmps || k == Scas }

  const CX: RegNo := 1
  const SI: RegNo := 6
  const DI: RegNo := 7

  /** Advance an index register by one element, wrapping at the address size. */
  function Advance(op: StringOp, f: Eflags, v: u64): u64 {
    var v' := Wrap64(if GetFlag(f, DF) then v - op.n else v + op.n);
    if op.asize == 8 then v' else if op.asize == 4 then v' % TWO32 else v' % 0x1_0000
  }

  /** Should a REPE or REPNE comparison keep going? */
  predicate Repeats(f: Eflags, rep: Rep, remaining: u64) {
    rep != NoRep && remaining > 0 && (if rep == Repe then GetFlag(f, ZF) else !GetFlag(f, ZF))
  }

  function Count(op: StringOp, g: Regs): u64 { if op.rep == NoRep then 1 else RegW(g, CX, op.asize) }

  function SourceAddr(c: Cpu, op: StringOp, si: u64): u64
    requires c.Valid()
  {
    LinearAddr(c, op.seg, si)
  }

  function DestAddr(c: Cpu, di: u64): u64
    requires c.Valid()
  {
    LinearAddr(c, Es, di)
  }

  // ---- One element ----

  function StrRead(s: State, phys: u64, linear: u64, n: Size): (r: (State, u64))
    requires s.Valid()
    ensures r.0.Valid()
  {
    if n > 1 && Straddles(phys, n) then ReadSplit(s, phys, linear, n) else (s, ReadSize(s.mem, phys, n))
  }

  function StrWrite(s: State, phys: u64, linear: u64, n: Size, v: u64): (s': State)
    requires s.Valid()
    ensures s'.Valid()
  {
    if n > 1 && Straddles(phys, n) then WriteSplit(s, phys, linear, n, v)
    else s.(mem := WriteSize(s.mem, phys, n, v))
  }

  /** Translate the element's addresses: the source first, both even if it faults. */
  function Touch(c: Cpu, op: StringOp, si: u64, di: u64): (r: (Cpu, u64, u64))
    requires c.Valid()
    ensures r.0.Valid()
  {
    var (m1, src) := if UsesSi(op.kind) then Access(c.mmu, SourceAddr(c, op, si), false, false) else (c.mmu, 0);
    var (m2, dst) := if UsesDi(op.kind) then Access(m1, DestAddr(c, di), Stores(op.kind), false) else (m1, 0);
    (c.(mmu := m2), src, dst)
  }

  /** Move or compare the element at the physical addresses just found. */
  function Transfer(c: Cpu, op: StringOp, si: u64, di: u64, src: u64, dst: u64): (c': Cpu)
    requires c.Valid()
    ensures c'.Valid()
  {
    match op.kind
    case Movs =>
      // The store is attempted even if the second page of the source faulted.
      var (m1, v) := StrRead(c.mmu, src, SourceAddr(c, op, si), op.n);
      c.(mmu := StrWrite(m1, dst, DestAddr(c, di), op.n, v))
    case Stos =>
      c.(mmu := StrWrite(c.mmu, dst, DestAddr(c, di), op.n, RegW(c.regs, 0, op.n)))
    case Lods =>
      var (m1, v) := StrRead(c.mmu, src, SourceAddr(c, op, si), op.n);
      if m1.pending.Some? then c.(mmu := m1) else c.(mmu := m1, regs := SetRegW(c.regs, 0, op.n, v))
    case Cmps =>
      c.(flags := Compare(c.flags, ReadSize(c.mmu.mem, src, op.n), ReadSize(c.mmu.mem, dst, op.n), op.n))
    case Scas =>
      c.(flags := Compare(c.flags, RegW(c.regs, 0, op.n), ReadSize(c.mmu.mem, dst, op.n), op.n))
  }

  function Compare(f: Eflags, a: u64, b: u64, n: Size): Eflags {
    Compute(f, Cmp, a % Modulus(n), b % Modulus(n), n).0
  }

  /** The loop variables of a string instruction. */
  datatype Cursor = Cursor(si: u64, di: u64, count: u64)

  function Next(op: StringOp, f: Eflags, k: Cursor): Cursor
    requires k.count > 0
  {
    Cursor(if UsesSi(op.kind) then Advance(op, f, k.si) else k.si,
           if UsesDi(op.kind) then Advance(op, f, k.di) else k.di,
           k.count - 1)
  }

  // ---- The loop ----

  /** Elements until the count runs out, a comparison ends it, or one faults. */
  function Loop(c: Cpu, op: StringOp, k: Cursor): (r: (Cpu, Cursor))
    requires c.Valid()
    ensures r.0.Valid()
    decreases k.count
  {
    if k.count == 0 then (c, k)
    else
      var (c1, src, dst) := Touch(c, op, k.si, k.di);
      if Faulted(c1) then (c1, k)
      else
        var c2 := Transfer(c1, op, k.si, k.di, src, dst);
        if Faulted(c2) then (c2, k)
        else
          var k' := Next(op, c2.flags, k);
          if Compares(op.kind) && !Repeats(c2.flags, op.rep, k'.count) then (c2, k')
          else Loop(c2, op, k')
  }

  function Start(op: StringOp, g: Regs): Cursor {
    Cursor(RegW(g, SI, op.asize), RegW(g, DI, op.asize), Count(op, g))
  }

  /** The index and count registers record where the loop stopped, fault or not. */
  function Recorded(op: StringOp, g: Regs, k: Cursor): Regs {
    var g1 := if UsesSi(op.kind) then SetRegW(g, SI, op.asize, k.si) else g;
    var g2 := if UsesDi(op.kind) then SetRegW(g1, DI, op.asize, k.di) else g1;
    if op.rep != NoRep then SetRegW(g2, CX, op.asize, k.count) else g2
  }

  function Exec(c: Cpu, op: StringOp): (c': Cpu)
    requires c.Valid()
    ensures c'.Valid()
  {
    var (c1, k) := Loop(c, op, Start(op, c.regs));
    c1.(regs := Recorded(op, c1.regs, k))
  }

  // ---- The meaning: the same elements on data, where nothing can fault ----

  /** The linear addresses of an element's bytes. */
  function Bytes(linear: u64, n: Size): (addrs: seq<u64>)
    ensures |addrs| == n
  {
    seq<u64>(n, i requires 0 <= i < n => Wrap64(linear + i))
  }

  /** Their homes: `T` says where each linear byte lives. */
  function Homes(T: u64 -> nat, linear: u64, n: Size): (addrs: seq<nat>)
    ensures |addrs| == n
  {
    seq<nat>(n, i requires 0 <= i < n => T(Bytes(linear, n)[i]))
  }

  function ValueAt(mem: Ram, T: u64 -> nat, linear: u64, n: Size): u64
    requires mem.Valid()
  {
    ByteRanges();
    ReadAt(mem, Homes(T, linear, n))
  }

  /** Data, registers, flags and loop variables; `over` once a comparison ended it. */
  datatype Ideal = Ideal(mem: Ram, regs: Regs, flags: Eflags, k: Cursor, over: bool)

  /** The data side of one element, before the loop variables move. */
  function Moved(c: Cpu, op: StringOp, T: u64 -> nat, s: Ideal): (s': Ideal)
    requires c.Valid() && s.mem.Valid()
    ensures s'.mem.Valid() && |s'.mem.data| == |s.mem.data| && s'.k == s.k && s'.over == s.over
  {
    var src, dst := SourceAddr(c, op, s.k.si), DestAddr(c, s.k.di);
    match op.kind
    case Movs => s.(mem := WriteAt(s.mem, Homes(T, dst, op.n), ValueAt(s.mem, T, src, op.n)))
    case Stos => s.(mem := WriteAt(s.mem, Homes(T, dst, op.n), RegW(s.regs, 0, op.n)))
    case Lods => s.(regs := SetRegW(s.regs, 0, op.n, ValueAt(s.mem, T, src, op.n)))
    case Cmps =>
      s.(flags := Compare(s.flags, ValueAt(s.mem, T, src, op.n), ValueAt(s.mem, T, dst, op.n), op.n))
    case Scas => s.(flags := Compare(s.flags, RegW(s.regs, 0, op.n), ValueAt(s.mem, T, dst, op.n), op.n))
  }

  function Element(c: Cpu, op: StringOp, T: u64 -> nat, s: Ideal): (s': Ideal)
    requires c.Valid() && s.mem.Valid() && s.k.count > 0
    ensures s'.mem.Valid() && |s'.mem.data| == |s.mem.data| && s'.k.count == s.k.count - 1
  {
    var s1 := Moved(c, op, T, s);
    var k' := Next(op, s1.flags, s.k);
    s1.(k := k', over := Compares(op.kind) && !Repeats(s1.flags, op.rep, k'.count))
  }

  predicate Ended(s: Ideal) { s.k.count == 0 || s.over }

  /** All the remaining elements. */
  function Finish(c: Cpu, op: StringOp, T: u64 -> nat, s: Ideal): (s': Ideal)
    requires c.Valid() && s.mem.Valid()
    ensures s'.mem.Valid() && |s'.mem.data| == |s.mem.data| && Ended(s')
    decreases s.k.count
  {
    if Ended(s) then s else Finish(c, op, T, Element(c, op, T, s))
  }

  /** The first `j` elements. */
  function Prefix(c: Cpu, op: StringOp, T: u64 -> nat, s: Ideal, j: nat): (s': Ideal)
    requires c.Valid() && s.mem.Valid()
    ensures s'.mem.Valid() && |s'.mem.data| == |s.mem.data|
    decreases j
  {
    if j == 0 || Ended(s) then s else Prefix(c, op, T, Element(c, op, T, s), j - 1)
  }
}
