/** Read-modify-write instructions: they commit everything or nothing, so a page
    fault in the middle can be repaired and the instruction run again. */
module ReadModifyWrite {
  import opened Words
  import opened Memory
  import opened Paging
  import opened PageUniform
  import opened Mmu
  import opened TlbRefinement
  import opened AddressSpace
  import opened Operands
  import opened SplitAccess
  import opened Alu
  import opened Processor
  import Division

  // ---- Operands ----

  /** A register operand; `high` names AH, CH, DH or BH for byte operands. */
  datatype RegOp = RegOp(i: RegNo, high: bool)

  /** A 32- or 64-bit effective address, and the segment it is taken in. */
  datatype Addr = Addr(seg: SegReg, base: Option<RegNo>, index: Option<RegNo>, scale: nat,
                       disp: u64, ripRelative: bool, wide: bool)

  datatype Rm = Reg(r: RegOp) | Mem(a: Addr)

  function AddrReg(c: Cpu, i: Option<RegNo>, wide: bool): u64
    requires c.Valid()
  {
    match i
    case None => 0
    case Some(r) => if wide then c.regs[r] else c.regs[r] % TWO32
  }

  function EffectiveAddress(c: Cpu, a: Addr): u64
    requires c.Valid()
  {
    if a.ripRelative then Wrap64(c.rip + a.disp)
    else
      var ea := Wrap64(AddrReg(c, a.index, a.wide) * a.scale + AddrReg(c, a.base, a.wide) + a.disp);
      if a.wide then ea else Wrap32(ea)
  }

  function Linear(c: Cpu, a: Addr): u64
    requires c.Valid()
  {
    LinearAddr(c, a.seg, EffectiveAddress(c, a))
  }

  function GetReg(g: Regs, r: RegOp, n: Size): u64 {
    if n == 1 && r.high then g[r.i] / 0x100 % 0x100 else RegW(g, r.i, n)
  }

  function PutReg(g: Regs, r: RegOp, n: Size, v: u64): Regs {
    if n == 1 && r.high then
      g[r.i := g[r.i] / 0x1_0000 * 0x1_0000 + v % 0x100 * 0x100 + g[r.i] % 0x100]
    else SetRegW(g, r.i, n, v)
  }

  /** Writing a result. After a fault nothing is written. */
  function WriteReg(c: Cpu, r: RegOp, n: Size, v: u64): (c': Cpu)
    requires c.Valid()
    ensures c'.Valid()
  {
    if Faulted(c) then c else c.(regs := PutReg(c.regs, r, n, v))
  }

  function ReadRm(c: Cpu, rm: Rm, n: Size): (r: (Cpu, u64))
    requires c.Valid()
    ensures r.0.Valid()
  {
    match rm
    case Reg(r) => (c, GetReg(c.regs, r, n))
    case Mem(a) =>
      var (m, v) := Load(c.mmu, Linear(c, a), n);
      (c.(mmu := m), v)
  }

  function WriteRm(c: Cpu, rm: Rm, n: Size, v: u64): (c': Cpu)
    requires c.Valid()
    ensures c'.Valid()
  {
    if Faulted(c) then c
    else
      match rm
      case Reg(r) => WriteReg(c, r, n, v)
      case Mem(a) => c.(mmu := Store(c.mmu, Linear(c, a), n, v))
  }

  // ---- The instructions ----

  datatype Rmw =
    | AluReg(op: AluOp, rm: Rm, reg: RegOp, toRm: bool)
    | AluImm(op: AluOp, rm: Rm, imm: u64)
    | Xchg(rm: Rm, reg: RegOp)
    | Cmpxchg(rm: Rm, reg: RegOp)
    | Xadd(rm: Rm, reg: RegOp)

  const ACC: RegOp := RegOp(0, false)

  function AluW(f: Eflags, op: AluOp, a: u64, b: u64, n: Size): (Eflags, u64) {
    Compute(f, op, a % Modulus(n), b % Modulus(n), n)
  }

  function Exec(c: Cpu, i: Rmw, n: Size): (c': Cpu)
    requires c.Valid()
    ensures c'.Valid()
  {
    match i
    case AluReg(op, rm, reg, toRm) =>
      var regv := GetReg(c.regs, reg, n);
      var (c1, rmv) := ReadRm(c, rm, n);
      var (f, r) := AluW(c1.flags, op, if toRm then rmv else regv, if toRm then regv else rmv, n);
      var c2 := c1.(flags := f);
      if op == Cmp then c2 else if toRm then WriteRm(c2, rm, n, r) else WriteReg(c2, reg, n, r)
    case AluImm(op, rm, imm) =>
      var (c1, rmv) := ReadRm(c, rm, n);
      var (f, r) := AluW(c1.flags, op, rmv, imm, n);
      var c2 := c1.(flags := f);
      if op == Cmp then c2 else WriteRm(c2, rm, n, r)
    case Xchg(rm, reg) =>
      var (c1, a) := ReadRm(c, rm, n);
      var b := GetReg(c1.regs, reg, n);
      WriteReg(WriteRm(c1, rm, n, b), reg, n, a)
    case Cmpxchg(rm, reg) =>
      var (c1, dest) := ReadRm(c, rm, n);
      var acc := GetReg(c1.regs, ACC, n);
      var c2 := c1.(flags := AluW(c1.flags, Cmp, acc, dest, n).0);
      if acc == dest then WriteRm(c2, rm, n, GetReg(c2.regs, reg, n)) else WriteReg(c2, ACC, n, dest)
    case Xadd(rm, reg) =>
      var (c1, dest) := ReadRm(c, rm, n);
      var src := GetReg(c1.regs, reg, n);
      var (f, sum) := AluW(c1.flags, Add, dest, src, n);
      var c2 := c1.(flags := f);
      // To memory the register would be lost to a fault, so it is written last.
      if rm.Reg? then WriteRm(WriteReg(c2, reg, n, dest), rm, n, sum)
      else WriteReg(WriteRm(c2, rm, n, sum), reg, n, dest)
  }

  // ---- What each instruction means ----

  /** The meaning of an instruction on flags, registers and operand content:
      no memory, no translation, no faults. */
  datatype Meaning = Meaning(flags: Eflags, regs: Regs, value: u64)

  function Effect(c: Cpu, i: Rmw, n: Size, v: u64): Meaning
    requires c.Valid()
  {
    match i
    case AluReg(op, _, reg, toRm) =>
      var regv := GetReg(c.regs, reg, n);
      var (f, r) := AluW(c.flags, op, if toRm then v else regv, if toRm then regv else v, n);
      if op == Cmp then Meaning(f, c.regs, v)
      else if toRm then Meaning(f, c.regs, r)
      else Meaning(f, PutReg(c.regs, reg, n, r), v)
    case AluImm(op, _, imm) =>
      var (f, r) := AluW(c.flags, op, v, imm, n);
      Meaning(f, c.regs, if op == Cmp then v else r)
    case Xchg(_, reg) => Meaning(c.flags, PutReg(c.regs, reg, n, v), GetReg(c.regs, reg, n))
    case Cmpxchg(_, reg) =>
      var acc := GetReg(c.regs, ACC, n);
      var f := AluW(c.flags, Cmp, acc, v, n).0;
      if acc == v then Meaning(f, c.regs, GetReg(c.regs, reg, n)) else Meaning(f, PutReg(c.regs, ACC, n, v), v)
    case Xadd(_, reg) =>
      var (f, sum) := AluW(c.flags, Add, v, GetReg(c.regs, reg, n), n);
      Meaning(f, PutReg(c.regs, reg, n, v), sum)
  }

  /** The flags an attempt that faults may already have overwritten. */
  ghost predicate FlagsKept(i: Rmw, f: Eflags, g: Eflags) {
    match i
    case AluReg(op, _, _, _) => AgreeBut(f, g, op)
    case AluImm(op, _, _) => AgreeBut(f, g, op)
    case Xchg(_, _) => f == g
    case Cmpxchg(_, _) => AgreeBut(f, g, Cmp)
    case Xadd(_, _) => AgreeBut(f, g, Add)
  }

  /** ADC and SBB are outside: they overwrite the CF they read. */
  predicate Restartable(i: Rmw) {
    match i
    case AluReg(op, rm, _, _) => rm.Mem? && op != Adc && op != Sbb
    case AluImm(op, rm, _) => rm.Mem? && op != Adc && op != Sbb
    case Xchg(rm, _) => rm.Mem?
    case Cmpxchg(rm, _) => rm.Mem?
    case Xadd(rm, _) => rm.Mem?
  }

  function MemOf(i: Rmw): Addr
    requires Restartable(i)
  {
    i.rm.a
  }

  function Home(c: Cpu, i: Rmw, n: Size): seq<nat>
    requires c.Valid() && Restartable(i)
  {
    LinearAddrs(c.mmu, Linear(c, MemOf(i)), n)
  }

  function Content(c: Cpu, i: Rmw, n: Size): nat
    requires c.Valid() && Restartable(i)
  {
    ReadAt(c.mmu.mem, Home(c, i, n))
  }

  /** Whichever bytes of the operand are mapped are data, and RAM answers there.
      Any of its pages may be absent. */
  ghost predicate MappedData(s: State, linear: u64, n: Size, D: iset<nat>)
    requires s.Valid()
  {
    var addrs := LinearAddrs(s, linear, n);
    forall j :: 0 <= j < n && Walk(s, Wrap64(linear + j)).Some? ==> addrs[j] in D && Slot(s.mem, addrs[j]).Some?
  }

  /** A processor about to execute `i` on a memory operand that is data where mapped. */
  ghost predicate Ready(c: Cpu, i: Rmw, n: Size, D: iset<nat>) {
    && c.Valid() && Inv(c.mmu) && !Faulted(c) && Separate(c.mmu, D) && Restartable(i)
    && MappedData(c.mmu, Linear(c, MemOf(i)), n, D)
  }

  /** An operand both of whose pages are mapped is data throughout. */
  lemma AllMapped(s: State, linear: u64, n: Size, write: bool, D: iset<nat>)
    requires s.Valid() && MappedData(s, linear, n, D) && OperandReachable(s, linear, n, write)
    ensures IsData(s, linear, n, D)
  {
    hide Walk, Wrap64, Reachable, OperandReachable, PhysOf;
    var addrs := LinearAddrs(s, linear, n);
    forall a | a in addrs ensures a in D && Slot(s.mem, a).Some? {
      var j :| 0 <= j < n && addrs[j] == a;
      ByteReachable(s, linear, n, j, write);
    }
  }

  // ---- The load and the store of one attempt ----

  lemma LoadPart(c: Cpu, i: Rmw, n: Size, D: iset<nat>)
    requires Ready(c, i, n, D)
    ensures var (c1, v) := ReadRm(c, i.rm, n);
            && c1 == c.(mmu := c1.mmu) && Linear(c1, MemOf(i)) == Linear(c, MemOf(i))
            && Inv(c1.mmu) && Separate(c1.mmu, D) && SameInside(c.mmu.mem, c1.mmu.mem, D)
            && (!Faulted(c1) ==>
                  && v == Content(c, i, n) && Home(c1, i, n) == Home(c, i, n) && Ready(c1, i, n, D)
                  && ReadAt(c1.mmu.mem, Home(c, i, n)) == Content(c, i, n))
  {
    hide Load, Separate, Agrees, Reach, OperandReachable, LinearAddrs, Linear, SameInside, Translated, MappedData,
      ReadAt;
    var linear := Linear(c, MemOf(i));
    LoadIsBytewise(c.mmu, linear, n);
    ReachOutcome(c.mmu, linear, n, false);
    ReachKeepsData(c.mmu, linear, n, false, D);
    var c1 := ReadRm(c, i.rm, n).0;
    TranslatedWalks(c.mmu, c1.mmu);
    SameLinear(c, c1, MemOf(i));
    SameAddrs(c.mmu, c1.mmu, linear, n);
    if !Faulted(c1) {
      AllMapped(c.mmu, linear, n, false, D);
      DataReads(c.mmu, c1.mmu, linear, n, D);
      DataIsMapped(c1.mmu, linear, n, D);
    }
  }

  lemma DataIsMapped(s: State, linear: u64, n: Size, D: iset<nat>)
    requires s.Valid() && IsData(s, linear, n, D)
    ensures MappedData(s, linear, n, D)
  {
    hide LinearAddrs;
  }

  /** Translations do not move an address, and data reads the same after them. */
  lemma DataReads(s: State, s': State, linear: u64, n: nat, D: iset<nat>)
    requires s.Valid() && s'.Valid() && IsData(s, linear, n, D) && SameInside(s.mem, s'.mem, D)
    requires s'.mem.lowSize == s.mem.lowSize && LinearAddrs(s', linear, n) == LinearAddrs(s, linear, n)
    ensures ReadAt(s'.mem, LinearAddrs(s, linear, n)) == ReadAt(s.mem, LinearAddrs(s, linear, n))
    ensures IsData(s', linear, n, D)
  {
    hide LinearAddrs;
    SameBytesReadAt(s.mem, s'.mem, LinearAddrs(s, linear, n));
  }

  lemma SameLinear(c: Cpu, c': Cpu, a: Addr)
    requires c.Valid() && c'.Valid() && c' == c.(mmu := c'.mmu, flags := c'.flags)
    requires c'.mmu.efer == c.mmu.efer && c'.mmu.pe == c.mmu.pe && c'.mmu.cs == c.mmu.cs
    ensures Linear(c', a) == Linear(c, a)
  {
    hide State.Valid, Wrap64, Wrap32;
  }

  lemma StorePart(c: Cpu, i: Rmw, n: Size, v: u64, D: iset<nat>)
    requires Ready(c, i, n, D)
    ensures var c1 := WriteRm(c, i.rm, n, v);
            && c1 == c.(mmu := c1.mmu) && Inv(c1.mmu) && Separate(c1.mmu, D)
            && (Faulted(c1) ==> SameInside(c.mmu.mem, c1.mmu.mem, D))
            && (!Faulted(c1) ==>
                  && ReadAt(c1.mmu.mem, Home(c, i, n)) == v % Modulus(n)
                  && SameInside(c.mmu.mem, c1.mmu.mem, iset a | a in D && a !in Home(c, i, n)))
  {
    hide Store, Separate, Agrees, Reach, OperandReachable, LinearAddrs, Linear, SameInside, WriteAt, Modulus,
      MappedData;
    var linear := Linear(c, MemOf(i));
    StoreIsBytewise(c.mmu, linear, n, v);
    ReachOutcome(c.mmu, linear, n, true);
    ReachKeepsData(c.mmu, linear, n, true, D);
    if !Faulted(WriteRm(c, i.rm, n, v)) {
      AllMapped(c.mmu, linear, n, true, D);
      StoreFacts(c.mmu, linear, n, v, D);
      StoredValue(c.mmu, linear, n, v, D);
    }
  }

  /** The stored bytes read back as the value truncated to the operand, and the
      rest of the data is untouched. */
  lemma StoredValue(s: State, linear: u64, n: Size, v: u64, D: iset<nat>)
    requires Inv(s) && s.pending.None? && Separate(s, D) && IsData(s, linear, n, D)
    requires Store(s, linear, n, v).pending.None?
    ensures var mem' := Store(s, linear, n, v).mem;
            && ReadAt(mem', LinearAddrs(s, linear, n)) == v % Modulus(n)
            && SameInside(s.mem, mem', iset a | a in D && a !in LinearAddrs(s, linear, n))
  {
    hide Store, Separate, Agrees, Reach, LinearAddrs, Walk, Reachable;
    StoreIsBytewise(s, linear, n, v);
    ReachOutcome(s, linear, n, true);
    ReachKeepsData(s, linear, n, true, D);
    var r, addrs := Reach(s, linear, n, true), LinearAddrs(s, linear, n);
    ReachableWalks(s, linear, true);
    if linear % 0x1000 + n > 0x1000 { ReachableWalks(s, NextPage(linear), true); }
    LinearAddrsDistinct(s, linear, n);
    assert AllBacked(r.mem, addrs);
    WriteAtTruncates(r.mem, addrs, v);
    ReadAfterWriteAt(r.mem, addrs, v % Modulus(n));
    var mem' := WriteAt(r.mem, addrs, v);
    forall a: nat | a in D && a !in addrs
      ensures ReadU8(mem', a) == ReadU8(s.mem, a)
    {
      WriteAtFrame(r.mem, addrs, v, a);
    }
  }

  lemma {:induction false} WriteAtTruncates(mem: Ram, addrs: seq<nat>, v: nat)
    requires mem.Valid()
    ensures WriteAt(mem, addrs, v) == WriteAt(mem, addrs, v % ByteRange(|addrs|))
    decreases |addrs|
  {
    if addrs != [] {
      var p := ByteRange(|addrs| - 1);
      Division.TwoDigits(v, 256, p);
      var w := v % (256 * p);
      Division.DivUnique(w, 256, v / 256 % p, v % 256);
      WriteAtTruncates(WriteU8(mem, addrs[0], v % 256), addrs[1..], v / 256);
    }
  }

  // ---- One attempt ----

  /** A faulting attempt leaves every register and every byte of data alone; of
      the flags it may have overwritten only those it will overwrite again. */
  ghost predicate Undone(c: Cpu, c': Cpu, i: Rmw, D: iset<nat>)
    requires c.Valid()
  {
    && c' == c.(mmu := c'.mmu, flags := c'.flags)
    && FlagsKept(i, c'.flags, c.flags)
    && Inv(c'.mmu) && Separate(c'.mmu, D) && SameInside(c.mmu.mem, c'.mmu.mem, D)
  }

  /** A completed attempt realizes the instruction's meaning. */
  ghost predicate Done(c: Cpu, c': Cpu, i: Rmw, n: Size, D: iset<nat>)
    requires c.Valid() && Restartable(i)
  {
    var e := Effect(c, i, n, Content(c, i, n) % TWO64);
    && c' == c.(mmu := c'.mmu, flags := e.flags, regs := e.regs)
    && Inv(c'.mmu) && Separate(c'.mmu, D)
    && ReadAt(c'.mmu.mem, Home(c, i, n)) == e.value % Modulus(n)
    && SameInside(c.mmu.mem, c'.mmu.mem, iset a | a in D && a !in Home(c, i, n))
  }

  /** The operand's content is the value the instruction computes with. */
  lemma ContentFits(c: Cpu, i: Rmw, n: Size)
    requires c.Valid() && Restartable(i)
    ensures Content(c, i, n) < Modulus(n) && Content(c, i, n) % TWO64 == Content(c, i, n)
  {
    hide LinearAddrs, Linear, ReadAt;
    ByteRanges();
  }

  lemma AluKeeps(f: Eflags, op: AluOp, a: u64, b: u64, n: Size)
    requires op != Adc && op != Sbb
    ensures AgreeBut(AluW(f, op, a, b, n).0, f, op)
    ensures AluW(f, op, a, b, n).1 < Modulus(n)
  {
    ComputeOverwrites(f, f, op, a % Modulus(n), b % Modulus(n), n);
    ComputeFits(f, op, a % Modulus(n), b % Modulus(n), n);
    hide Compute, AgreeBut, CarryFlags, LogicFlags, Logic, GetFlag, AdcCarry, SbbBorrow;
  }

  lemma ReadyIgnoresFlags(c: Cpu, f: Eflags, i: Rmw, n: Size, D: iset<nat>)
    requires Ready(c, i, n, D)
    ensures var c' := c.(flags := f);
            Ready(c', i, n, D) && Home(c', i, n) == Home(c, i, n) && Content(c', i, n) == Content(c, i, n)
  {
    hide LinearAddrs, ReadAt, Separate, Agrees, Linear, MappedData;
    SameLinear(c, c.(flags := f), MemOf(i));
  }

  /** The shared shape of an attempt: load, set flags, maybe store. */
  lemma LoadFlagsStore(c: Cpu, i: Rmw, n: Size, f: Eflags, w: u64, D: iset<nat>)
    requires Ready(c, i, n, D) && FlagsKept(i, f, c.flags)
    ensures var c1 := ReadRm(c, i.rm, n).0;
            var c2 := c1.(flags := f);
            var c3 := WriteRm(c2, i.rm, n, w);
            && (Faulted(c1) ==> c3 == c2 && Undone(c, c2, i, D))
            && (!Faulted(c1) ==>
                  && ReadRm(c, i.rm, n).1 == Content(c, i, n)
                  && Inv(c2.mmu) && Separate(c2.mmu, D) && SameInside(c.mmu.mem, c2.mmu.mem, D)
                  && ReadAt(c2.mmu.mem, Home(c, i, n)) == Content(c, i, n)
                  && c3 == c2.(mmu := c3.mmu)
                  && (Faulted(c3) ==> Undone(c, c3, i, D))
                  && (!Faulted(c3) ==>
                        && Inv(c3.mmu) && Separate(c3.mmu, D)
                        && ReadAt(c3.mmu.mem, Home(c, i, n)) == w % Modulus(n)
                        && SameInside(c.mmu.mem, c3.mmu.mem, iset a | a in D && a !in Home(c, i, n))))
  {
    hide LinearAddrs, ReadAt, Separate, Agrees, Linear, Load, Store, FlagsKept, Modulus, MappedData;
    LoadPart(c, i, n, D);
    var c1 := ReadRm(c, i.rm, n).0;
    var c2 := c1.(flags := f);
    if !Faulted(c1) {
      ReadyIgnoresFlags(c1, f, i, n, D);
      StorePart(c2, i, n, w, D);
    }
  }

  /** What one attempt does. */
  ghost predicate Attempted(c: Cpu, c': Cpu, i: Rmw, n: Size, D: iset<nat>)
    requires c.Valid() && Restartable(i)
  {
    if Faulted(c') then Undone(c, c', i, D) else Done(c, c', i, n, D)
  }

  lemma AluRegAttempt(c: Cpu, op: AluOp, rm: Rm, reg: RegOp, toRm: bool, n: Size, D: iset<nat>)
    requires Ready(c, AluReg(op, rm, reg, toRm), n, D)
    ensures var i := AluReg(op, rm, reg, toRm); Attempted(c, Exec(c, i, n), i, n, D)
  {
    hide LinearAddrs, ReadAt, Separate, Agrees, Linear, WriteRm, ReadRm, Modulus, AluW, AgreeBut, GetReg, PutReg,
      MappedData;
    var i := AluReg(op, rm, reg, toRm);
    ContentFits(c, i, n);
    var regv, rmv := GetReg(c.regs, reg, n), ReadRm(c, rm, n).1;
    var a, b := if toRm then rmv else regv, if toRm then regv else rmv;
    var (f, r) := AluW(c.flags, op, a, b, n);
    AluKeeps(c.flags, op, a, b, n);
    LoadFlagsStore(c, i, n, f, r, D);
    LoadPart(c, i, n, D);
  }

  lemma AluImmAttempt(c: Cpu, op: AluOp, rm: Rm, imm: u64, n: Size, D: iset<nat>)
    requires Ready(c, AluImm(op, rm, imm), n, D)
    ensures var i := AluImm(op, rm, imm); Attempted(c, Exec(c, i, n), i, n, D)
  {
    hide LinearAddrs, ReadAt, Separate, Agrees, Linear, WriteRm, ReadRm, Modulus, AluW, AgreeBut, GetReg, PutReg,
      MappedData;
    var i := AluImm(op, rm, imm);
    ContentFits(c, i, n);
    var rmv := ReadRm(c, rm, n).1;
    var (f, r) := AluW(c.flags, op, rmv, imm, n);
    AluKeeps(c.flags, op, rmv, imm, n);
    LoadFlagsStore(c, i, n, f, r, D);
    LoadPart(c, i, n, D);
  }

  lemma XchgAttempt(c: Cpu, rm: Rm, reg: RegOp, n: Size, D: iset<nat>)
    requires Ready(c, Xchg(rm, reg), n, D)
    ensures var i := Xchg(rm, reg); Attempted(c, Exec(c, i, n), i, n, D)
  {
    hide LinearAddrs, ReadAt, Separate, Agrees, Linear, WriteRm, ReadRm, Modulus, AluW, AgreeBut, GetReg, PutReg,
      MappedData;
    var i := Xchg(rm, reg);
    ContentFits(c, i, n);
    LoadFlagsStore(c, i, n, c.flags, GetReg(c.regs, reg, n), D);
    LoadPart(c, i, n, D);
    var c1 := ReadRm(c, rm, n).0;
    assert c1.(flags := c.flags) == c1;
  }

  lemma CmpxchgAttempt(c: Cpu, rm: Rm, reg: RegOp, n: Size, D: iset<nat>)
    requires Ready(c, Cmpxchg(rm, reg), n, D)
    ensures var i := Cmpxchg(rm, reg); Attempted(c, Exec(c, i, n), i, n, D)
  {
    hide LinearAddrs, ReadAt, Separate, Agrees, Linear, WriteRm, ReadRm, Modulus, AluW, AgreeBut, GetReg, PutReg,
      MappedData;
    var i := Cmpxchg(rm, reg);
    ContentFits(c, i, n);
    var acc, dest := GetReg(c.regs, ACC, n), ReadRm(c, rm, n).1;
    var f := AluW(c.flags, Cmp, acc, dest, n).0;
    AluKeeps(c.flags, Cmp, acc, dest, n);
    LoadFlagsStore(c, i, n, f, GetReg(c.regs, reg, n), D);
    LoadPart(c, i, n, D);
  }

  lemma XaddAttempt(c: Cpu, rm: Rm, reg: RegOp, n: Size, D: iset<nat>)
    requires Ready(c, Xadd(rm, reg), n, D)
    ensures var i := Xadd(rm, reg); Attempted(c, Exec(c, i, n), i, n, D)
  {
    hide LinearAddrs, ReadAt, Separate, Agrees, Linear, WriteRm, ReadRm, Modulus, AluW, AgreeBut, GetReg, PutReg,
      MappedData;
    var i := Xadd(rm, reg);
    ContentFits(c, i, n);
    var src, dest := GetReg(c.regs, reg, n), ReadRm(c, rm, n).1;
    var (f, sum) := AluW(c.flags, Add, dest, src, n);
    AluKeeps(c.flags, Add, dest, src, n);
    LoadFlagsStore(c, i, n, f, sum, D);
    LoadPart(c, i, n, D);
  }

  /** Every attempt is all or nothing: it realizes the instruction's meaning, or
      it faults with all sixteen registers and all data as they were. */
  lemma AllOrNothing(c: Cpu, i: Rmw, n: Size, D: iset<nat>)
    requires Ready(c, i, n, D)
    ensures Attempted(c, Exec(c, i, n), i, n, D)
  {
    hide Attempted, Exec;
    match i
    case AluReg(op, rm, reg, toRm) => AluRegAttempt(c, op, rm, reg, toRm, n, D);
    case AluImm(op, rm, imm) => AluImmAttempt(c, op, rm, imm, n, D);
    case Xchg(rm, reg) => XchgAttempt(c, rm, reg, n, D);
    case Cmpxchg(rm, reg) => CmpxchgAttempt(c, rm, reg, n, D);
    case Xadd(rm, reg) => XaddAttempt(c, rm, reg, n, D);
  }

  // ---- Fault, repair, restart ----

  /** A fault-repair-restart history: each start but the last faults, and the next
      is a repair of what it left. The handler dropped the fault; page tables, TLB,
      frames and memory may all be new -- an absent page has been filled, an operand
      copied on write lives elsewhere -- but the registers are as the fault left them. */
  ghost predicate History(starts: seq<Cpu>, i: Rmw, n: Size, D: iset<nat>) {
    && Restartable(i)
    && (forall k :: 0 <= k < |starts| ==> Ready(starts[k], i, n, D))
    && (forall k :: 0 <= k < |starts| - 1 ==>
          && starts[k].Valid() && Faulted(Exec(starts[k], i, n))
          && starts[k + 1] == Exec(starts[k], i, n).(mmu := starts[k + 1].mmu))
  }

  lemma FlagsKeptTransitive(i: Rmw, f: Eflags, g: Eflags, h: Eflags)
    requires FlagsKept(i, f, g) && FlagsKept(i, g, h)
    ensures FlagsKept(i, f, h)
  {
  }

  /** The meaning of an instruction does not depend on the flags a faulted
      attempt may have overwritten. */
  lemma EffectIgnoresOverwritten(c: Cpu, c': Cpu, i: Rmw, n: Size, v: u64)
    requires c.Valid() && c'.Valid() && Restartable(i) && c'.regs == c.regs && FlagsKept(i, c'.flags, c.flags)
    ensures Effect(c', i, n, v) == Effect(c, i, n, v)
  {
    hide Compute, PutReg, GetReg, Modulus, AgreeBut;
    var m := Modulus(n);
    match i
    case AluReg(op, _, reg, toRm) =>
      var g := GetReg(c.regs, reg, n);
      ComputeOverwrites(c'.flags, c.flags, op, (if toRm then v else g) % m, (if toRm then g else v) % m, n);
    case AluImm(op, _, imm) => ComputeOverwrites(c'.flags, c.flags, op, v % m, imm % m, n);
    case Xchg(_, _) =>
    case Cmpxchg(_, _) => ComputeOverwrites(c'.flags, c.flags, Cmp, GetReg(c.regs, ACC, n) % m, v % m, n);
    case Xadd(_, reg) => ComputeOverwrites(c'.flags, c.flags, Add, v % m, GetReg(c.regs, reg, n) % m, n);
  }

  /** Along a history the registers never change, and the flags only where the
      instruction will write them again. */
  lemma {:induction false} HistoryHolds(starts: seq<Cpu>, i: Rmw, n: Size, D: iset<nat>, k: nat)
    requires History(starts, i, n, D) && k < |starts|
    ensures starts[k] == starts[0].(mmu := starts[k].mmu, flags := starts[k].flags)
    ensures FlagsKept(i, starts[k].flags, starts[0].flags)
    decreases k
  {
    hide Ready, Exec, FlagsKept;
    if k == 0 {
      FlagsKeptReflexive(i, starts[0].flags);
    } else {
      HistoryHolds(starts, i, n, D, k - 1);
      var c := starts[k - 1];
      assert Ready(c, i, n, D) && Faulted(Exec(c, i, n)) && starts[k] == Exec(c, i, n).(mmu := starts[k].mmu);
      ReadyValid(c, i, n, D);
      AllOrNothing(c, i, n, D);
      FlagsKeptTransitive(i, starts[k].flags, c.flags, starts[0].flags);
    }
  }

  lemma FlagsKeptReflexive(i: Rmw, f: Eflags)
    ensures FlagsKept(i, f, f)
  {
  }

  /** Restart transparency. After any number of faults -- pages absent or not
      permitted, on the load or the store, on either page of a straddling operand --
      each repaired before the next attempt, the attempt that completes leaves the
      registers, flags and operand that the instruction means from the *first* start
      on the operand as the last repair left it: what a run that never faulted,
      started with that operand, would leave. */
  lemma RestartTransparent(starts: seq<Cpu>, i: Rmw, n: Size, D: iset<nat>)
    requires |starts| > 0 && History(starts, i, n, D) && !Faulted(Exec(starts[|starts| - 1], i, n))
    ensures var c, last := starts[0], starts[|starts| - 1];
            var e, c' := Effect(c, i, n, Content(last, i, n) % TWO64), Exec(last, i, n);
            && c' == c.(mmu := c'.mmu, flags := e.flags, regs := e.regs)
            && ReadAt(c'.mmu.mem, Home(last, i, n)) == e.value % Modulus(n)
            && SameInside(last.mmu.mem, c'.mmu.mem, iset a | a in D && a !in Home(last, i, n))
  {
    hide Ready, Exec, FlagsKept, LinearAddrs, ReadAt, Linear, Effect, Agrees, Separate;
    var c, last := starts[0], starts[|starts| - 1];
    assert Ready(c, i, n, D) && Ready(last, i, n, D);
    HistoryHolds(starts, i, n, D, |starts| - 1);
    AllOrNothing(last, i, n, D);
    ReadyValid(c, i, n, D);
    ReadyValid(last, i, n, D);
    EffectIgnoresOverwritten(c, last, i, n, Content(last, i, n) % TWO64);
  }

  // ---- Operands that stay at home ----

  /** Every repair leaves the bytes at `homes` as it found them. */
  ghost predicate HomeKept(starts: seq<Cpu>, i: Rmw, n: Size, D: iset<nat>, homes: seq<nat>)
    requires History(starts, i, n, D)
  {
    forall k, a :: 0 <= k < |starts| - 1 && a in homes ==>
      ReadU8(starts[k + 1].mmu.mem, a) == ReadU8(Exec(starts[k], i, n).mmu.mem, a)
  }

  lemma {:induction false} HomeHolds(starts: seq<Cpu>, i: Rmw, n: Size, D: iset<nat>, homes: seq<nat>, k: nat)
    requires History(starts, i, n, D) && k < |starts|
    requires HomeKept(starts, i, n, D, homes) && forall a :: a in homes ==> a in D
    ensures starts[k].Valid() && starts[0].Valid()
    ensures ReadAt(starts[k].mmu.mem, homes) == ReadAt(starts[0].mmu.mem, homes)
    decreases k
  {
    hide Ready, Exec, FlagsKept, ReadAt;
    assert Ready(starts[0], i, n, D) && Ready(starts[k], i, n, D);
    ReadyValid(starts[0], i, n, D);
    ReadyValid(starts[k], i, n, D);
    if k > 0 {
      HomeHolds(starts, i, n, D, homes, k - 1);
      var c, c' := starts[k - 1], Exec(starts[k - 1], i, n);
      assert Ready(c, i, n, D) && Faulted(c');
      ReadyValid(c, i, n, D);
      AllOrNothing(c, i, n, D);
      assert SameInside(c.mmu.mem, c'.mmu.mem, D);
      forall a | a in homes ensures ReadU8(starts[k].mmu.mem, a) == ReadU8(c.mmu.mem, a) {
        assert ReadU8(starts[k - 1 + 1].mmu.mem, a) == ReadU8(c'.mmu.mem, a);
      }
      SameBytesReadAt(c.mmu.mem, starts[k].mmu.mem, homes);
    }
  }

  /** The operand of an attempt that completes was mapped, so it is data. */
  lemma CompletedIsData(c: Cpu, i: Rmw, n: Size, D: iset<nat>)
    requires Ready(c, i, n, D) && !Faulted(Exec(c, i, n))
    ensures IsData(c.mmu, Linear(c, MemOf(i)), n, D)
  {
    hide Load, Separate, Reach, OperandReachable, LinearAddrs, Linear, MappedData, AluW, GetReg, PutReg, Store;
    var linear := Linear(c, MemOf(i));
    assert !Faulted(ReadRm(c, i.rm, n).0);
    LoadIsBytewise(c.mmu, linear, n);
    ReachOutcome(c.mmu, linear, n, false);
    AllMapped(c.mmu, linear, n, false, D);
  }

  /** When no repair writes the bytes the operand is finally mapped to -- a page may
      have been absent, but what it holds is what it held -- the history ends as the
      instruction executed once, at the first start, on the bytes there were then. */
  lemma RestartAtHome(starts: seq<Cpu>, i: Rmw, n: Size, D: iset<nat>)
    requires |starts| > 0 && History(starts, i, n, D) && !Faulted(Exec(starts[|starts| - 1], i, n))
    requires HomeKept(starts, i, n, D, Home(starts[|starts| - 1], i, n))
    ensures starts[0].Valid()
    ensures var c, last := starts[0], starts[|starts| - 1];
            var homes, c' := Home(last, i, n), Exec(last, i, n);
            var e := Effect(c, i, n, ReadAt(c.mmu.mem, homes) % TWO64);
            && c' == c.(mmu := c'.mmu, flags := e.flags, regs := e.regs)
            && ReadAt(c'.mmu.mem, homes) == e.value % Modulus(n)
  {
    hide Ready, Exec, FlagsKept, LinearAddrs, ReadAt, Linear, Effect, Agrees, Separate;
    var last := starts[|starts| - 1];
    assert Ready(last, i, n, D);
    ReadyValid(last, i, n, D);
    CompletedIsData(last, i, n, D);
    RestartTransparent(starts, i, n, D);
    HomeHolds(starts, i, n, D, Home(last, i, n), |starts| - 1);
  }

  lemma ReadyValid(c: Cpu, i: Rmw, n: Size, D: iset<nat>)
    requires Ready(c, i, n, D)
    ensures c.Valid() && c.mmu.Valid()
  {
  }
}
