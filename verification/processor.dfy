/** The processor state around the translation unit, and its register file. */
module Processor {
  import opened Words
  import opened Mmu
  import opened Alu

  datatype SegReg = Es | Cs | Ss | Ds | Fs | Gs

  /** The fields of a segment descriptor that the processor goes on to use. */
  datatype Descriptor = Descriptor(base: u32, dpl: nat, l: bool)

  /** The sixteen general registers: one store, read and written at many widths. */
  type Regs = r: seq<u64> | |r| == 16 witness seq(16, _ => 0)
  type RegNo = i: nat | i < 16

  /** CS lives in `mmu`, which needs it for the privilege level. `wideRip` says
      that RIP wraps at 64 bits rather than 32: it is fixed per instruction. */
  datatype Cpu = Cpu(mmu: State, regs: Regs, rip: u64, ip: u16, wideRip: bool,
                     ipCache: nat, ipLinear: u64, flags: Eflags,
                     ss: u16, ds: u16, es: u16, fs: u16, gs: u16, desc: seq<Descriptor>,
                     fsBase: u64, gsBase: u64, gdtBase: u64, ldtBase: u64, idtBase: u64, trBase: u64)
  {
    predicate Valid() { mmu.Valid() && |desc| == 6 }
  }

  function SegIndex(s: SegReg): (i: nat)
    ensures i < 6
  {
    match s
    case Es => 0
    case Cs => 1
    case Ss => 2
    case Ds => 3
    case Fs => 4
    case Gs => 5
  }

  function Selector(c: Cpu, s: SegReg): u16 {
    match s
    case Es => c.es
    case Cs => c.mmu.cs
    case Ss => c.ss
    case Ds => c.ds
    case Fs => c.fs
    case Gs => c.gs
  }

  /** 64-bit code: long mode active and the code segment's L bit set. */
  predicate Long64(c: Cpu)
    requires c.Valid()
  {
    c.mmu.efer.lma && c.desc[SegIndex(Cs)].l
  }

  predicate Faulted(c: Cpu) { c.mmu.pending.Some? }

  /** Adding the base: none in long mode but for the FS and GS MSRs, the cached
      descriptor's in protected mode, sixteen times the selector in real mode. */
  function LinearAddr(c: Cpu, s: SegReg, offset: u64): u64
    requires c.Valid()
  {
    if Long64(c) then
      if s == Fs then Wrap64(c.fsBase + offset)
      else if s == Gs then Wrap64(c.gsBase + offset)
      else offset
    else if c.mmu.pe then Wrap32(c.desc[SegIndex(s)].base + offset)
    else Wrap32(Selector(c, s) * 16 + offset)
  }

  // ---- The register file, at widths in bytes ----

  function RegW(r: Regs, i: RegNo, n: nat): u64 {
    if n == 8 then r[i] else if n == 4 then r[i] % TWO32 else if n == 2 then r[i] % 0x1_0000 else r[i] % 0x100
  }

  /** Narrow writes keep the upper bytes, except that a 32-bit one clears them. */
  function SetRegW(r: Regs, i: RegNo, n: nat, v: u64): Regs {
    r[i := if n == 8 then v
           else if n == 4 then v % TWO32
           else if n == 2 then r[i] / 0x1_0000 * 0x1_0000 + v % 0x1_0000
           else r[i] / 0x100 * 0x100 + v % 0x100]
  }
}
