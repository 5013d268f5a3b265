/** The processor as an object: control registers, TLB and registers changed in
    place, proved against the functions the theorems are about. */
module CpuCore {
  import opened Words
  import opened Memory
  import opened Store
  import opened Paging
  import opened WalkStability
  import opened Mmu
  import opened TlbRefinement
  import opened Operands
  import opened Alu
  import F = Fetch
  import I = Interrupts
  import P = Processor

  class Cpu {
    const mem: PhysicalMemory
    const tlb: array<TlbEntry>
    const regs: array<u64>
    const desc: array<P.Descriptor>

    var cr0: Cr0
    var cr2: u64
    var cr3: u64
    var cr4: Cr4
    var efer: Efer
    var pe: bool
    var noTlb: bool
    var pending: Option<Fault>

    var rip: u64
    var ip: u16
    var wideRip: bool
    var ipValid: bool
    var ipCache: nat
    var ipLinear: u64
    var flags: Eflags

    var es: u16
    var cs: u16
    var ss: u16
    var ds: u16
    var fs: u16
    var gs: u16
    var fsBase: u64
    var gsBase: u64
    var gdtBase: u64
    var ldtBase: u64
    var idtBase: u64
    var trBase: u64

    ghost predicate Valid()
      reads this, mem, mem.data, tlb, regs, desc
    {
      && mem.Valid() && tlb.Length == TLB_SIZE && regs.Length == 16 && desc.Length == 6
      && regs != mem.data as object
    }

    /** The part translation works on. */
    function Unit(): State
      reads this, mem, mem.data, tlb
    {
      State(mem.State(), cr0, cr2, cr3, cr4, efer, pe, cs, tlb[..], noTlb, pending, ipValid)
    }

    function Whole(): P.Cpu
      requires regs.Length == 16
      reads this, mem, mem.data, tlb, regs, desc
    {
      P.Cpu(Unit(), regs[..], rip, ip, wideRip, ipCache, ipLinear, flags, ss, ds, es, fs, gs, desc[..],
            fsBase, gsBase, gdtBase, ldtBase, idtBase, trBase)
    }

    /** A machine with `ram` bytes of RAM, in real mode, paging off and the TLB empty. */
    constructor WithRam(ram: nat, withoutTlb: bool)
      ensures Valid() && fresh(mem) && fresh(mem.data) && fresh(tlb) && fresh(regs) && fresh(desc)
      ensures Inv(Unit()) && !pe && pending.None? && !ipValid && noTlb == withoutTlb
      ensures forall i: P.RegNo :: regs[i] == 0
      ensures cr0 == Cr0(false, false, false) && cr4 == Cr4(false) && efer == Efer(false, false, false)
      ensures forall i: FlagNo :: flags[i] <==> i == 1
    {
      mem := new PhysicalMemory.WithSize(ram);
      tlb := new TlbEntry[TLB_SIZE](_ => TlbEntry(false, 0, 0, false, false, false, false));
      regs := new u64[16](_ => 0);
      desc := new P.Descriptor[6](_ => P.Descriptor(0, 0, false));
      cr0, cr2, cr3, cr4, efer := Cr0(false, false, false), 0, 0, Cr4(false), Efer(false, false, false);
      pe, noTlb, pending := false, withoutTlb, None;
      rip, ip, wideRip, ipValid, ipCache, ipLinear := 0, 0, false, false, 0, 0;
      flags := seq(32, i => i == 1);
      es, cs, ss, ds, fs, gs := 0, 0, 0, 0, 0, 0;
      fsBase, gsBase, gdtBase, ldtBase, idtBase, trBase := 0, 0, 0, 0, 0, 0;
    }

    // ---- Faults ----

    method RaiseGp(code: u32)
      requires Valid()
      modifies this`pending
      ensures Valid() && Unit() == Mmu.RaiseGp(old(Unit()), code)
    {
      if pending.None? { pending := Some(Fault(0x0D, Some(code))); }
    }

    /** Keep the first fault of an instruction: CR2 and the code describe it. */
    method RaisePageFault(linear: u64, present: bool, write: bool, fetch: bool)
      requires Valid()
      modifies this`pending, this`cr2
      ensures Valid() && Unit() == Mmu.RaisePageFault(old(Unit()), linear, present, write, fetch)
    {
      hide Ram.Valid;
      if pending.Some? { return; }
      cr2 := linear;
      var code: int := (if present then 1 else 0) + (if write then 2 else 0) + (if Cpl(pe, cs) == 3 then 4 else 0);
      if fetch && efer.nxe { code := code + 16; }
      pending := Some(Fault(0x0E, Some(code)));
    }

    // ---- Invalidation and control registers ----

    method FlushTlb()
      requires Valid()
      modifies tlb, this`ipValid
      ensures Valid() && Unit() == Mmu.FlushTlb(old(Unit()))
    {
      for i := 0 to TLB_SIZE
        invariant forall k :: 0 <= k < TLB_SIZE ==>
                    tlb[k] == if k < i then old(tlb[k]).(valid := false) else old(tlb[k])
      {
        tlb[i] := tlb[i].(valid := false);
      }
      ipValid := false;
      assert tlb[..] == Mmu.FlushTlb(old(Unit())).tlb;
    }

    method Invlpg(linear: u64)
      requires Valid()
      modifies tlb
      ensures Valid() && Unit() == Mmu.Invlpg(old(Unit()), linear)
    {
      var i := TlbIndex(linear);
      var e := tlb[i];
      if e.valid && e.vpage == linear / 0x1000 { tlb[i] := e.(valid := false); }
    }

    /** Enter or leave long mode as CR0.PG and EFER.LME have it. */
    method UpdateLongMode()
      requires Valid()
      modifies tlb, this`ipValid, this`efer
      ensures Valid() && Unit() == Mmu.UpdateLongMode(old(Unit()))
    {
      hide Mmu.FlushTlb, Ram.Valid;
      var want := cr0.pg && efer.lme;
      if want == efer.lma { return; }
      efer := efer.(lma := want);
      FlushTlb();
    }

    method WriteCr0(v: Cr0)
      requires Valid()
      modifies this`cr0, this`pe, tlb, this`ipValid, this`efer
      ensures Valid() && Unit() == Mmu.WriteCr0(old(Unit()), v)
    {
      hide Mmu.FlushTlb, Mmu.UpdateLongMode, Ram.Valid;
      var oldPg := cr0.pg;
      cr0 := v;
      pe := v.pe;
      if oldPg != v.pg { FlushTlb(); }
      UpdateLongMode();
    }

    method WriteCr3(v: u64)
      requires Valid()
      modifies this`cr3, tlb, this`ipValid
      ensures Valid() && Unit() == Mmu.WriteCr3(old(Unit()), v)
    {
      hide Mmu.FlushTlb, Ram.Valid;
      cr3 := v;
      FlushTlb();
    }

    method WriteCr4(v: Cr4)
      requires Valid()
      modifies this`cr4, tlb, this`ipValid
      ensures Valid() && Unit() == Mmu.WriteCr4(old(Unit()), v)
    {
      hide Mmu.FlushTlb, Ram.Valid;
      cr4 := v;
      FlushTlb();
    }

    /** WRMSR of EFER: software does not set LMA. */
    method WriteEfer(v: Efer)
      requires Valid()
      modifies tlb, this`ipValid, this`efer
      ensures Valid() && Unit() == Mmu.WriteEfer(old(Unit()), v)
    {
      hide Mmu.UpdateLongMode, Ram.Valid;
      efer := v.(lma := efer.lma);
      UpdateLongMode();
    }

    // ---- Translation ----

    function CurrentMode(): PagingMode
      reads this
    {
      if !cr0.pg then Off else if efer.lma then Long else if cr4.pae then Pae else Legacy
    }

    /** Set the accessed bit of every entry walked, and the leaf's dirty bit for a
        store: read, mark, write back, entry by entry. */
    method SetAccessedBits(mp: Mapping, write: bool)
      requires Valid() && WellFormed(mp)
      modifies mem.data
      ensures Valid()
      ensures Unit() == old(Unit()).(mem := Paging.SetAccessedBits(old(mem.State()), mp, write))
    {
      hide MarkEntry, Mark, ReadU32, ReadU64, WriteWide, EntryStart;
      var n := |mp.walk|;
      for i := 0 to n
        invariant mem.Valid()
        invariant MarkWalk(mem.State(), mp.walk, mp.entryBytes, write, i)
                  == Paging.SetAccessedBits(old(mem.State()), mp, write)
      {
        MarkOne(mp.walk[i], mp.entryBytes, write && i + 1 == n);
      }
    }

    method MarkOne(addr: u64, entryBytes: nat, dirty: bool)
      requires Valid() && (entryBytes == 4 || entryBytes == 8)
      modifies mem.data
      ensures Valid() && mem.State() == MarkEntry(old(mem.State()), addr, entryBytes, dirty)
    {
      hide Mark, ReadU32, ReadU64, WriteWide;
      if entryBytes == 4 {
        var e := mem.LoadU32(addr);
        MarkFits(e, dirty);
        mem.StoreU32(addr, Mark(e, dirty));
      } else {
        var e := mem.LoadU64(addr);
        mem.StoreU64(addr, Mark(e, dirty));
      }
    }

    method MarkAccessed(linear: u64, write: bool)
      requires Valid()
      modifies mem.data
      ensures Valid() && Unit() == Mmu.MarkAccessed(old(Unit()), linear, write)
    {
      hide TranslateMode, Paging.SetAccessedBits;
      WalkAligned(mem.State(), cr3, linear, CurrentMode(), efer.nxe);
      var t := TranslateMode(mem.State(), cr3, linear, CurrentMode(), efer.nxe);
      if t.Some? { SetAccessedBits(t.value, write); }
    }

    /** Translate a linear address for a load, a store or a fetch. */
    method ApplyPaging(linear: u64, write: bool, fetch: bool) returns (phys: u64)
      requires Valid()
      modifies this`pending, this`cr2, mem.data, tlb
      ensures Valid()
      ensures phys == Access(old(Unit()), linear, write, fetch).1
      ensures Unit() == Access(old(Unit()), linear, write, fetch).0
    {
      hide Hit, Miss, Mmu.RaiseGp, Canonical, TlbIndex, Ram.Valid;
      if efer.lma && !Canonical(linear) {
        RaiseGp(0);
        return UNBACKED;
      }
      if !cr0.pg { return linear; }
      var e := tlb[TlbIndex(linear)];
      if e.valid && e.vpage == linear / 0x1000 && !noTlb {
        phys := Cached(linear, write, fetch);
      } else {
        phys := Walked(linear, write, fetch);
      }
    }

    /** The TLB hit: check the permissions it caches, and note the first store. */
    method Cached(linear: u64, write: bool, fetch: bool) returns (phys: u64)
      requires Valid()
      modifies this`pending, this`cr2, mem.data, tlb
      ensures Valid()
      ensures phys == Hit(old(Unit()), linear, write, fetch).1
      ensures Unit() == Hit(old(Unit()), linear, write, fetch).0
    {
      hide Mmu.MarkAccessed, Mmu.RaisePageFault, Permits, Ram.Valid;
      var i := TlbIndex(linear);
      var e := tlb[i];
      if !Permits(Cpl(pe, cs) == 3, cr0.wp, e.writable, e.user, e.exec, write, fetch) {
        RaisePageFault(linear, true, write, fetch);
        return UNBACKED;
      }
      if write && !e.dirtied {
        MarkAccessed(linear, true);
        tlb[i] := e.(dirtied := true);
      }
      return e.ppage * 0x1000 + linear % 0x1000;
    }

    /** The TLB missed: walk the tables, and fill the entry. */
    method Walked(linear: u64, write: bool, fetch: bool) returns (phys: u64)
      requires Valid()
      modifies this`pending, this`cr2, mem.data, tlb
      ensures Valid()
      ensures phys == Miss(old(Unit()), linear, write, fetch).1
      ensures Unit() == Miss(old(Unit()), linear, write, fetch).0
    {
      hide TranslateMode, Paging.SetAccessedBits, Mmu.RaisePageFault, Permits, TlbIndex, WellFormed, Ram.Valid;
      WalkAligned(mem.State(), cr3, linear, CurrentMode(), efer.nxe);
      ghost var s := Unit();
      var t := TranslateMode(mem.State(), cr3, linear, CurrentMode(), efer.nxe);
      assert Walk(s, linear) == t;
      if t.None? {
        RaisePageFault(linear, false, write, fetch);
        assert Miss(s, linear, write, fetch) == (Mmu.RaisePageFault(s, linear, false, write, fetch), UNBACKED);
        return UNBACKED;
      }
      var mp := t.value;
      if !Permits(Cpl(pe, cs) == 3, cr0.wp, mp.writable, mp.user, mp.exec, write, fetch) {
        RaisePageFault(linear, true, write, fetch);
        assert Miss(s, linear, write, fetch) == (Mmu.RaisePageFault(s, linear, true, write, fetch), UNBACKED);
        return UNBACKED;
      }
      tlb[TlbIndex(linear)] :=
        TlbEntry(true, linear / 0x1000, mp.phys / 0x1000, mp.writable, mp.user, mp.exec, write);
      SetAccessedBits(mp, write);
      return mp.phys;
    }

    // ---- Operands that may straddle two pages ----

    /** The bytes of a split operand, least significant first. */
    method ReadBytes(phys: nat, phys2: nat, n: Size) returns (v: u64)
      requires mem.Valid()
      ensures v == ReadAt(mem.State(), SplitAddrs(phys, phys2, n))
    {
      hide ReadAt, SplitAddrs, Ram.Valid, ReadU8, ByteRange;
      var first := 0x1000 - phys % 0x1000;
      ghost var addrs := SplitAddrs(phys, phys2, n);
      SplitAt(phys, phys2, n);
      var sum, i := 0, 0;
      assert addrs[0..] == addrs;
      ByteRangeStart();
      while i < n
        invariant mem.Valid() && i <= n && sum >= 0
        invariant ReadAt(mem.State(), addrs) == sum + ByteRange(i) * ReadAt(mem.State(), addrs[i..])
      {
        var b := mem.LoadU8(if i < first then phys + i else phys2 + i - first);
        ReadNext(mem.State(), addrs, i, sum);
        sum := sum + b as int * ByteRange(i);
        i := i + 1;
      }
      Finished(mem.State(), addrs, n);
      v := sum;
    }

    method WriteBytes(phys: nat, phys2: nat, n: Size, v: u64)
      requires mem.Valid()
      modifies mem.data
      ensures mem.Valid() && mem.State() == WriteAt(old(mem.State()), SplitAddrs(phys, phys2, n), v)
    {
      hide WriteAt, SplitAddrs, Ram.Valid, WriteU8;
      var first := 0x1000 - phys % 0x1000;
      ghost var addrs := SplitAddrs(phys, phys2, n);
      SplitAt(phys, phys2, n);
      var rest, i := v as int, 0;
      assert addrs[0..] == addrs;
      while i < n
        invariant mem.Valid() && i <= n && rest >= 0
        invariant WriteAt(mem.State(), addrs[i..], rest) == WriteAt(old(mem.State()), addrs, v)
      {
        WriteNext(mem.State(), addrs, i, rest);
        mem.StoreU8(if i < first then phys + i else phys2 + i - first, rest % 256);
        rest, i := rest / 256, i + 1;
      }
      Finished(mem.State(), addrs, n);
    }

    method ReadSplit(phys: u64, linear: u64, n: Size) returns (v: u64)
      requires Valid()
      modifies this`pending, this`cr2, mem.data, tlb
      ensures Valid()
      ensures v == Operands.ReadSplit(old(Unit()), phys, linear, n).1
      ensures Unit() == Operands.ReadSplit(old(Unit()), phys, linear, n).0
    {
      hide Access, ReadAt, SplitAddrs, Ram.Valid;
      var phys2 := ApplyPaging(NextPage(linear), false, false);
      if pending.Some? { return 0; }
      v := ReadBytes(phys, phys2, n);
    }

    /** Both pages are translated, and checked for writing, before a byte is written. */
    method WriteSplit(phys: u64, linear: u64, n: Size, v: u64)
      requires Valid()
      modifies this`pending, this`cr2, mem.data, tlb
      ensures Valid()
      ensures Unit() == Operands.WriteSplit(old(Unit()), phys, linear, n, v)
    {
      hide Access, WriteAt, SplitAddrs, Ram.Valid;
      var phys2 := ApplyPaging(NextPage(linear), true, false);
      if pending.Some? { return; }
      WriteBytes(phys, phys2, n, v);
    }

    method LoadSize(addr: nat, n: Size) returns (v: u64)
      requires Valid()
      ensures v == ReadSize(mem.State(), addr, n)
    {
      if n == 8 {
        v := mem.LoadU64(addr);
      } else if n == 4 {
        v := mem.LoadU32(addr);
      } else if n == 2 {
        v := mem.LoadU16(addr);
      } else {
        v := mem.LoadU8(addr);
      }
    }

    method StoreSize(addr: nat, n: Size, v: u64)
      requires Valid()
      modifies mem.data
      ensures Valid() && mem.State() == WriteSize(old(mem.State()), addr, n, v)
    {
      if n == 8 {
        mem.StoreU64(addr, v);
      } else if n == 1 {
        mem.StoreU8(addr, v % 0x100);
      } else {
        mem.StoreBytes(addr, n, v);
      }
    }

    /** A load of an operand in memory. */
    method Load(linear: u64, n: Size) returns (v: u64)
      requires Valid()
      modifies this`pending, this`cr2, mem.data, tlb
      ensures Valid()
      ensures v == Operands.Load(old(Unit()), linear, n).1
      ensures Unit() == Operands.Load(old(Unit()), linear, n).0
    {
      hide Access, Operands.ReadSplit, ReadSize;
      var addr := ApplyPaging(linear, false, false);
      if n > 1 && Straddles(addr, n) {
        if pending.Some? { return 0; }
        v := ReadSplit(addr, linear, n);
      } else {
        v := LoadSize(addr, n);
      }
    }

    /** A store, unless the instruction has faulted. */
    method StoreTo(linear: u64, n: Size, v: u64)
      requires Valid()
      modifies this`pending, this`cr2, mem.data, tlb
      ensures Valid()
      ensures Unit() == Operands.Store(old(Unit()), linear, n, v)
    {
      hide Access, Operands.WriteSplit, WriteSize;
      if pending.Some? { return; }
      var addr := ApplyPaging(linear, true, false);
      if pending.Some? { return; }
      if n > 1 && Straddles(addr, n) {
        WriteSplit(addr, linear, n, v);
      } else {
        StoreSize(addr, n, v);
      }
    }

    // ---- The fetch cursor ----

    method EnsurePhysIp()
      requires Valid()
      modifies this`pending, this`cr2, this`ipValid, this`ipLinear, this`ipCache, mem.data, tlb
      ensures Valid() && Whole() == F.EnsurePhysIp(old(Whole()))
    {
      hide Access, F.IpLinear;
      if !ipValid {
        var linear := F.IpLinear(Whole());
        ipLinear := linear;
        ipCache := ApplyPaging(linear, false, true);
        ipValid := true;
        ghost var m := Access(old(Unit()), linear, false, true).0.(ipValid := true);
        assert Unit() == m;
        assert Whole() == old(Whole()).(mmu := m, ipLinear := linear, ipCache := ipCache);
        assert F.EnsurePhysIp(old(Whole())) == old(Whole()).(mmu := m, ipLinear := linear, ipCache := ipCache);
      }
    }

    method AdvanceIp(n: nat)
      requires Valid()
      modifies this`rip, this`ip
      ensures Valid() && Whole() == F.AdvanceIp(old(Whole()), n)
    {
      hide Ram.Valid;
      if pe { rip := if wideRip then Wrap64(rip + n) else Wrap32(rip + n); } else { ip := (ip + n) % 0x1_0000; }
    }

    /** Past the end of a page the next byte is on another one, whose physical
        address is unrelated. */
    method MoveCursor(n: nat, crossed: bool)
      requires Valid()
      modifies this`ipValid, this`ipLinear, this`ipCache
      ensures Valid() && Unit() == old(Unit()).(ipValid := old(ipValid) && !crossed)
      ensures ipCache == old(ipCache) + n && ipLinear == Wrap64(old(ipLinear) + n)
    {
      hide Ram.Valid;
      ipCache, ipLinear, ipValid := ipCache + n, Wrap64(ipLinear + n), ipValid && !crossed;
    }

    method FetchU8() returns (b: u8)
      requires Valid()
      modifies this`pending, this`cr2, this`ipValid, this`ipLinear, this`ipCache, this`rip, this`ip, mem.data, tlb
      ensures Valid() && (Whole(), b) == F.FetchU8(old(Whole()))
    {
      hide F.EnsurePhysIp, F.AdvanceIp, ReadU8, Ram.Valid;
      EnsurePhysIp();
      b := mem.LoadU8(ipCache);
      AdvanceIp(1);
      MoveCursor(1, ipLinear % 0x1000 == 0xFFF);
    }

    /** Both bytes are on the page the cursor is on. */
    method FetchPair() returns (v: u16)
      requires Valid() && ipValid && ipLinear % 0x1000 <= 0xFFE
      modifies this`ipValid, this`ipLinear, this`ipCache, this`rip, this`ip
      ensures Valid() && (Whole(), v) == F.FetchU16(old(Whole()))
    {
      hide F.AdvanceIp, F.FetchU8, ReadU8, Ram.Valid;
      var lo: int := mem.LoadU8(ipCache);
      var hi: int := mem.LoadU8(ipCache + 1);
      AdvanceIp(2);
      MoveCursor(2, ipLinear % 0x1000 == 0xFFE);
      return lo + 0x100 * hi;
    }

    method FetchU16() returns (v: u16)
      requires Valid()
      modifies this`pending, this`cr2, this`ipValid, this`ipLinear, this`ipCache, this`rip, this`ip, mem.data, tlb
      ensures Valid() && (Whole(), v) == F.FetchU16(old(Whole()))
    {
      hide F.EnsurePhysIp, F.AdvanceIp, F.MoveCursor, F.FetchU8, ReadU8, Ram.Valid;
      EnsurePhysIp();
      F.EnsureOnce(old(Whole()));
      if ipLinear % 0x1000 <= 0xFFE {
        v := FetchPair();
      } else {
        var lo: int := FetchU8();
        var hi: int := FetchU8();
        v := lo + 0x100 * hi;
      }
    }

    method FetchU32() returns (v: u32)
      requires Valid()
      modifies this`pending, this`cr2, this`ipValid, this`ipLinear, this`ipCache, this`rip, this`ip, mem.data, tlb
      ensures Valid() && (Whole(), v) == F.FetchU32(old(Whole()))
    {
      hide F.FetchU16;
      var lo: int := FetchU16();
      var hi: int := FetchU16();
      return lo + 0x1_0000 * hi;
    }

    method FetchU64() returns (v: u64)
      requires Valid()
      modifies this`pending, this`cr2, this`ipValid, this`ipLinear, this`ipCache, this`rip, this`ip, mem.data, tlb
      ensures Valid() && (Whole(), v) == F.FetchU64(old(Whole()))
    {
      hide F.FetchU32;
      var lo: int := FetchU32();
      var hi: int := FetchU32();
      return lo + TWO32 * hi;
    }

    // ---- The stack ----

    method SetSp(sp: u64)
      requires Valid()
      modifies regs
      ensures Valid() && Whole() == old(Whole()).(regs := old(regs[..])[I.SP := sp])
    {
      hide Ram.Valid;
      regs[I.SP] := sp;
    }

    /** A push that faults must leave RSP alone, so RSP is written after the translation. */
    method PushW(n: I.WordSize, v: u64)
      requires Valid()
      modifies this`pending, this`cr2, mem.data, tlb, regs
      ensures Valid() && Whole() == I.PushW(old(Whole()), n, v)
    {
      hide Access, P.LinearAddr, WriteSize, Ram.Valid, Wrap64, Wrap32, P.SetRegW;
      if pe {
        var sp := I.StackAt(Whole(), 0 - n as int);
        var addr := ApplyPaging(P.LinearAddr(Whole(), P.Ss, sp), true, false);
        if pending.Some? { return; }
        SetSp(sp);
        StoreSize(addr, n, v);
      } else {
        var sp := (regs[I.SP] - n) % 0x1_0000;
        SetReg(I.SP, 2, sp);
        StoreSize(I.RealStack(Whole(), sp), n, v);
      }
    }

    method PopW(n: I.WordSize) returns (v: u64)
      requires Valid()
      modifies this`pending, this`cr2, mem.data, tlb, regs
      ensures Valid() && (Whole(), v) == I.PopW(old(Whole()), n)
    {
      hide Access, P.LinearAddr, ReadSize, Ram.Valid, Wrap64, Wrap32, P.SetRegW;
      if pe {
        var sp := I.StackAt(Whole(), n);
        var addr := ApplyPaging(P.LinearAddr(Whole(), P.Ss, I.StackPtr(Whole())), false, false);
        if pending.Some? { return 0; }
        v := LoadSize(addr, n);
        SetSp(sp);
      } else {
        v := LoadSize(I.RealStack(Whole(), regs[I.SP] % 0x1_0000), n);
        SetReg(I.SP, 2, (regs[I.SP] + n) % 0x1_0000);
      }
    }

    method SetReg(i: P.RegNo, n: nat, v: u64)
      requires Valid()
      modifies regs
      ensures Valid() && regs[..] == P.SetRegW(old(regs[..]), i, n, v)
    {
      regs[i] := P.SetRegW(regs[..], i, n, v)[i];
    }

    method SetSelector(s: P.SegReg, selector: u16)
      requires Valid()
      modifies this`es, this`cs, this`ss, this`ds, this`fs, this`gs
      ensures Valid() && Unit() == old(Unit()).(cs := if s == P.Cs then selector else old(cs))
      ensures es == (if s == P.Es then selector else old(es)) && ss == (if s == P.Ss then selector else old(ss))
      ensures ds == (if s == P.Ds then selector else old(ds)) && fs == (if s == P.Fs then selector else old(fs))
      ensures gs == (if s == P.Gs then selector else old(gs))
    {
      match s
      case Es => es := selector;
      case Cs => cs := selector;
      case Ss => ss := selector;
      case Ds => ds := selector;
      case Fs => fs := selector;
      case Gs => gs := selector;
    }

    method Resolve(s: P.SegReg, selector: u16)
      requires Valid()
      modifies desc
      ensures Valid() && Unit() == old(Unit())
      ensures desc[..] == if pe then old(desc[..])[P.SegIndex(s) := I.DescriptorFor(old(Whole()), selector)]
                          else old(desc[..])
    {
      hide I.DescriptorFor, Ram.Valid;
      if pe { desc[P.SegIndex(s)] := I.DescriptorFor(Whole(), selector); }
    }

    /** Load a segment register; in protected mode resolve its descriptor too. */
    method LoadSeg(s: P.SegReg, selector: u16)
      requires Valid()
      modifies this`es, this`cs, this`ss, this`ds, this`fs, this`gs, this`ipValid, desc
      ensures Valid() && Whole() == I.LoadSeg(old(Whole()), s, selector)
    {
      hide I.DescriptorFor, I.LoadSeg, Ram.Valid;
      LoadSegParts(Whole(), s, selector);
      Resolve(s, selector);
      SetSelector(s, selector);
      if s == P.Cs { ipValid := false; }
    }
  }

  /** What loading a segment register does to each part of the processor. */
  lemma LoadSegParts(c: P.Cpu, s: P.SegReg, v: u16)
    requires c.Valid()
    ensures var c' := I.LoadSeg(c, s, v);
            && c' == c.(mmu := c'.mmu, desc := c'.desc, es := c'.es, ss := c'.ss, ds := c'.ds, fs := c'.fs, gs := c'.gs)
            && c'.mmu == (if s == P.Cs then c.mmu.(cs := v, ipValid := false) else c.mmu)
            && c'.desc == (if c.mmu.pe then c.desc[P.SegIndex(s) := I.DescriptorFor(c, v)] else c.desc)
            && c'.es == (if s == P.Es then v else c.es) && c'.ss == (if s == P.Ss then v else c.ss)
            && c'.ds == (if s == P.Ds then v else c.ds) && c'.fs == (if s == P.Fs then v else c.fs)
            && c'.gs == (if s == P.Gs then v else c.gs)
  {
    hide I.DescriptorFor, State.Valid;
  }

  lemma MarkFits(e: u32, dirty: bool)
    ensures Mark(e, dirty) < TWO32
  {
    EntryParts(Mark(e, dirty));
  }

  // ---- The loops over the bytes of a split operand ----

  lemma SplitAt(phys: nat, phys2: nat, n: nat)
    ensures var first := 0x1000 - phys % 0x1000;
            |SplitAddrs(phys, phys2, n)| == n &&
            forall i :: 0 <= i < n ==>
              SplitAddrs(phys, phys2, n)[i] == if i < first then phys + i else phys2 + i - first
  {
  }

  lemma ByteRangeStart()
    ensures ByteRange(0) == 1
  {
  }

  lemma Finished(mem: Ram, addrs: seq<nat>, n: Size)
    requires mem.Valid() && |addrs| == n
    ensures ReadAt(mem, addrs[n..]) == 0 && ReadAt(mem, addrs) < TWO64
    ensures forall v: nat :: WriteAt(mem, addrs[n..], v) == mem
  {
    assert addrs[n..] == [];
    ByteRanges();
  }

  lemma ReadNext(mem: Ram, addrs: seq<nat>, i: nat, sum: nat)
    requires mem.Valid() && i < |addrs|
    ensures sum + ByteRange(i) * ReadAt(mem, addrs[i..])
         == sum + ReadU8(mem, addrs[i]) as int * ByteRange(i) + ByteRange(i + 1) * ReadAt(mem, addrs[i + 1..])
  {
    var rest := ReadAt(mem, addrs[i + 1..]);
    assert addrs[i..][1..] == addrs[i + 1..];
    ScaleUp(ByteRange(i), ReadU8(mem, addrs[i]), rest);
  }

  lemma ScaleUp(p: int, b: int, rest: int)
    ensures p * (b + 256 * rest) == b * p + 256 * p * rest
  {
  }

  lemma WriteNext(mem: Ram, addrs: seq<nat>, i: nat, rest: nat)
    requires mem.Valid() && i < |addrs|
    ensures WriteAt(WriteU8(mem, addrs[i], rest % 256), addrs[i + 1..], rest / 256) == WriteAt(mem, addrs[i..], rest)
  {
    assert addrs[i..][1..] == addrs[i + 1..];
  }
}
