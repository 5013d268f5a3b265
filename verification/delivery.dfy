/** Interrupt delivery and return, carried out on the processor object. */
module Delivery {
  import opened Words
  import opened Memory
  import opened Mmu
  import opened Alu
  import opened CpuCore
  import I = Interrupts
  import P = Processor

  // ---- Words on the stack ----

  method PushWords(cpu: Cpu, n: I.WordSize, words: seq<u64>)
    requires cpu.Valid()
    modifies cpu`pending, cpu`cr2, cpu.mem.data, cpu.tlb, cpu.regs
    ensures cpu.Valid() && cpu.Whole() == I.PushAll(old(cpu.Whole()), n, words)
  {
    hide I.PushW;
    assert words[0..] == words;
    for i := 0 to |words|
      invariant cpu.Valid() && I.PushAll(cpu.Whole(), n, words[i..]) == I.PushAll(old(cpu.Whole()), n, words)
    {
      assert words[i..][1..] == words[i + 1..];
      cpu.PushW(n, words[i]);
    }
  }

  method PopWords(cpu: Cpu, n: I.WordSize, k: nat) returns (words: seq<u64>)
    requires cpu.Valid()
    modifies cpu`pending, cpu`cr2, cpu.mem.data, cpu.tlb, cpu.regs
    ensures cpu.Valid() && (cpu.Whole(), words) == I.PopAll(old(cpu.Whole()), n, k)
  {
    hide I.PopW, I.PopAll;
    words := [];
    ghost var all := I.PopAll(cpu.Whole(), n, k);
    assert words + all.1 == all.1;
    for i := 0 to k
      invariant cpu.Valid() && |words| == i
      invariant var rest := I.PopAll(cpu.Whole(), n, k - i); all == (rest.0, words + rest.1)
    {
      PopNext(cpu.Whole(), n, k - i, words);
      var w := cpu.PopW(n);
      words := words + [w];
    }
    NoPops(cpu.Whole(), n);
    assert words + [] == words;
  }

  lemma PopNext(c: P.Cpu, n: I.WordSize, k: nat, words: seq<u64>)
    requires c.Valid() && k > 0
    ensures var (d, w) := I.PopW(c, n);
            var r, q := I.PopAll(c, n, k), I.PopAll(d, n, k - 1);
            r.0 == q.0 && words + r.1 == words + [w] + q.1
  {
    hide I.PopW;
    var (d, w) := I.PopW(c, n);
    assert words + ([w] + I.PopAll(d, n, k - 1).1) == words + [w] + I.PopAll(d, n, k - 1).1;
  }

  lemma NoPops(c: P.Cpu, n: I.WordSize)
    requires c.Valid()
    ensures I.PopAll(c, n, 0) == (c, [])
  {
  }

  /** The last thing a delivery or a return does. */
  method Resume(cpu: Cpu, f: Eflags, rip: u64)
    requires cpu.Valid()
    modifies cpu`flags, cpu`rip, cpu`ipValid
    ensures cpu.Valid()
    ensures var c := old(cpu.Whole()); cpu.Whole() == c.(flags := f, rip := rip, mmu := c.mmu.(ipValid := false))
  {
    hide Ram.Valid;
    cpu.flags, cpu.rip, cpu.ipValid := f, rip, false;
    assert cpu.Unit() == old(cpu.Unit()).(ipValid := false);
  }

  // ---- Delivery ----

  /** Land on the handler's stack, at its privilege: an IST entry unconditionally. */
  method LongEntry(cpu: Cpu, g: I.Gate)
    requires cpu.Valid()
    modifies cpu`es, cpu`cs, cpu`ss, cpu`ds, cpu`fs, cpu`gs, cpu`ipValid, cpu.desc, cpu.regs
    ensures cpu.Valid() && cpu.Whole() == I.LongEntry(old(cpu.Whole()), g)
  {
    hide I.LoadSeg, I.DescriptorFor, I.TssIst, I.TssRsp0, Ram.Valid;
    var switching := I.DescriptorFor(cpu.Whole(), g.selector).dpl < Cpl(cpu.pe, cpu.cs);
    if g.ist != 0 {
      var sp := I.TssIst(cpu.Whole(), g.ist);
      cpu.LoadSeg(P.Ss, 0);
      cpu.SetSp(sp);
    } else if switching {
      var sp := I.TssRsp0(cpu.Whole());
      cpu.LoadSeg(P.Ss, 0);
      cpu.SetSp(sp);
    }
    // The handler's privilege level before the frame: the pushes happen at the new CPL.
    cpu.LoadSeg(P.Cs, g.selector);
    cpu.SetSp(cpu.regs[I.SP] / 16 * 16);
  }

  /** The frame records the interrupted context, read before anything moves. */
  method LongInt(cpu: Cpu, vector: u8, err: Option<u32>)
    requires cpu.Valid()
    modifies cpu`pending, cpu`cr2, cpu`flags, cpu`rip, cpu.mem.data, cpu.tlb
    modifies cpu`es, cpu`cs, cpu`ss, cpu`ds, cpu`fs, cpu`gs, cpu`ipValid, cpu.desc, cpu.regs
    ensures cpu.Valid() && cpu.Whole() == I.LongInt(old(cpu.Whole()), vector, err)
  {
    hide I.LongEntry, I.LongGate, I.LongFrame, I.PushAll, I.EntryFlags, I.ErrorWord, Ram.Valid;
    var g := I.LongGate(cpu.Whole(), vector);
    var frame := I.LongFrame(cpu.Whole());
    LongEntry(cpu, g);
    PushWords(cpu, 8, frame + I.ErrorWord(err));
    Resume(cpu, I.EntryFlags(cpu.flags, g.kind == 0xE), g.target);
  }

  /** Entering through a 32-bit gate, on the TSS's stack when the privilege rises. */
  method ProtectedEntry(cpu: Cpu, g: I.Gate)
    requires cpu.Valid()
    modifies cpu`es, cpu`cs, cpu`ss, cpu`ds, cpu`fs, cpu`gs, cpu`ipValid, cpu.desc, cpu.regs
    ensures cpu.Valid() && cpu.Whole() == I.ProtectedEntry(old(cpu.Whole()), g)
  {
    hide I.LoadSeg, I.Switching, I.TssStack0, Ram.Valid;
    if I.Switching(cpu.Whole(), g) {
      var (ss0, esp0) := I.TssStack0(cpu.Whole());
      cpu.LoadSeg(P.Ss, ss0);
      cpu.SetSp(esp0);
    }
    cpu.LoadSeg(P.Cs, g.selector);
  }

  method ProtectedInt(cpu: Cpu, vector: u8, err: Option<u32>)
    requires cpu.Valid()
    modifies cpu`pending, cpu`cr2, cpu`flags, cpu`rip, cpu.mem.data, cpu.tlb
    modifies cpu`es, cpu`cs, cpu`ss, cpu`ds, cpu`fs, cpu`gs, cpu`ipValid, cpu.desc, cpu.regs
    ensures cpu.Valid() && cpu.Whole() == I.ProtectedInt(old(cpu.Whole()), vector, err)
  {
    hide I.LongInt, I.ProtectedEntry, I.ProtectedGate, I.ProtectedFrame, I.PushAll, I.EntryFlags, I.ErrorWord,
      I.Switching, Ram.Valid;
    if cpu.efer.lma {
      LongInt(cpu, vector, err);
      return;
    }
    var g := I.ProtectedGate(cpu.Whole(), vector);
    var frame := I.ProtectedFrame(cpu.Whole(), I.Switching(cpu.Whole(), g));
    ProtectedEntry(cpu, g);
    PushWords(cpu, 4, frame + I.ErrorWord(err));
    Resume(cpu, I.EntryFlags(cpu.flags, g.kind == 0x6 || g.kind == 0xE), g.target % TWO32);
  }

  // ---- Return ----

  /** In long mode a return always pops five words. */
  method Iretq(cpu: Cpu)
    requires cpu.Valid()
    modifies cpu`pending, cpu`cr2, cpu`flags, cpu`rip, cpu.mem.data, cpu.tlb
    modifies cpu`es, cpu`cs, cpu`ss, cpu`ds, cpu`fs, cpu`gs, cpu`ipValid, cpu.desc, cpu.regs
    ensures cpu.Valid() && cpu.Whole() == I.Iretq(old(cpu.Whole()))
  {
    hide I.LoadSeg, I.PopAll, I.WriteFlags, I.WordFlags, Ram.Valid;
    var w := PopWords(cpu, 8, 5);
    cpu.LoadSeg(P.Cs, w[1] % 0x1_0000);
    cpu.LoadSeg(P.Ss, w[4] % 0x1_0000);
    cpu.SetSp(w[3]);
    Resume(cpu, I.WriteFlags(cpu.flags, I.WordFlags(w[2] % TWO32)), w[0]);
  }

  /** SS:ESP is popped only on the way to a less privileged level, and before CS
      changes the level under the pops. */
  method Iret32(cpu: Cpu)
    requires cpu.Valid()
    modifies cpu`pending, cpu`cr2, cpu`flags, cpu`rip, cpu.mem.data, cpu.tlb
    modifies cpu`es, cpu`cs, cpu`ss, cpu`ds, cpu`fs, cpu`gs, cpu`ipValid, cpu.desc, cpu.regs
    ensures cpu.Valid() && cpu.Whole() == I.Iret32(old(cpu.Whole()))
  {
    hide I.LoadSeg, I.PopAll, I.WriteFlags, I.WordFlags, Ram.Valid;
    var w := PopWords(cpu, 4, 3);
    var cs := w[1] % 0x1_0000;
    if cs % 4 > Cpl(cpu.pe, cpu.cs) {
      var v := PopWords(cpu, 4, 2);
      cpu.LoadSeg(P.Ss, v[1] % 0x1_0000);
      cpu.SetSp(v[0] % TWO32);
    }
    Jump(cpu, w[0] % TWO32);
    cpu.LoadSeg(P.Cs, cs);
    Resume(cpu, I.WriteFlags(cpu.flags, I.WordFlags(w[2] % TWO32)), cpu.rip);
  }

  method Jump(cpu: Cpu, rip: u64)
    requires cpu.Valid()
    modifies cpu`rip
    ensures cpu.Valid() && cpu.Whole() == old(cpu.Whole()).(rip := rip)
  {
    hide Ram.Valid;
    cpu.rip := rip;
  }
}
