/** The instruction-fetch cursor: a cached physical address that walks along
    with RIP, against translating every byte on its own. */
module Fetch {
  import opened Words
  import opened Memory
  import opened Mmu
  import opened Processor
  import Division

  /** Where the next instruction byte is, with the base of CS outside long mode. */
  function IpLinear(c: Cpu): u64
    requires c.Valid()
  {
    if Long64(c) then c.rip
    else if c.mmu.pe then Wrap32(c.desc[SegIndex(Cs)].base + c.rip % TWO32)
    else Wrap32(c.mmu.cs * 16 + c.ip)
  }

  function EnsurePhysIp(c: Cpu): (c': Cpu)
    requires c.Valid()
    ensures c'.Valid()
  {
    if c.mmu.ipValid then c
    else
      var linear := IpLinear(c);
      var (m, phys) := Access(c.mmu, linear, false, true);
      c.(mmu := m.(ipValid := true), ipLinear := linear, ipCache := phys)
  }

  function AdvanceIp(c: Cpu, n: nat): (c': Cpu)
    requires c.Valid()
    ensures c'.Valid() && c' == c.(rip := c'.rip, ip := c'.ip)
  {
    if c.mmu.pe then c.(rip := if c.wideRip then Wrap64(c.rip + n) else Wrap32(c.rip + n))
    else c.(ip := (c.ip + n) % 0x1_0000)
  }

  /** Move the cursor on by `n` bytes; it dies when `atEnd` says the page ends. */
  function MoveCursor(c: Cpu, n: nat, atEnd: bool): (c': Cpu)
    requires c.Valid()
    ensures c'.Valid()
  {
    c.(ipCache := c.ipCache + n, ipLinear := Wrap64(c.ipLinear + n),
       mmu := c.mmu.(ipValid := c.mmu.ipValid && !atEnd))
  }

  function FetchU8(c: Cpu): (r: (Cpu, u8))
    requires c.Valid()
    ensures r.0.Valid()
  {
    var c1 := EnsurePhysIp(c);
    (MoveCursor(AdvanceIp(c1, 1), 1, c1.ipLinear % 0x1000 == 0xFFF), ReadU8(c1.mmu.mem, c1.ipCache))
  }

  function FetchU16(c: Cpu): (r: (Cpu, u16))
    requires c.Valid()
    ensures r.0.Valid()
  {
    var c1 := EnsurePhysIp(c);
    var offset := c1.ipLinear % 0x1000;
    if offset <= 0xFFE then
      (MoveCursor(AdvanceIp(c1, 2), 2, offset == 0xFFE),
       ReadU8(c1.mmu.mem, c1.ipCache) + 0x100 * ReadU8(c1.mmu.mem, c1.ipCache + 1))
    else
      var (c2, lo) := FetchU8(c1);
      var (c3, hi) := FetchU8(c2);
      (c3, lo + 0x100 * hi)
  }

  function FetchU32(c: Cpu): (r: (Cpu, u32))
    requires c.Valid()
    ensures r.0.Valid()
  {
    var (c1, lo) := FetchU16(c);
    var (c2, hi) := FetchU16(c1);
    (c2, lo + 0x1_0000 * hi)
  }

  function FetchU64(c: Cpu): (r: (Cpu, u64))
    requires c.Valid()
    ensures r.0.Valid()
  {
    var (c1, lo) := FetchU32(c);
    var (c2, hi) := FetchU32(c1);
    (c2, lo + TWO32 * hi)
  }

  // ---- The cursor, byte by byte ----

  /** `n` single-byte fetches through the cursor, little-endian. */
  function FetchBytes(c: Cpu, n: nat): (r: (Cpu, nat))
    requires c.Valid()
    ensures r.0.Valid() && r.1 < ByteRange(n)
    decreases n
  {
    if n == 0 then (c, 0)
    else
      var (c1, b) := FetchU8(c);
      var (c2, rest) := FetchBytes(c1, n - 1);
      (c2, b + 256 * rest)
  }

  lemma AdvanceTwice(c: Cpu)
    requires c.Valid()
    ensures AdvanceIp(AdvanceIp(c, 1), 1) == AdvanceIp(c, 2)
  {
    Division.ModStep(c.rip, 1, 1, TWO64);
    Division.ModStep(c.rip, 1, 1, TWO32);
    Division.ModStep(c.ip, 1, 1, 0x1_0000);
    hide State.Valid;
  }

  /** The two-byte fast path is two one-byte fetches, cursor included. */
  lemma FetchU16IsBytes(c: Cpu)
    requires c.Valid()
    ensures FetchU16(c) == FetchBytes(c, 2)
  {
    hide EnsurePhysIp, FetchU8, FetchBytes, FetchU16;
    EnsureOnce(c);
    TwoBytes(c);
    var c1 := EnsurePhysIp(c);
    var (d1, lo) := FetchU8(c1);
    var (d2, hi) := FetchU8(d1);
    FetchU16Cases(c, d1, lo, d2, hi);
  }

  lemma FetchU16Cases(c: Cpu, d1: Cpu, lo: u8, d2: Cpu, hi: u8)
    requires c.Valid() && d1.Valid() && FetchU8(EnsurePhysIp(c)) == (d1, lo) && FetchU8(d1) == (d2, hi)
    ensures FetchU16(c) == (d2, lo + 0x100 * hi)
  {
    hide EnsurePhysIp, FetchU8, AdvanceIp, MoveCursor, ReadU8, Cpu.Valid;
    var c1 := EnsurePhysIp(c);
    assert c1.mmu.ipValid by { EnsureOnce(c); }
    if c1.ipLinear % 0x1000 <= 0xFFE {
      PageBytes(c1);
    }
  }

  lemma EnsureOnce(c: Cpu)
    requires c.Valid()
    ensures var c1 := EnsurePhysIp(c); c1.mmu.ipValid && EnsurePhysIp(c1) == c1 && FetchU8(c1) == FetchU8(c)
  {
    hide Access, IpLinear, MoveCursor, AdvanceIp, ReadU8;
  }

  /** Two fetches with a live cursor that has at least two bytes of page left. */
  lemma PageBytes(c: Cpu)
    requires c.Valid() && c.mmu.ipValid && c.ipLinear % 0x1000 <= 0xFFE
    ensures var (d1, lo) := FetchU8(c); var (d2, hi) := FetchU8(d1);
            && lo == ReadU8(c.mmu.mem, c.ipCache) && hi == ReadU8(c.mmu.mem, c.ipCache + 1)
            && d2 == MoveCursor(AdvanceIp(c, 2), 2, c.ipLinear % 0x1000 == 0xFFE)
  {
    hide Access, IpLinear, ReadU8, AdvanceIp, State.Valid, Wrap64;
    CursorTwice(c);
    var d1 := MoveCursor(AdvanceIp(c, 1), 1, false);
    assert d1.mmu.mem == c.mmu.mem;
  }

  lemma OneByte(c: Cpu)
    requires c.Valid()
    ensures FetchBytes(c, 1) == FetchU8(c)
  {
    hide FetchU8;
    var c1 := FetchU8(c).0;
    assert FetchBytes(c1, 0) == (c1, 0);
  }

  lemma TwoBytes(c: Cpu)
    requires c.Valid()
    ensures var (d1, lo) := FetchU8(c); var (d2, hi) := FetchU8(d1); FetchBytes(c, 2) == (d2, lo + 256 * hi)
  {
    hide FetchU8, FetchBytes, ByteRange;
    ByteRanges();
    OneByte(c);
    OneByte(FetchU8(c).0);
    FetchBytesSplit(c, 1, 1);
  }

  /** Inside a page the cursor moves two bytes as it moves one, twice. */
  lemma CursorTwice(c: Cpu)
    requires c.Valid() && c.mmu.ipValid && c.ipLinear % 0x1000 <= 0xFFE
    ensures var c1 := MoveCursor(AdvanceIp(c, 1), 1, false);
            && c1.mmu.ipValid && c1.ipCache == c.ipCache + 1
            && c1.ipLinear % 0x1000 == c.ipLinear % 0x1000 + 1
            && MoveCursor(AdvanceIp(c1, 1), 1, c1.ipLinear % 0x1000 == 0xFFF)
               == MoveCursor(AdvanceIp(c, 2), 2, c.ipLinear % 0x1000 == 0xFFE)
  {
    AdvanceTwice(c);
    var l, offset := c.ipLinear, c.ipLinear % 0x1000;
    assert (TWO64 - 1) % 0x1000 == 0xFFF;
    Division.DivUnique(l + 1, 0x1000, l / 0x1000, offset + 1);
    Division.ModStep(l, 1, 1, TWO64);
    hide State.Valid;
  }

  lemma {:induction false} FetchBytesSplit(c: Cpu, m: nat, n: nat)
    requires c.Valid()
    ensures var (c1, lo) := FetchBytes(c, m); var (c2, hi) := FetchBytes(c1, n);
            FetchBytes(c, m + n) == (c2, lo + ByteRange(m) * hi)
    decreases m
  {
    hide FetchU8;
    if m > 0 {
      var (d, b) := FetchU8(c);
      FetchBytesSplit(d, m - 1, n);
      var (c1, lo) := FetchBytes(d, m - 1);
      var hi := FetchBytes(c1, n).1;
      assert m - 1 + n == m + n - 1;
      ScaleBytes(b, lo, ByteRange(m - 1), hi);
    }
  }

  lemma WideFetches(c: Cpu)
    requires c.Valid()
    ensures FetchU32(c) == FetchBytes(c, 4)
    ensures FetchU64(c) == FetchBytes(c, 8)
  {
    hide FetchU32, FetchBytes, ByteRange;
    ByteRanges();
    FetchU32IsBytes(c);
    FetchU32IsBytes(FetchU32(c).0);
    FetchBytesSplit(c, 4, 4);
  }

  lemma FetchU32IsBytes(c: Cpu)
    requires c.Valid()
    ensures FetchU32(c) == FetchBytes(c, 4)
  {
    hide FetchU16, FetchBytes, ByteRange;
    ByteRanges();
    FetchU16IsBytes(c);
    FetchU16IsBytes(FetchU16(c).0);
    FetchBytesSplit(c, 2, 2);
  }
}
