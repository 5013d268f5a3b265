/** Memory operands: accesses that may straddle two unrelated pages. */
module Operands {
  import opened Words
  import opened Memory
  import opened Mmu

  /** Operand sizes in bytes. */
  type Size = n: nat | n == 1 || n == 2 || n == 4 || n == 8 witness 1

  predicate Straddles(phys: nat, n: nat) { phys % 0x1000 + n > 0x1000 }

  /** Start of the page after the one that holds `linear`. */
  function NextPage(linear: u64): u64 { Wrap64(linear / 0x1000 * 0x1000 + 0x1000) }

  function ReadSize(mem: Ram, a: nat, n: Size): (v: u64)
    requires mem.Valid()
  {
    if n == 8 then ReadU64(mem, a)
    else if n == 4 then ReadU32(mem, a)
    else if n == 2 then ReadU16(mem, a)
    else ReadU8(mem, a)
  }

  function WriteSize(mem: Ram, a: nat, n: Size, v: u64): (mem': Ram)
    requires mem.Valid()
    ensures mem'.Valid() && |mem'.data| == |mem.data|
  {
    if n == 1 then WriteU8(mem, a, v % 0x100) else WriteWide(mem, a, n, v)
  }

  // ---- Accesses byte by byte, at any list of addresses ----

  function ReadAt(mem: Ram, addrs: seq<nat>): (v: nat)
    requires mem.Valid()
    ensures v < ByteRange(|addrs|)
  {
    if addrs == [] then 0 else ReadU8(mem, addrs[0]) + 256 * ReadAt(mem, addrs[1..])
  }

  function WriteAt(mem: Ram, addrs: seq<nat>, v: nat): (mem': Ram)
    requires mem.Valid()
    ensures mem'.Valid() && |mem'.data| == |mem.data|
    decreases |addrs|
  {
    if addrs == [] then mem else WriteAt(WriteU8(mem, addrs[0], v % 256), addrs[1..], v / 256)
  }

  /** The bytes of a split operand: the end of one page, the start of another. */
  function SplitAddrs(phys: nat, phys2: nat, n: nat): (addrs: seq<nat>)
    ensures |addrs| == n
  {
    var first := 0x1000 - phys % 0x1000;
    seq(n, i requires 0 <= i < n => if i < first then phys + i else phys2 + i - first)
  }

  // ---- Loads and stores ----

  function ReadSplit(s: State, phys: u64, linear: u64, n: Size): (r: (State, u64))
    requires s.Valid()
    ensures r.0.Valid()
  {
    var (s1, phys2) := Access(s, NextPage(linear), false, false);
    ByteRanges();
    if s1.pending.Some? then (s1, 0) else (s1, ReadAt(s1.mem, SplitAddrs(phys, phys2, n)))
  }

  /** Both pages are translated, for writing, before a byte is stored. */
  function WriteSplit(s: State, phys: u64, linear: u64, n: Size, v: u64): (s': State)
    requires s.Valid()
    ensures s'.Valid()
  {
    var (s1, phys2) := Access(s, NextPage(linear), true, false);
    if s1.pending.Some? then s1 else s1.(mem := WriteAt(s1.mem, SplitAddrs(phys, phys2, n), v))
  }

  /** A load of `n` bytes at a linear address. */
  function Load(s: State, linear: u64, n: Size): (r: (State, u64))
    requires s.Valid()
    ensures r.0.Valid()
  {
    var (s1, phys) := Access(s, linear, false, false);
    if n > 1 && Straddles(phys, n) then
      if s1.pending.Some? then (s1, 0) else ReadSplit(s1, phys, linear, n)
    else (s1, ReadSize(s1.mem, phys, n))
  }

  /** A store of `n` bytes at a linear address; nothing once a fault is pending. */
  function Store(s: State, linear: u64, n: Size, v: u64): (s': State)
    requires s.Valid()
    ensures s'.Valid()
  {
    if s.pending.Some? then s
    else
      var (s1, phys) := Access(s, linear, true, false);
      if s1.pending.Some? then s1
      else if n > 1 && Straddles(phys, n) then WriteSplit(s1, phys, linear, n, v)
      else s1.(mem := WriteSize(s1.mem, phys, n, v))
  }
}
