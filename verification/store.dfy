/** The physical store as the machine keeps it: one buffer, updated in place.
    Every method is tied to the functions on `Ram` that the proofs reason with. */
module Store {
  import opened Words
  import opened Memory

  class PhysicalMemory {
    const data: array<u8>
    const lowSize: nat

    ghost predicate Valid()
      reads this, data
    {
      State().Valid()
    }

    function State(): Ram
      reads this, data
    {
      Ram(data[..], lowSize)
    }

    /** At least 1 MiB, rounded up to a whole page, all of it zero. */
    constructor WithSize(bytes: nat)
      ensures Valid() && fresh(data)
      ensures bytes <= data.Length && (data.Length < bytes + PAGE || data.Length == 0x10_0000)
      ensures forall a: nat :: ReadU8(State(), a) == if Slot(State(), a).Some? then 0 else 0xFF
    {
      var size := ((if bytes < 0x10_0000 then 0x10_0000 else bytes) + 0xFFF) / PAGE * PAGE;
      data := new u8[size](_ => 0);
      lowSize := if size < MMIO_HOLE_START then size else MMIO_HOLE_START;
    }

    function SlotOf(addr: nat): (i: Option<nat>)
      requires lowSize <= data.Length
      reads this, data
      ensures i == Slot(State(), addr)
    {
      if addr < lowSize then Some(addr)
      else if addr >= HIGH_RAM_BASE && addr - HIGH_RAM_BASE + lowSize < data.Length then
        Some(addr - HIGH_RAM_BASE + lowSize)
      else None
    }

    method LoadU8(addr: nat) returns (v: u8)
      requires Valid()
      ensures v == ReadU8(State(), addr)
    {
      var i := SlotOf(addr);
      v := if i.Some? then data[i.value] else 0xFF;
    }

    method LoadU16(addr: nat) returns (v: u16)
      requires Valid()
      ensures v == ReadU16(State(), addr)
    {
      var i := SlotOf(addr);
      if i.Some? && i.value + 1 < data.Length {
        v := data[i.value] as int + 0x100 * data[i.value + 1] as int;
        CellsTwo(data[..], i.value);
      } else {
        var lo: int := LoadU8(addr);
        var hi: int := LoadU8(addr + 1);
        v := lo + 0x100 * hi;
      }
    }

    method LoadU32(addr: nat) returns (v: u32)
      requires Valid()
      ensures v == ReadU32(State(), addr)
    {
      var i := SlotOf(addr);
      if i.Some? && i.value + 3 < data.Length {
        var k := i.value;
        v := data[k] as int + 0x100 * data[k + 1] as int
             + 0x1_0000 * data[k + 2] as int + 0x100_0000 * data[k + 3] as int;
        CellsFour(data[..], k);
      } else {
        var b0: int := LoadU8(addr);
        var b1: int := LoadU8(addr + 1);
        var b2: int := LoadU8(addr + 2);
        var b3: int := LoadU8(addr + 3);
        v := b0 + 0x100 * b1 + 0x1_0000 * b2 + 0x100_0000 * b3;
      }
    }

    method LoadU64(addr: nat) returns (v: u64)
      requires Valid()
      ensures v == ReadU64(State(), addr)
    {
      var i := SlotOf(addr);
      if i.Some? && i.value + 7 < data.Length {
        var n, sum: int := 8, 0;
        while n > 0
          invariant n <= 8 && sum == Cells(data[..], i.value + n, 8 - n)
        {
          n := n - 1;
          sum := data[i.value + n] as int + 256 * sum;
        }
        ByteRanges();
        v := sum;
      } else {
        var lo: int := LoadU32(addr);
        var hi: int := LoadU32(addr + 4);
        v := lo + TWO32 * hi;
      }
    }

    method StoreU8(addr: nat, v: u8)
      requires Valid()
      modifies data
      ensures Valid() && State() == WriteU8(old(State()), addr, v)
    {
      var i := SlotOf(addr);
      if i.Some? { data[i.value] := v; }
    }

    method StoreU16(addr: nat, v: u16)
      requires Valid()
      modifies data
      ensures Valid() && State() == WriteWide(old(State()), addr, 2, v)
    {
      StoreBytes(addr, 2, v);
    }

    method StoreU32(addr: nat, v: u32)
      requires Valid()
      modifies data
      ensures Valid() && State() == WriteWide(old(State()), addr, 4, v)
    {
      StoreBytes(addr, 4, v);
    }

    method StoreU64(addr: nat, v: u64)
      requires Valid()
      modifies data
      ensures Valid() && State() == WriteWide(old(State()), addr, 8, v)
    {
      StoreBytes(addr, 8, v);
    }

    /** `n` bytes, least significant first: straight into the buffer when the
        slot of the first has room for them all, else one store each. */
    method StoreBytes(addr: nat, n: nat, v: nat)
      requires Valid() && n > 0
      modifies data
      ensures Valid() && State() == WriteWide(old(State()), addr, n, v)
    {
      var i := SlotOf(addr);
      var k, rest := 0, v;
      if i.Some? && i.value + n - 1 < data.Length {
        while k < n
          invariant k <= n && rest >= 0
          invariant SetCells(data[..], i.value + k, n - k, rest) == SetCells(old(data[..]), i.value, n, v)
        {
          data[i.value + k] := rest % 256;
          rest, k := rest / 256, k + 1;
        }
      } else {
        while k < n
          invariant k <= n && rest >= 0 && Valid()
          invariant Write(State(), addr + k, n - k, rest) == Write(old(State()), addr, n, v)
        {
          StoreU8(addr + k, rest % 256);
          rest, k := rest / 256, k + 1;
        }
      }
    }
  }

  lemma CellsTwo(d: seq<u8>, i: nat)
    requires i + 2 <= |d|
    ensures Cells(d, i, 2) == d[i] as int + 0x100 * d[i + 1] as int
  {
    assert Cells(d, i + 1, 1) == d[i + 1] as int + 256 * Cells(d, i + 2, 0);
  }

  lemma CellsFour(d: seq<u8>, i: nat)
    requires i + 4 <= |d|
    ensures Cells(d, i, 4) == d[i] as int + 0x100 * d[i + 1] as int
                              + 0x1_0000 * d[i + 2] as int + 0x100_0000 * d[i + 3] as int
  {
    CellsTwo(d, i + 2);
    assert Cells(d, i + 1, 3) == d[i + 1] as int + 256 * Cells(d, i + 2, 2);
  }
}
