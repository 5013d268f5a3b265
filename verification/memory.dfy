/** The physical store: RAM below the MMIO hole, the rest of it above 4 GiB. */
module Memory {
  import opened Words

  const MMIO_HOLE_START: nat := 0xC000_0000
  const HIGH_RAM_BASE: nat := 0x1_0000_0000
  /** A failed translation returns this, far above anything RAM can answer at. */
  const UNBACKED: nat := 0x7FFF_FFFF_FFFF_FFFF
  const PAGE: nat := 0x1000

  /** The contents of RAM, and the index at which the region above 4 GiB starts. */
  datatype Ram = Ram(data: seq<u8>, lowSize: nat) {
    predicate Valid() {
      && |data| % PAGE == 0
      && |data| >= 0x10_0000
      && lowSize == if |data| < MMIO_HOLE_START then |data| else MMIO_HOLE_START
    }
  }

  /** Index of a physical address in the backing store, if RAM answers there. */
  function Slot(r: Ram, a: nat): (i: Option<nat>)
    requires r.lowSize <= |r.data|
    ensures i.Some? ==> i.value < |r.data|
  {
    if a < r.lowSize then Some(a)
    else if a >= HIGH_RAM_BASE && a - HIGH_RAM_BASE + r.lowSize < |r.data| then
      Some(a - HIGH_RAM_BASE + r.lowSize)
    else None
  }

  ghost predicate Backed(r: Ram, a: nat, n: nat)
    requires r.lowSize <= |r.data|
  {
    forall k :: a <= k < a + n ==> Slot(r, k).Some?
  }

  function ReadU8(r: Ram, a: nat): u8
    requires r.lowSize <= |r.data|
  {
    match Slot(r, a)
    case Some(i) => r.data[i]
    case None => 0xFF
  }

  function WriteU8(r: Ram, a: nat, v: u8): (r': Ram)
    requires r.lowSize <= |r.data|
    ensures |r'.data| == |r.data| && r'.lowSize == r.lowSize
  {
    match Slot(r, a)
    case Some(i) => r.(data := r.data[i := v])
    case None => r
  }

  // ---- Byte-at-a-time accesses: the simple form of every wide one ----

  function Read(r: Ram, a: nat, n: nat): (v: nat)
    requires r.lowSize <= |r.data|
    ensures v < ByteRange(n)
    decreases n
  {
    if n == 0 then 0 else ReadU8(r, a) + 256 * Read(r, a + 1, n - 1)
  }

  function Write(r: Ram, a: nat, n: nat, v: nat): (r': Ram)
    requires r.lowSize <= |r.data|
    ensures |r'.data| == |r.data| && r'.lowSize == r.lowSize
    decreases n
  {
    if n == 0 then r else Write(WriteU8(r, a, v % 256), a + 1, n - 1, v / 256)
  }

  /** The little-endian number in `n` consecutive cells of the backing store. */
  function Cells(data: seq<u8>, i: nat, n: nat): (v: nat)
    requires i + n <= |data|
    ensures v < ByteRange(n)
    decreases n
  {
    if n == 0 then 0 else data[i] + 256 * Cells(data, i + 1, n - 1)
  }

  function SetCells(data: seq<u8>, i: nat, n: nat, v: nat): (d: seq<u8>)
    requires i + n <= |data|
    ensures |d| == |data|
    decreases n
  {
    if n == 0 then data else SetCells(data[i := v % 256], i + 1, n - 1, v / 256)
  }

  // ---- The wide accesses as the machine makes them ----
  // Each looks up the slot of its *first* byte only, and falls back to
  // narrower accesses when the store ends before the last one.

  function ReadU16(r: Ram, a: nat): u16
    requires r.lowSize <= |r.data|
  {
    ByteRanges();
    match Slot(r, a)
    case Some(i) =>
      if i + 1 < |r.data| then Cells(r.data, i, 2) else ReadU8(r, a) + 0x100 * ReadU8(r, a + 1)
    case None => ReadU8(r, a) + 0x100 * ReadU8(r, a + 1)
  }

  function ReadU32(r: Ram, a: nat): u32
    requires r.lowSize <= |r.data|
  {
    ByteRanges();
    var slow := ReadU8(r, a) + 0x100 * ReadU8(r, a + 1)
                + 0x1_0000 * ReadU8(r, a + 2) + 0x100_0000 * ReadU8(r, a + 3);
    match Slot(r, a)
    case Some(i) => if i + 3 < |r.data| then Cells(r.data, i, 4) else slow
    case None => slow
  }

  function ReadU64(r: Ram, a: nat): u64
    requires r.lowSize <= |r.data|
  {
    ByteRanges();
    var slow := ReadU32(r, a) + TWO32 * ReadU32(r, a + 4);
    match Slot(r, a)
    case Some(i) => if i + 7 < |r.data| then Cells(r.data, i, 8) else slow
    case None => slow
  }

  /** The wide stores: `n` is 2, 4 or 8. */
  function WriteWide(r: Ram, a: nat, n: nat, v: nat): (r': Ram)
    requires r.lowSize <= |r.data| && n > 0
    ensures |r'.data| == |r.data| && r'.lowSize == r.lowSize
  {
    match Slot(r, a)
    case Some(i) =>
      if i + n - 1 < |r.data| then r.(data := SetCells(r.data, i, n, v)) else Write(r, a, n, v)
    case None => Write(r, a, n, v)
  }

  /** A wide access agrees with byte accesses unless it runs off the low RAM
      into the hole on a machine that has RAM above 4 GiB. */
  predicate Whole(r: Ram, a: nat, n: nat) {
    r.lowSize < |r.data| ==> a + n <= r.lowSize || r.lowSize <= a
  }

  // ---- Laws ----

  lemma {:induction false} CellsAreBytes(r: Ram, a: nat, i: nat, n: nat)
    requires r.Valid()
    requires Slot(r, a) == Some(i) && i + n <= |r.data| && Whole(r, a, n)
    ensures Cells(r.data, i, n) == Read(r, a, n)
    ensures forall v: nat :: r.(data := SetCells(r.data, i, n, v)) == Write(r, a, n, v)
    decreases n
  {
    if n > 1 {
      CellsAreBytes(r, a + 1, i + 1, n - 1);
      forall v: nat
        ensures r.(data := SetCells(r.data, i, n, v)) == Write(r, a, n, v)
      {
        CellsAreBytes(WriteU8(r, a, v % 256), a + 1, i + 1, n - 1);
      }
    } else if n == 1 {
      assert Read(r, a + 1, 0) == 0 && Cells(r.data, i + 1, 0) == 0;
      forall v: nat
        ensures r.(data := SetCells(r.data, i, n, v)) == Write(r, a, n, v)
      {
        var r1 := WriteU8(r, a, v % 256);
        assert Write(r1, a + 1, 0, v / 256) == r1;
        assert SetCells(r1.data, i + 1, 0, v / 256) == r1.data;
      }
    }
  }

  lemma ScaleBytes(b: int, x: int, p: int, y: int)
    ensures b + 256 * (x + p * y) == b + 256 * x + (256 * p) * y
  {
  }

  lemma {:induction false} ReadConcat(r: Ram, a: nat, m: nat, n: nat)
    requires r.lowSize <= |r.data|
    ensures Read(r, a, m + n) == Read(r, a, m) + ByteRange(m) * Read(r, a + m, n)
    decreases m
  {
    if m > 0 {
      ReadConcat(r, a + 1, m - 1, n);
      assert a + 1 + (m - 1) == a + m && m - 1 + n == m + n - 1;
      ScaleBytes(ReadU8(r, a), Read(r, a + 1, m - 1), ByteRange(m - 1), Read(r, a + m, n));
    }
  }

  /** Away from the end of low RAM, every wide read is its bytes in order. */
  lemma WideReads(r: Ram, a: nat)
    requires r.Valid()
    ensures Whole(r, a, 2) ==> ReadU16(r, a) == Read(r, a, 2)
    ensures Whole(r, a, 4) ==> ReadU32(r, a) == Read(r, a, 4)
    ensures Whole(r, a, 8) ==> ReadU64(r, a) == Read(r, a, 8)
  {
    WideRead16(r, a);
    WideRead32(r, a);
    WideRead64(r, a);
  }

  lemma WideRead16(r: Ram, a: nat)
    requires r.Valid()
    ensures Whole(r, a, 2) ==> ReadU16(r, a) == Read(r, a, 2)
  {
    if Whole(r, a, 2) {
      assert Read(r, a, 2) == ReadU8(r, a) + 256 * Read(r, a + 1, 1);
      match Slot(r, a)
      case Some(i) => if i + 1 < |r.data| { CellsAreBytes(r, a, i, 2); }
      case None =>
    }
  }

  lemma WideRead64(r: Ram, a: nat)
    requires r.Valid()
    ensures Whole(r, a, 8) ==> ReadU64(r, a) == Read(r, a, 8)
  {
    hide Cells, Read, ReadU8, ReadU32, ByteRange;
    if Whole(r, a, 8) {
      var i := Slot(r, a);
      if i.Some? && i.value + 7 < |r.data| {
        CellsAreBytes(r, a, i.value, 8);
      } else {
        WideRead32(r, a);
        WideRead32(r, a + 4);
        ReadConcat(r, a, 4, 4);
        ByteRanges();
      }
    }
  }

  lemma WideRead32(r: Ram, a: nat)
    requires r.Valid()
    ensures Whole(r, a, 4) ==> ReadU32(r, a) == Read(r, a, 4)
  {
    if Whole(r, a, 4) {
      assert Read(r, a, 4) == ReadU8(r, a) + 256 * Read(r, a + 1, 3);
      assert Read(r, a + 1, 3) == ReadU8(r, a + 1) + 256 * Read(r, a + 2, 2);
      match Slot(r, a)
      case Some(i) => if i + 3 < |r.data| { CellsAreBytes(r, a, i, 4); }
      case None =>
    }
  }

  /** Away from the end of low RAM, every wide store is its bytes in order. */
  lemma WideWrite(r: Ram, a: nat, n: nat, v: nat)
    requires r.Valid() && n > 0 && Whole(r, a, n)
    ensures WriteWide(r, a, n, v) == Write(r, a, n, v)
  {
    match Slot(r, a)
    case Some(i) => if i + n - 1 < |r.data| { CellsAreBytes(r, a, i, n); }
    case None =>
  }

  // ---- Across the end of low RAM ----

  lemma {:induction false} CellsConcat(data: seq<u8>, i: nat, m: nat, n: nat)
    requires i + m + n <= |data|
    ensures Cells(data, i, m + n) == Cells(data, i, m) + ByteRange(m) * Cells(data, i + m, n)
    decreases m
  {
    if m > 0 {
      CellsConcat(data, i + 1, m - 1, n);
      assert i + 1 + (m - 1) == i + m && m - 1 + n == m + n - 1;
      ScaleBytes(data[i], Cells(data, i + 1, m - 1), ByteRange(m - 1), Cells(data, i + m, n));
    }
  }

  /** What is left of a value without its `k` low bytes. */
  function Drop(v: nat, k: nat): nat { if k == 0 then v else Drop(v / 256, k - 1) }

  lemma {:induction false} SetCellsConcat(data: seq<u8>, i: nat, m: nat, n: nat, v: nat)
    requires i + m + n <= |data|
    ensures SetCells(data, i, m + n, v) == SetCells(SetCells(data, i, m, v), i + m, n, Drop(v, m))
    decreases m
  {
    if m > 0 {
      SetCellsConcat(data[i := v % 256], i + 1, m - 1, n, v / 256);
      assert i + 1 + (m - 1) == i + m && m - 1 + n == m + n - 1;
    }
  }

  /** A wide access that starts in low RAM and runs past its end goes on in the RAM
      above 4 GiB, which the backing store keeps next to it. */
  lemma AcrossTheHole(r: Ram, a: nat, n: nat, v: nat)
    requires r.Valid() && !Whole(r, a, n) && n <= 8
    ensures var k := r.lowSize - a;
            && (n == 2 ==> ReadU16(r, a) == Read(r, a, k) + ByteRange(k) * Read(r, HIGH_RAM_BASE, n - k))
            && (n == 4 ==> ReadU32(r, a) == Read(r, a, k) + ByteRange(k) * Read(r, HIGH_RAM_BASE, n - k))
            && (n == 8 ==> ReadU64(r, a) == Read(r, a, k) + ByteRange(k) * Read(r, HIGH_RAM_BASE, n - k))
            && WriteWide(r, a, n, v) == Write(Write(r, a, k, v), HIGH_RAM_BASE, n - k, Drop(v, k))
  {
    hide Cells, SetCells, Read, Write, ByteRange;
    var k := r.lowSize - a;
    assert a + n <= |r.data| && Slot(r, HIGH_RAM_BASE) == Some(r.lowSize);
    CellsConcat(r.data, a, k, n - k);
    CellsAreBytes(r, a, a, k);
    CellsAreBytes(r, HIGH_RAM_BASE, r.lowSize, n - k);
    SetCellsConcat(r.data, a, k, n - k, v);
    CellsAreBytes(Write(r, a, k, v), HIGH_RAM_BASE, r.lowSize, n - k);
  }

  function Zeroed(r: Ram): (zero: Ram)
    requires r.Valid()
    ensures zero.Valid() && |zero.data| == |r.data| && forall i :: 0 <= i < |zero.data| ==> zero.data[i] == 0
  {
    Ram(seq(|r.data|, _ => 0), r.lowSize)
  }

  /** So there `Whole` is exact: on RAM of zeroes the bytes past low RAM read as an
      open bus, and swallow a store that the wide access delivers above 4 GiB. */
  lemma WideQuirk(r: Ram, a: nat, n: nat)
    requires r.Valid() && !Whole(r, a, n) && n <= 8
    ensures n == 2 ==> ReadU16(Zeroed(r), a) != Read(Zeroed(r), a, n)
    ensures n == 4 ==> ReadU32(Zeroed(r), a) != Read(Zeroed(r), a, n)
    ensures n == 8 ==> ReadU64(Zeroed(r), a) != Read(Zeroed(r), a, n)
    ensures WriteWide(Zeroed(r), a, n, ByteRange(n) - 1) != Write(Zeroed(r), a, n, ByteRange(n) - 1)
  {
    hide Read, Cells, SetCells, Write, WriteWide, ByteRange, Zeroed;
    var zero := Zeroed(r);
    assert zero.lowSize == r.lowSize && ReadU8(zero, HIGH_RAM_BASE) == 0;
    ZeroCells(zero.data, a, n);
    SomeByteReads(zero, a, n, r.lowSize);
    StoreSwallowed(zero, a, n, r.lowSize - a);
  }

  lemma {:induction false} SomeByteReads(r: Ram, a: nat, n: nat, b: nat)
    requires r.lowSize <= |r.data| && a <= b < a + n && ReadU8(r, b) > 0
    ensures Read(r, a, n) > 0
    decreases n
  {
    if a < b { SomeByteReads(r, a + 1, n - 1, b); }
  }

  lemma StoreSwallowed(r: Ram, a: nat, n: nat, k: nat)
    requires r.Valid() && !Whole(r, a, n) && n <= 8 && k == r.lowSize - a
    requires ReadU8(r, HIGH_RAM_BASE) == 0
    ensures WriteWide(r, a, n, ByteRange(n) - 1) != Write(r, a, n, ByteRange(n) - 1)
  {
    hide Read, Cells, SetCells, Write;
    var v := ByteRange(n) - 1;
    AcrossTheHole(r, a, n, v);
    AllOnes(n, k);
    WriteFrame(r, a, n, v, HIGH_RAM_BASE);
    FirstByte(Write(r, a, k, v), HIGH_RAM_BASE, n - k, Drop(v, k));
  }

  lemma {:induction false} AllOnes(n: nat, k: nat)
    requires k < n
    ensures Drop(ByteRange(n) - 1, k) % 256 == 255
    decreases k
  {
    assert (ByteRange(n) - 1) / 256 == ByteRange(n - 1) - 1;
    if k > 0 { AllOnes(n - 1, k - 1); }
  }

  lemma FirstByte(r: Ram, a: nat, n: nat, v: nat)
    requires r.Valid() && n > 0 && Slot(r, a).Some?
    ensures ReadU8(Write(r, a, n, v), a) == v % 256
  {
    WriteFrame(WriteU8(r, a, v % 256), a + 1, n - 1, v / 256, a);
  }

  lemma {:induction false} ZeroCells(data: seq<u8>, i: nat, n: nat)
    requires i + n <= |data| && forall k :: i <= k < i + n ==> data[k] == 0
    ensures Cells(data, i, n) == 0
    decreases n
  {
    if n > 0 { ZeroCells(data, i + 1, n - 1); }
  }

  /** In RAM below the hole the wide reads are the cells. */
  lemma LowReads(mem: Ram, a: nat)
    requires mem.Valid() && a + 8 <= mem.lowSize == |mem.data|
    ensures ReadU16(mem, a) == Cells(mem.data, a, 2) && ReadU32(mem, a) == Cells(mem.data, a, 4)
    ensures ReadU64(mem, a) == Cells(mem.data, a, 8)
  {
    hide Cells;
  }

  /** A store changes the bytes it names and no others. */
  lemma {:induction false} WriteFrame(r: Ram, a: nat, n: nat, v: nat, b: nat)
    requires r.lowSize <= |r.data| && r.lowSize <= HIGH_RAM_BASE
    requires b < a || a + n <= b
    ensures ReadU8(Write(r, a, n, v), b) == ReadU8(r, b)
    decreases n
  {
    if n > 0 { WriteFrame(WriteU8(r, a, v % 256), a + 1, n - 1, v / 256, b); }
  }

  lemma {:induction false} SameBytesSameRead(r: Ram, r': Ram, a: nat, n: nat)
    requires r.lowSize <= |r.data| && r'.lowSize <= |r'.data|
    requires forall k :: a <= k < a + n ==> ReadU8(r', k) == ReadU8(r, k)
    ensures Read(r', a, n) == Read(r, a, n)
    decreases n
  {
    if n > 0 { SameBytesSameRead(r, r', a + 1, n - 1); }
  }

  /** What is stored in RAM is what is loaded back. */
  lemma {:induction false} ReadAfterWrite(r: Ram, a: nat, n: nat, v: nat)
    requires r.lowSize <= |r.data| && r.lowSize <= HIGH_RAM_BASE
    requires Backed(r, a, n) && v < ByteRange(n)
    ensures Read(Write(r, a, n, v), a, n) == v
    decreases n
  {
    if n > 0 {
      var r1 := WriteU8(r, a, v % 256);
      assert Slot(r, a).Some?;
      forall k | a + 1 <= k < a + n ensures Slot(r1, k).Some? { assert Slot(r, k).Some?; }
      ReadAfterWrite(r1, a + 1, n - 1, v / 256);
      WriteFrame(r1, a + 1, n - 1, v / 256, a);
    }
  }

  /** Storing back what was loaded changes nothing. */
  lemma {:induction false} RestoreRead(r: Ram, a: nat, n: nat)
    requires r.lowSize <= |r.data|
    ensures Write(r, a, n, Read(r, a, n)) == r
    decreases n
  {
    if n > 0 {
      var b, rest := ReadU8(r, a), Read(r, a + 1, n - 1);
      assert (b + 256 * rest) % 256 == b && (b + 256 * rest) / 256 == rest;
      assert WriteU8(r, a, b) == r;
      RestoreRead(r, a + 1, n - 1);
    }
  }

  /** The physical address map: byte `i` of RAM answers at `i` below 3 GiB and 1 GiB
      further up from there on, at no other address does anything answer, and a store
      changes the byte at its address and no other. */
  lemma AddressMap(r: Ram, a: nat, v: u8)
    requires r.Valid()
    ensures Slot(r, a).Some? <==>
              (a < |r.data| && a < 0xC000_0000) || 0x1_0000_0000 <= a < |r.data| + 0x4000_0000
    ensures Slot(r, a).None? ==> ReadU8(r, a) == 0xFF
    ensures forall i: nat :: i < |r.data| ==> ReadU8(r, if i < 0xC000_0000 then i else i + 0x4000_0000) == r.data[i]
    ensures forall x: nat :: ReadU8(WriteU8(r, a, v), x) == if x == a && Slot(r, a).Some? then v else ReadU8(r, x)
  {
  }
}
