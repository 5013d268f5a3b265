/** RAM with the text window in front of it, and where wide accesses tear. */
module TextWindow {
  import opened Words
  import opened Memory
  import S = Store
  import Division

  const BASE: nat := 0xB8000
  const END: nat := 0xC0000
  const CELLS: nat := 0x4000

  /** `text` holds one cell, a character and its attribute, per two bytes of window. */
  datatype Bus = Bus(ram: Ram, text: seq<u16>) {
    predicate Valid() { ram.Valid() && |text| == CELLS }
  }

  predicate InWindow(a: nat) { BASE <= a < END }

  function LoadU8(b: Bus, a: nat): u8
    requires b.Valid()
  {
    if InWindow(a) then
      var cell: int := b.text[(a - BASE) / 2];
      if (a - BASE) % 2 == 0 then cell % 0x100 else cell / 0x100
    else ReadU8(b.ram, a)
  }

  function StoreU8(b: Bus, a: nat, v: u8): (b': Bus)
    requires b.Valid()
    ensures b'.Valid() && b'.ram.lowSize == b.ram.lowSize && |b'.ram.data| == |b.ram.data|
  {
    if InWindow(a) then
      var i := (a - BASE) / 2;
      var cell: int := b.text[i];
      b.(text := b.text[i := if (a - BASE) % 2 == 0 then cell / 0x100 * 0x100 + v else v * 0x100 + cell % 0x100])
    else b.(ram := WriteU8(b.ram, a, v))
  }

  /** In the window the characters are at the even bytes and the attributes at the odd
      ones, and a store changes its own byte alone, in the window and outside. */
  lemma ByteMap(b: Bus, a: nat, v: u8, x: nat)
    requires b.Valid()
    ensures InWindow(a) <==> 0xB8000 <= a < 0xC0000
    ensures InWindow(a) ==>
              var cell := (a - 0xB8000) / 2;
              && 0 <= cell < |b.text|
              && (a % 2 == 0 ==> LoadU8(b, a) == b.text[cell] as int % 0x100)
              && (a % 2 == 1 ==> LoadU8(b, a) == b.text[cell] as int / 0x100)
    ensures LoadU8(StoreU8(b, a, v), x) ==
              if x == a && (InWindow(a) || Slot(b.ram, a).Some?) then v else LoadU8(b, x)
  {
    AddressMap(b.ram, a, v);
    if InWindow(a) && InWindow(x) {
      var i := (a - BASE) / 2;
      var cell: int := b.text[i];
      if (a - BASE) % 2 == 0 {
        Division.DivUnique(cell / 0x100 * 0x100 + v, 0x100, cell / 0x100, v);
      } else {
        Division.DivUnique(v * 0x100 + cell % 0x100, 0x100, v, cell % 0x100);
      }
    }
  }

  // ---- The simple form: a byte at a time ----

  function Load(b: Bus, a: nat, n: nat): (v: nat)
    requires b.Valid()
    ensures v < ByteRange(n)
    decreases n
  {
    if n == 0 then 0 else LoadU8(b, a) + 256 * Load(b, a + 1, n - 1)
  }

  function Store(b: Bus, a: nat, n: nat, v: nat): (b': Bus)
    requires b.Valid()
    ensures b'.Valid()
    decreases n
  {
    if n == 0 then b else Store(StoreU8(b, a, v % 256), a + 1, n - 1, v / 256)
  }

  // ---- The wide accesses as the machine makes them ----

  function LoadU16(b: Bus, a: nat): u16
    requires b.Valid()
  {
    ByteRanges();
    if BASE <= a && a + 1 < END then b.text[(a - BASE) / 2]
    else
      var i := Slot(b.ram, a);
      if i.Some? && i.value + 1 < |b.ram.data| then Cells(b.ram.data, i.value, 2)
      else LoadU8(b, a) + 0x100 * LoadU8(b, a + 1)
  }

  function LoadU32(b: Bus, a: nat): u32
    requires b.Valid()
  {
    ByteRanges();
    if BASE <= a + 3 < END then LoadU16(b, a) + 0x1_0000 * LoadU16(b, a + 2)
    else
      var i := Slot(b.ram, a);
      if i.Some? && i.value + 3 < |b.ram.data| then Cells(b.ram.data, i.value, 4)
      else LoadU8(b, a) + 0x100 * LoadU8(b, a + 1) + 0x1_0000 * LoadU8(b, a + 2) + 0x100_0000 * LoadU8(b, a + 3)
  }

  function LoadU64(b: Bus, a: nat): u64
    requires b.Valid()
  {
    ByteRanges();
    if BASE <= a + 7 && a < END then LoadU32(b, a) + TWO32 * LoadU32(b, a + 4)
    else
      var i := Slot(b.ram, a);
      if i.Some? && i.value + 7 < |b.ram.data| then Cells(b.ram.data, i.value, 8)
      else LoadU32(b, a) + TWO32 * LoadU32(b, a + 4)
  }

  function LoadWide(b: Bus, a: nat, n: nat): nat
    requires b.Valid() && (n == 2 || n == 4 || n == 8)
  {
    if n == 2 then LoadU16(b, a) else if n == 4 then LoadU32(b, a) else LoadU64(b, a)
  }

  function StoreWide(b: Bus, a: nat, n: nat, v: nat): (b': Bus)
    requires b.Valid() && (n == 2 || n == 4 || n == 8)
    ensures b'.Valid()
    decreases n
  {
    if n == 2 && BASE <= a && a + 1 < END then b.(text := b.text[(a - BASE) / 2 := v % 0x1_0000])
    else if n == 4 && BASE <= a + 3 < END then StoreWide(StoreWide(b, a, 2, v % 0x1_0000), a + 2, 2, v / 0x1_0000)
    else if n == 8 && BASE <= a + 7 && a < END then StoreWide(StoreWide(b, a, 4, v % TWO32), a + 4, 4, v / TWO32)
    else
      var i := Slot(b.ram, a);
      if i.Some? && i.value + n - 1 < |b.ram.data| then b.(ram := b.ram.(data := SetCells(b.ram.data, i.value, n, v)))
      else Store(b, a, n, v)
  }

  // ---- Away from the window ----

  lemma {:induction false} BytesOutside(b: Bus, a: nat, n: nat, v: nat)
    requires b.Valid() && (a + n <= BASE || END <= a)
    ensures Load(b, a, n) == Read(b.ram, a, n)
    ensures Store(b, a, n, v) == b.(ram := Write(b.ram, a, n, v))
    decreases n
  {
    if n > 0 {
      BytesOutside(b, a + 1, n - 1, v / 256);
      BytesOutside(StoreU8(b, a, v % 256), a + 1, n - 1, v / 256);
    }
  }

  /** An access that does not touch the window is the access to RAM. */
  lemma Outside(b: Bus, a: nat, v: nat)
    requires b.Valid()
    ensures a + 2 <= BASE || END <= a ==> LoadU16(b, a) == ReadU16(b.ram, a)
    ensures a + 4 <= BASE || END <= a ==> LoadU32(b, a) == ReadU32(b.ram, a)
    ensures a + 8 <= BASE || END <= a ==> LoadU64(b, a) == ReadU64(b.ram, a)
    ensures forall n :: (n == 2 || n == 4 || n == 8) && (a + n <= BASE || END <= a) ==>
              StoreWide(b, a, n, v) == b.(ram := WriteWide(b.ram, a, n, v))
  {
    hide Cells, SetCells;
    forall n: nat | n == 2 || n == 4 || n == 8
      ensures a + n <= BASE || END <= a ==> StoreWide(b, a, n, v) == b.(ram := WriteWide(b.ram, a, n, v))
    {
      if a + n <= BASE || END <= a { BytesOutside(b, a, n, v); }
    }
  }

  // ---- Where a wide access is its bytes ----

  /** Clear of the window, or at an even address and not one of the last few from
      which part of the access leaves the window behind. */
  predicate Clean(a: nat, n: nat) {
    a + n <= BASE || END <= a || (a % 2 == 0 && (n >= 4 ==> a != END - 2) && (n >= 8 ==> a != END - 6))
  }

  lemma CellLoads(b: Bus, a: nat)
    requires b.Valid() && InWindow(a) && a % 2 == 0
    ensures LoadU16(b, a) == Load(b, a, 2)
  {
    assert Load(b, a, 2) == LoadU8(b, a) + 256 * Load(b, a + 1, 1);
    assert Load(b, a + 1, 1) == LoadU8(b, a + 1);
  }

  lemma CellStores(b: Bus, a: nat, v: u16)
    requires b.Valid() && InWindow(a) && a % 2 == 0
    ensures StoreWide(b, a, 2, v) == Store(b, a, 2, v)
  {
    var b1, hi := StoreU8(b, a, v % 256), v / 256;
    assert Store(b, a, 2, v) == Store(b1, a + 1, 1, hi);
    assert Store(b1, a + 1, 1, hi) == StoreU8(b1, a + 1, hi);
    var i := (a - BASE) / 2;
    assert b1.text[i] % 0x100 == v % 256;
    assert b.text[i := b1.text[i]][i := v] == b.text[i := v];
  }

  lemma {:induction false} LoadConcat(b: Bus, a: nat, m: nat, n: nat)
    requires b.Valid()
    ensures Load(b, a, m + n) == Load(b, a, m) + ByteRange(m) * Load(b, a + m, n)
    decreases m
  {
    hide LoadU8;
    if m > 0 {
      LoadConcat(b, a + 1, m - 1, n);
      assert a + 1 + (m - 1) == a + m && m - 1 + n == m + n - 1;
      ScaleBytes(LoadU8(b, a), Load(b, a + 1, m - 1), ByteRange(m - 1), Load(b, a + m, n));
    }
  }

  lemma {:induction false} StoreConcat(b: Bus, a: nat, m: nat, n: nat, v: nat)
    requires b.Valid()
    ensures Store(b, a, m + n, v) == Store(Store(b, a, m, v), a + m, n, Drop(v, m))
    decreases m
  {
    if m > 0 {
      StoreConcat(StoreU8(b, a, v % 256), a + 1, m - 1, n, v / 256);
      assert a + 1 + (m - 1) == a + m && m - 1 + n == m + n - 1;
    }
  }

  lemma {:induction false} StoreTruncates(b: Bus, a: nat, m: nat, v: nat, w: nat)
    requires b.Valid() && w % ByteRange(m) == v % ByteRange(m)
    ensures Store(b, a, m, v) == Store(b, a, m, w)
    decreases m
  {
    if m > 0 {
      Division.TwoDigits(v, 256, ByteRange(m - 1));
      Division.TwoDigits(w, 256, ByteRange(m - 1));
      StoreTruncates(StoreU8(b, a, v % 256), a + 1, m - 1, v / 256, w / 256);
    }
  }

  lemma {:induction false} DropDivides(v: nat, m: nat)
    ensures Drop(v, m) == v / ByteRange(m)
    decreases m
  {
    if m > 0 {
      DropDivides(v / 256, m - 1);
      Division.DivDiv(v, 256, ByteRange(m - 1));
    }
  }

  /** A clean access to whole RAM loads and stores its bytes in order. */
  lemma {:induction false} CleanAccess(b: Bus, a: nat, n: nat, v: nat)
    requires b.Valid() && (n == 2 || n == 4 || n == 8) && v < ByteRange(n)
    requires Clean(a, n) && Whole(b.ram, a, n)
    ensures LoadWide(b, a, n) == Load(b, a, n) && StoreWide(b, a, n, v) == Store(b, a, n, v)
    decreases n
  {
    hide Load, Store, LoadU8, StoreU8, Cells, SetCells, Write, Read, ReadU16, ReadU32, ReadU64;
    if a + n <= BASE || END <= a {
      Outside(b, a, v);
      BytesOutside(b, a, n, v);
      WideReads(b.ram, a);
      WideWrite(b.ram, a, n, v);
    } else if n == 2 {
      ByteRanges();
      CellLoads(b, a);
      CellStores(b, a, v);
    } else {
      Halves(b, a, n, v);
      WideHalves(b, a, n, v);
      var m: nat := n / 2;
      CleanAccess(b, a, m, v % ByteRange(m));
      CleanAccess(Store(b, a, m, v % ByteRange(m)), a + m, m, v / ByteRange(m));
      CleanAccess(b, a + m, m, v / ByteRange(m));
    }
  }

  /** In the window a wide access is made of two half as wide. */
  lemma WideHalves(b: Bus, a: nat, n: nat, v: nat)
    requires b.Valid() && (n == 4 || n == 8) && v < ByteRange(n) && Clean(a, n) && a < END && BASE < a + n
    ensures var m: nat := n / 2;
            && LoadWide(b, a, n) == LoadWide(b, a, m) + ByteRange(m) * LoadWide(b, a + m, m)
            && v / ByteRange(m) >= 0 && v % ByteRange(m) >= 0
            && StoreWide(b, a, n, v) == StoreWide(StoreWide(b, a, m, v % ByteRange(m)), a + m, m, v / ByteRange(m))
            && Clean(a, m) && Clean(a + m, m) && Whole(b.ram, a, m) && Whole(b.ram, a + m, m)
            && v % ByteRange(m) < ByteRange(m) && v / ByteRange(m) < ByteRange(m)
  {
    hide Cells, SetCells, LoadU16, ByteRange;
    ByteRanges();
  }

  /** Both forms of an access, split in two. */
  lemma Halves(b: Bus, a: nat, n: nat, v: nat)
    requires b.Valid() && (n == 4 || n == 8) && v < ByteRange(n)
    ensures var m: nat := n / 2;
            && Load(b, a, n) == Load(b, a, m) + ByteRange(m) * Load(b, a + m, m)
            && v / ByteRange(m) >= 0
            && Store(b, a, n, v) == Store(Store(b, a, m, v % ByteRange(m)), a + m, m, v / ByteRange(m))
  {
    hide Load, Store, LoadU8, StoreU8, ByteRange;
    var m: nat := n / 2;
    ByteRanges();
    LoadConcat(b, a, m, m);
    StoreConcat(b, a, m, m, v);
    DropDivides(v, m);
    StoreTruncates(b, a, m, v, v % ByteRange(m));
  }

  // ---- Where it is not ----

  const CELL: u16 := 0x0102

  /** RAM of zeroes behind a window full of one cell whose two bytes differ. */
  function Probe(r: Ram): (b: Bus)
    requires r.Valid()
    ensures b.Valid() && b.ram.lowSize == r.lowSize && |b.ram.data| == |r.data|
    ensures forall i :: 0 <= i < |b.ram.data| ==> b.ram.data[i] == 0
  {
    Bus(Ram(seq(|r.data|, _ => 0), r.lowSize), seq<u16>(CELLS, _ => CELL))
  }

  /** Some byte of the access is in the window. */
  predicate Touches(a: nat, n: nat) { n > 0 && a < END && BASE < a + n }

  lemma ProbeRam(r: Ram, a: nat, n: nat)
    requires r.Valid() && Touches(a, n) && n <= 8
    ensures a + n <= |Probe(r).ram.data| && Cells(Probe(r).ram.data, a, n) == 0
  {
    ZeroCells(Probe(r).ram.data, a, n);
  }

  lemma {:induction false} ProbeBytes(r: Ram, a: nat, n: nat)
    requires r.Valid() && Touches(a, n) && n <= 8
    ensures Load(Probe(r), a, n) > 0
    decreases n
  {
    var b := Probe(r);
    assert Load(b, a, n) == LoadU8(b, a) + 256 * Load(b, a + 1, n - 1);
    if InWindow(a) {
      assert b.text[(a - BASE) / 2] == CELL;
      assert LoadU8(b, a) > 0;
    } else {
      ProbeBytes(r, a + 1, n - 1);
    }
  }

  lemma TornPair(r: Ram, a: nat)
    requires r.Valid() && !Clean(a, 2)
    ensures LoadU16(Probe(r), a) != Load(Probe(r), a, 2)
  {
    hide Load, Cells, LoadU8;
    var b := Probe(r);
    ProbeRam(r, a, 2);
    ProbeBytes(r, a, 2);
    if InWindow(a) && InWindow(a + 1) { OddCell(b, a); }
  }

  /** A wide load that misses the window reads the RAM behind it; one that does
      not is made of its halves. */
  lemma ProbeHalves(r: Ram, a: nat, n: nat)
    requires r.Valid() && (n == 4 || n == 8) && Touches(a, n)
    ensures var b, m: nat := Probe(r), n / 2;
            if n == 4 && END <= a + 3 then LoadWide(b, a, n) == 0
            else LoadWide(b, a, n) == LoadWide(b, a, m) + ByteRange(m) * LoadWide(b, a + m, m)
  {
    hide Load, Cells, LoadU8, Probe, LoadU16;
    ProbeRam(r, a, n);
    ByteRanges();
  }

  /** Every other wide load is wrong on the probe: it returns a whole cell from an
      odd address, or RAM from behind the window. */
  lemma {:induction false} TornLoad(r: Ram, a: nat, n: nat)
    requires r.Valid() && (n == 2 || n == 4 || n == 8) && !Clean(a, n)
    ensures LoadWide(Probe(r), a, n) != Load(Probe(r), a, n)
    decreases n
  {
    hide Load, Cells, LoadU8, LoadU16, LoadU32, LoadU64, Probe;
    var b := Probe(r);
    if n == 2 {
      TornPair(r, a);
    } else {
      ProbeHalves(r, a, n);
      ProbeBytes(r, a, n);
      var m: nat := n / 2;
      LoadConcat(b, a, m, m);
      LoadFits(b, a, m);
      ByteRanges();
      if n == 8 || a + 3 < END {
        if !Clean(a, m) { TornLoad(r, a, m); } else { TornLoad(r, a + m, m); }
      }
    }
  }

  lemma LoadFits(b: Bus, a: nat, n: nat)
    requires b.Valid() && (n == 2 || n == 4)
    ensures LoadWide(b, a, n) < ByteRange(n)
  {
    hide LoadU16, LoadU32;
    ByteRanges();
  }

  lemma OddCell(b: Bus, a: nat)
    requires b.Valid() && InWindow(a) && InWindow(a + 1) && a % 2 == 1
    requires b.text[(a - BASE) / 2] == CELL && b.text[(a + 1 - BASE) / 2] == CELL
    ensures Load(b, a, 2) == 0x0201
  {
    assert Load(b, a, 2) == LoadU8(b, a) + 256 * Load(b, a + 1, 1);
    assert Load(b, a + 1, 1) == LoadU8(b, a + 1);
  }

  predicate WholeCells(b: Bus) { forall i :: 0 <= i < |b.text| ==> b.text[i] == 0 || b.text[i] == CELL }

  /** A wide store of zero clears whole cells, and none that it does not reach. */
  lemma {:induction false} WideClears(b: Bus, a: nat, n: nat)
    requires b.Valid() && (n == 2 || n == 4 || n == 8) && a + n <= 0x10_0000 && WholeCells(b)
    ensures WholeCells(StoreWide(b, a, n, 0))
    ensures StoreWide(b, a, n, 0).ram.lowSize == b.ram.lowSize
    ensures n == 4 && a == END - 2 ==> StoreWide(b, a, n, 0).text == b.text
    decreases n
  {
    hide SetCells;
    assert Slot(b.ram, a) == Some(a);
    if n > 2 && Touches(a, n) {
      var m: nat := n / 2;
      WideClears(b, a, m);
      WideClears(StoreWide(b, a, m, 0), a + m, m);
    }
  }

  /** The bytewise store clears the bytes it names and no others. */
  lemma {:induction false} BytesClear(b: Bus, a: nat, n: nat, x: nat)
    requires b.Valid() && InWindow(x)
    ensures LoadU8(Store(b, a, n, 0), x) == if a <= x < a + n then 0 else LoadU8(b, x)
    decreases n
  {
    if n > 0 { BytesClear(StoreU8(b, a, 0), a + 1, n - 1, x); }
  }

  /** ... and every other wide store: it clears a whole cell from an odd address, or
      RAM behind the window, where the bytes clear half a cell, or a cell. */
  lemma TornStore(r: Ram, a: nat, n: nat)
    requires r.Valid() && (n == 2 || n == 4 || n == 8) && !Clean(a, n)
    ensures StoreWide(Probe(r), a, n, 0) != Store(Probe(r), a, n, 0)
  {
    hide Store, StoreWide;
    var b := Probe(r);
    WideClears(b, a, n);
    if a % 2 == 1 {
      var x := if a < BASE then a + n - 1 else a - 1;
      BytesClear(b, a, n, x);
      BytesClear(b, a, n, x + 1);
      assert LoadU8(b, x) == 2 && LoadU8(b, x + 1) == 1;
    } else {
      BytesClear(b, a, n, END - 2);
      assert LoadU8(b, END - 2) == 2;
      LastCellKept(b, a, n);
    }
  }

  lemma LastCellKept(b: Bus, a: nat, n: nat)
    requires b.Valid() && ((n == 4 && a == END - 2) || (n == 8 && (a == END - 2 || a == END - 6)))
    ensures LoadU8(StoreWide(b, a, n, 0), END - 2) == LoadU8(b, END - 2)
  {
    hide SetCells;
    var last := |b.text| - 1;
    if n == 8 {
      var b1 := StoreWide(b, a, 4, 0);
      assert b1.text[last] == b.text[last];
      assert StoreWide(b, a, 8, 0) == StoreWide(b1, a + 4, 4, 0);
    }
  }

  // ---- The window and the buffer, updated in place ----

  /** An access that is not routed to the window goes to RAM. */
  lemma Unrouted(b: Bus, a: nat, v: nat)
    requires b.Valid()
    ensures !(BASE <= a && a + 1 < END) ==>
              LoadU16(b, a) == ReadU16(b.ram, a) && StoreWide(b, a, 2, v) == b.(ram := WriteWide(b.ram, a, 2, v))
    ensures !(BASE <= a + 3 < END) ==>
              LoadU32(b, a) == ReadU32(b.ram, a) && StoreWide(b, a, 4, v) == b.(ram := WriteWide(b.ram, a, 4, v))
    ensures !(BASE <= a + 7 && a < END) ==>
              LoadU64(b, a) == ReadU64(b.ram, a) && StoreWide(b, a, 8, v) == b.(ram := WriteWide(b.ram, a, 8, v))
  {
    hide Cells, SetCells, Load, Store, Read, Write, LoadU8, ReadU8;
    Outside(b, a, v);
    Outside(b, a + 4, v);
    if a < END && a + 8 > BASE { assert Slot(b.ram, a) == Some(a); }
  }

  class SystemBus {
    const ram: S.PhysicalMemory
    const text: array<u16>

    ghost predicate Valid()
      reads this, ram, ram.data, text
    {
      ram.Valid() && text.Length == CELLS && text != ram.data as object
    }

    function State(): Bus
      reads this, ram, ram.data, text
    {
      Bus(ram.State(), text[..])
    }

    /** RAM of zeroes and a screen of grey blanks. */
    constructor WithSize(bytes: nat)
      ensures Valid() && fresh(ram) && fresh(ram.data) && fresh(text)
      ensures forall a: nat :: LoadU8(State(), a) ==
                if InWindow(a) then (if a % 2 == 0 then 0x20 else 0x07)
                else if Slot(State().ram, a).Some? then 0 else 0xFF
    {
      ram := new S.PhysicalMemory.WithSize(bytes);
      text := new u16[CELLS](_ => 0x0720);
    }

    method ReadByte(a: nat) returns (v: u8)
      requires Valid()
      ensures v == LoadU8(State(), a)
    {
      if InWindow(a) {
        var cell: int := text[(a - BASE) / 2];
        v := if (a - BASE) % 2 == 0 then cell % 0x100 else cell / 0x100;
      } else {
        v := ram.LoadU8(a);
      }
    }

    method ReadWord(a: nat) returns (v: u16)
      requires Valid()
      ensures v == LoadU16(State(), a)
    {
      hide ReadU16;
      Unrouted(State(), a, 0);
      if BASE <= a && a + 1 < END { v := text[(a - BASE) / 2]; } else { v := ram.LoadU16(a); }
    }

    method ReadDword(a: nat) returns (v: u32)
      requires Valid()
      ensures v == LoadU32(State(), a)
    {
      hide ReadU32, LoadU16;
      Unrouted(State(), a, 0);
      if BASE <= a + 3 < END {
        var lo: int := ReadWord(a);
        var hi: int := ReadWord(a + 2);
        v := lo + 0x1_0000 * hi;
      } else {
        v := ram.LoadU32(a);
      }
    }

    method ReadQword(a: nat) returns (v: u64)
      requires Valid()
      ensures v == LoadU64(State(), a)
    {
      hide ReadU64, LoadU32;
      Unrouted(State(), a, 0);
      if BASE <= a + 7 && a < END {
        var lo: int := ReadDword(a);
        var hi: int := ReadDword(a + 4);
        v := lo + TWO32 * hi;
      } else {
        v := ram.LoadU64(a);
      }
    }

    method WriteByte(a: nat, v: u8)
      requires Valid()
      modifies ram.data, text
      ensures Valid() && State() == StoreU8(old(State()), a, v)
    {
      if InWindow(a) {
        var i := (a - BASE) / 2;
        var cell: int := text[i];
        text[i] := if (a - BASE) % 2 == 0 then cell / 0x100 * 0x100 + v else v * 0x100 + cell % 0x100;
      } else {
        ram.StoreU8(a, v);
      }
    }

    method WriteWord(a: nat, v: u16)
      requires Valid()
      modifies ram.data, text
      ensures Valid() && State() == StoreWide(old(State()), a, 2, v)
    {
      hide WriteWide;
      Unrouted(State(), a, v);
      if BASE <= a && a + 1 < END { text[(a - BASE) / 2] := v; } else { ram.StoreU16(a, v); }
    }

    method WriteDword(a: nat, v: u32)
      requires Valid()
      modifies ram.data, text
      ensures Valid() && State() == StoreWide(old(State()), a, 4, v)
    {
      hide WriteWide, SetCells, Store, Ram.Valid;
      Unrouted(State(), a, v);
      if BASE <= a + 3 < END {
        WriteWord(a, v % 0x1_0000);
        WriteWord(a + 2, v / 0x1_0000);
      } else {
        ram.StoreU32(a, v);
      }
    }

    method WriteQword(a: nat, v: u64)
      requires Valid()
      modifies ram.data, text
      ensures Valid() && State() == StoreWide(old(State()), a, 8, v)
    {
      hide WriteWide, SetCells, Store, Ram.Valid;
      Unrouted(State(), a, v);
      if BASE <= a + 7 && a < END {
        WriteDword(a, v % TWO32);
        WriteDword(a + 4, v / TWO32);
      } else {
        ram.StoreU64(a, v);
      }
    }
  }
}
