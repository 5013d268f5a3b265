/** The split virtqueue: first in, first out, across the wrap of its indices. */
module VirtioQueue {
  import opened Words
  import opened Memory
  import opened Virtio
  import opened VirtioBlocks
  import Division

  /** Bytes from the descriptor table to the end of the used ring. */
  const RING_SIZE: nat := 4096 + 4 + 8 * QUEUE_SIZE

  function Base(pfn: u32): nat { pfn * 4096 }

  predicate InRing(pfn: u32, a: nat, n: nat) { Base(pfn) <= a && a + n <= Base(pfn) + RING_SIZE }

  /** RAM answers all over the ring. */
  ghost predicate RingInRam(mem: Ram, pfn: u32) {
    mem.Valid() && Backed(mem, Base(pfn), RING_SIZE) && Whole(mem, Base(pfn), RING_SIZE)
  }

  /** The descriptor table and the available ring are as they were. */
  ghost predicate SameFront(mem: Ram, mem': Ram, pfn: u32)
    requires mem.Valid()
  {
    && mem'.Valid() && |mem'.data| == |mem.data|
    && forall a: nat :: Base(pfn) <= a < Base(pfn) + 4096 ==> ReadU8(mem', a) == ReadU8(mem, a)
  }

  /** Every descriptor of the chain is in the table. */
  ghost predicate ChainInTable(mem: Ram, desc: nat, index: u16, n: nat)
    requires mem.Valid()
    decreases n
  {
    n == 0 || (index < QUEUE_SIZE
               && (HasNext(DescAt(mem, desc, index)) ==> ChainInTable(mem, desc, DescAt(mem, desc, index).next, n - 1)))
  }

  /** The head of the `k`-th request to come: slot `last + k` of the available ring,
      which follows the flags and index words after a descriptor table of 2048 bytes. */
  function HeadOf(mem: Ram, pfn: u32, last: u16, k: nat): u16
    requires mem.Valid()
  {
    ReadU16(mem, pfn * 4096 + 2048 + 4 + 2 * ((last + k) % 128))
  }

  /** The indices run freely modulo 2^16, of which the size of the ring is a divisor. */
  lemma HeadIs(mem: Ram, pfn: u32, last: u16, k: nat)
    requires mem.Valid()
    ensures HeadAt(mem, Base(pfn) + 2048, (last + k) % 0x1_0000) == HeadOf(mem, pfn, last, k)
  {
    hide ReadU16;
    var x, y := last + k, (last + k) % 0x1_0000;
    Division.DivUnique(x, 128, 512 * (x / 0x1_0000) + y / 128, y % 128);
  }

  /** The driver's side: chains in the table, buffers outside the ring. */
  ghost predicate Disjoint(mem: Ram, pfn: u32, head: u16)
    requires mem.Valid()
  {
    && ChainInTable(mem, Base(pfn), head, QUEUE_SIZE)
    && forall a :: a in Footprint(Chain(mem, Base(pfn), head, QUEUE_SIZE)) ==> !InRing(pfn, a, 1)
  }

  function UsedIndex(mem: Ram, pfn: u32): u16
    requires mem.Valid()
  {
    ReadU16(mem, Base(pfn) + 4098)
  }

  /** Entry `j` of the used ring: a head and a byte count. */
  function UsedEntry(mem: Ram, pfn: u32, j: nat): (u32, u32)
    requires mem.Valid()
  {
    (ReadU32(mem, Base(pfn) + 4100 + j * 8), ReadU32(mem, Base(pfn) + 4104 + j * 8))
  }

  // ---- Loads and stores inside the ring ----

  lemma RingLoads(mem: Ram, pfn: u32, a: nat)
    requires RingInRam(mem, pfn)
    ensures InRing(pfn, a, 2) ==> ReadU16(mem, a) == Read(mem, a, 2)
    ensures InRing(pfn, a, 4) ==> ReadU32(mem, a) == Read(mem, a, 4)
    ensures InRing(pfn, a, 8) ==> ReadU64(mem, a) == Read(mem, a, 8)
  {
    hide ReadU16, ReadU32, ReadU64;
    WideReads(mem, a);
  }

  lemma SameLoads(mem: Ram, mem': Ram, pfn: u32, a: nat, n: nat)
    requires RingInRam(mem, pfn) && RingInRam(mem', pfn) && InRing(pfn, a, n) && (n == 2 || n == 4 || n == 8)
    requires forall k :: a <= k < a + n ==> ReadU8(mem', k) == ReadU8(mem, k)
    ensures n == 2 ==> ReadU16(mem', a) == ReadU16(mem, a)
    ensures n == 4 ==> ReadU32(mem', a) == ReadU32(mem, a)
    ensures n == 8 ==> ReadU64(mem', a) == ReadU64(mem, a)
  {
    hide ReadU16, ReadU32, ReadU64, RingInRam, ReadU8;
    InRam(mem, pfn);
    InRam(mem', pfn);
    RingLoads(mem, pfn, a);
    RingLoads(mem', pfn, a);
    SameBytesSameRead(mem, mem', a, n);
  }

  lemma InRam(mem: Ram, pfn: u32)
    requires RingInRam(mem, pfn)
    ensures mem.Valid()
  {
  }

  /** `mem'` is `mem` but for the `n` bytes at `a`. */
  ghost predicate OnlyAt(mem: Ram, mem': Ram, a: nat, n: nat)
    requires mem.Valid()
  {
    && mem'.Valid() && |mem'.data| == |mem.data|
    && forall b: nat :: b < a || a + n <= b ==> ReadU8(mem', b) == ReadU8(mem, b)
  }

  lemma RingStays(mem: Ram, mem': Ram, pfn: u32)
    requires RingInRam(mem, pfn) && mem'.Valid() && |mem'.data| == |mem.data|
    ensures RingInRam(mem', pfn)
  {
    forall k | Base(pfn) <= k < Base(pfn) + RING_SIZE ensures Slot(mem', k).Some? { assert Slot(mem, k).Some?; }
  }

  lemma RingStore(mem: Ram, pfn: u32, a: nat, n: nat, v: nat)
    requires RingInRam(mem, pfn) && InRing(pfn, a, n) && (n == 2 || n == 4) && v < ByteRange(n)
    ensures var mem' := WriteWide(mem, a, n, v);
            && RingInRam(mem', pfn) && OnlyAt(mem, mem', a, n)
            && (n == 2 ==> ReadU16(mem', a) == v) && (n == 4 ==> ReadU32(mem', a) == v)
  {
    hide ReadU16, ReadU32, WriteWide, ReadU8;
    var mem' := WriteWide(mem, a, n, v);
    WideWrite(mem, a, n, v);
    forall b: nat | b < a || a + n <= b ensures ReadU8(mem', b) == ReadU8(mem, b) { WriteFrame(mem, a, n, v, b); }
    RingStays(mem, mem', pfn);
    RingLoads(mem', pfn, a);
    assert Backed(mem, a, n);
    ReadAfterWrite(mem, a, n, v);
  }

  // ---- The front of the ring ----

  lemma DescStays(mem: Ram, mem': Ram, pfn: u32, index: u16)
    requires RingInRam(mem, pfn) && RingInRam(mem', pfn) && SameFront(mem, mem', pfn) && index < QUEUE_SIZE
    ensures DescAt(mem', Base(pfn), index) == DescAt(mem, Base(pfn), index)
  {
    hide ReadU16, ReadU32, ReadU64, ReadU8, RingInRam;
    InRam(mem, pfn);
    var e := Base(pfn) + index * 16;
    SameLoads(mem, mem', pfn, e, 8);
    SameLoads(mem, mem', pfn, e + 8, 4);
    SameLoads(mem, mem', pfn, e + 12, 2);
    SameLoads(mem, mem', pfn, e + 14, 2);
  }

  lemma {:induction false} ChainStays(mem: Ram, mem': Ram, pfn: u32, index: u16, n: nat)
    requires RingInRam(mem, pfn) && RingInRam(mem', pfn) && SameFront(mem, mem', pfn)
    requires ChainInTable(mem, Base(pfn), index, n)
    ensures Chain(mem', Base(pfn), index, n) == Chain(mem, Base(pfn), index, n)
    decreases n
  {
    hide RingInRam, SameFront, DescAt;
    InRam(mem, pfn);
    InRam(mem', pfn);
    if n > 0 {
      DescStays(mem, mem', pfn, index);
      var d := DescAt(mem, Base(pfn), index);
      if HasNext(d) { ChainStays(mem, mem', pfn, d.next, n - 1); }
    }
  }

  lemma HeadStays(mem: Ram, mem': Ram, pfn: u32, index: u16)
    requires RingInRam(mem, pfn) && RingInRam(mem', pfn) && SameFront(mem, mem', pfn)
    ensures HeadAt(mem', Base(pfn) + 2048, index) == HeadAt(mem, Base(pfn) + 2048, index)
  {
    hide ReadU16, ReadU8, RingInRam;
    InRam(mem, pfn);
    SameLoads(mem, mem', pfn, Base(pfn) + 2048 + 4 + index % QUEUE_SIZE * 2, 2);
  }

  // ---- One request ----

  /** What finishing one request does to the ring. */
  ghost predicate Used(mem: Ram, mem': Ram, pfn: u32, head: u16, written: u32)
    requires mem.Valid()
  {
    && mem'.Valid() && SameFront(mem, mem', pfn)
    && UsedIndex(mem', pfn) == (UsedIndex(mem, pfn) + 1) % 0x1_0000
    && UsedEntry(mem', pfn, UsedIndex(mem, pfn) % QUEUE_SIZE) == (head, written)
    && forall j: nat :: j < QUEUE_SIZE && j != UsedIndex(mem, pfn) % QUEUE_SIZE ==>
         UsedEntry(mem', pfn, j) == UsedEntry(mem, pfn, j)
  }

  lemma EntryStays(mem: Ram, mem': Ram, pfn: u32, j: nat, a: nat, n: nat)
    requires RingInRam(mem, pfn) && RingInRam(mem', pfn) && OnlyAt(mem, mem', a, n) && j < QUEUE_SIZE
    requires a + n <= Base(pfn) + 4100 + j * 8 || Base(pfn) + 4108 + j * 8 <= a
    ensures UsedEntry(mem', pfn, j) == UsedEntry(mem, pfn, j)
  {
    hide ReadU32, ReadU8, RingInRam;
    InRam(mem, pfn);
    SameLoads(mem, mem', pfn, Base(pfn) + 4100 + j * 8, 4);
    SameLoads(mem, mem', pfn, Base(pfn) + 4104 + j * 8, 4);
  }

  /** The two halves of an entry, stored one after the other. */
  lemma EntryPut(mem: Ram, pfn: u32, j: nat, head: u16, written: u32)
    requires RingInRam(mem, pfn) && j < QUEUE_SIZE
    ensures var m1 := WriteWide(mem, Base(pfn) + 4100 + j * 8, 4, head);
            var m2 := WriteWide(m1, Base(pfn) + 4104 + j * 8, 4, written);
            && RingInRam(m2, pfn) && OnlyAt(mem, m2, Base(pfn) + 4100 + j * 8, 8)
            && UsedEntry(m2, pfn, j) == (head, written)
  {
    hide ReadU32, ReadU16, ReadU8, RingInRam, WriteWide;
    ByteRanges();
    var a := Base(pfn) + 4100 + j * 8;
    InRam(mem, pfn);
    RingStore(mem, pfn, a, 4, head);
    var m1 := WriteWide(mem, a, 4, head);
    RingStore(m1, pfn, a + 4, 4, written);
    var m2 := WriteWide(m1, a + 4, 4, written);
    SameLoads(m1, m2, pfn, a, 4);
  }

  lemma FrontStays(mem: Ram, mem': Ram, pfn: u32, a: nat, n: nat)
    requires mem.Valid() && OnlyAt(mem, mem', a, n) && a >= Base(pfn) + 4096
    ensures SameFront(mem, mem', pfn)
  {
    hide ReadU8;
  }

  lemma PutUsedIs(mem: Ram, pfn: u32, head: u16, written: u32)
    requires RingInRam(mem, pfn)
    ensures var mem' := PutUsed(mem, Base(pfn) + 4096, head, written);
            RingInRam(mem', pfn) && Used(mem, mem', pfn, head, written)
  {
    hide ReadU32, ReadU16, ReadU8, RingInRam, WriteWide, UsedEntry, SameFront;
    ByteRanges();
    InRam(mem, pfn);
    var u := UsedIndex(mem, pfn);
    var j := u % QUEUE_SIZE;
    var a := Base(pfn) + 4100 + j * 8;
    EntryPut(mem, pfn, j, head, written);
    var m2 := WriteWide(WriteWide(mem, a, 4, head), a + 4, 4, written);
    SameLoads(mem, m2, pfn, Base(pfn) + 4098, 2);
    RingStore(m2, pfn, Base(pfn) + 4098, 2, (u + 1) % 0x1_0000);
    var m3 := WriteWide(m2, Base(pfn) + 4098, 2, (u + 1) % 0x1_0000);
    forall k: nat | k < QUEUE_SIZE
      ensures UsedEntry(m3, pfn, k) == if k == j then (head as u32, written) else UsedEntry(mem, pfn, k)
    {
      EntryStays(m2, m3, pfn, k, Base(pfn) + 4098, 2);
      if k != j { EntryStays(mem, m2, pfn, k, a, 8); }
    }
    FrontStays(mem, m2, pfn, a, 8);
    FrontStays(m2, m3, pfn, Base(pfn) + 4098, 2);
    FrontTransitive(mem, m2, m3, pfn);
  }

  lemma FrontTransitive(m0: Ram, m1: Ram, m2: Ram, pfn: u32)
    requires m0.Valid() && SameFront(m0, m1, pfn) && SameFront(m1, m2, pfn)
    ensures SameFront(m0, m2, pfn)
  {
    hide ReadU8;
  }

  /** A request whose buffers lie outside the ring does not touch the ring. */
  lemma RequestKeepsRing(mem: Ram, disk: seq<u8>, pfn: u32, head: u16)
    requires RingInRam(mem, pfn)
    requires forall a :: a in Footprint(Chain(mem, Base(pfn), head, QUEUE_SIZE)) ==> !InRing(pfn, a, 1)
    ensures var mem' := Request(mem, disk, Base(pfn), head).mem;
            && RingInRam(mem', pfn) && SameFront(mem, mem', pfn)
            && UsedIndex(mem', pfn) == UsedIndex(mem, pfn)
            && forall j: nat :: j < QUEUE_SIZE ==> UsedEntry(mem', pfn, j) == UsedEntry(mem, pfn, j)
  {
    hide ReadU32, ReadU16, ReadU8, RingInRam, Request, Footprint, Chain;
    InRam(mem, pfn);
    var mem' := Request(mem, disk, Base(pfn), head).mem;
    RingStays(mem, mem', pfn);
    forall a: nat | InRing(pfn, a, 1) ensures ReadU8(mem', a) == ReadU8(mem, a) {
      RequestFrame(mem, disk, Base(pfn), head, a);
    }
    SameLoads(mem, mem', pfn, Base(pfn) + 4098, 2);
    forall j: nat | j < QUEUE_SIZE ensures UsedEntry(mem', pfn, j) == UsedEntry(mem, pfn, j) {
      SameLoads(mem, mem', pfn, Base(pfn) + 4100 + j * 8, 4);
      SameLoads(mem, mem', pfn, Base(pfn) + 4104 + j * 8, 4);
    }
  }

  lemma ServeIs(mem: Ram, disk: seq<u8>, pfn: u32, last: u16)
    requires RingInRam(mem, pfn) && Disjoint(mem, pfn, HeadOf(mem, pfn, last, 0))
    ensures var mem', head := Serve(mem, disk, pfn, last).0, HeadOf(mem, pfn, last, 0);
            && RingInRam(mem', pfn)
            && Used(mem, mem', pfn, head, Request(mem, disk, Base(pfn), head).written)
  {
    hide Request, RingInRam, Chain, Footprint, HeadAt, HeadOf, PutUsed, UsedIndex, UsedEntry, SameFront, ChainInTable;
    InRam(mem, pfn);
    HeadIs(mem, pfn, last, 0);
    assert (last + 0) % 0x1_0000 == last;
    var head := HeadOf(mem, pfn, last, 0);
    RequestKeepsRing(mem, disk, pfn, head);
    var d := Request(mem, disk, Base(pfn), head);
    PutUsedIs(d.mem, pfn, head, d.written);
    FrontTransitive(mem, d.mem, PutUsed(d.mem, Base(pfn) + 4096, head, d.written), pfn);
  }

  // ---- All of them ----

  /** Requests `last` up to `last + n` are in order, on the ring as it is now. */
  ghost predicate Queued(mem: Ram, pfn: u32, last: u16, n: nat)
    requires mem.Valid()
  {
    forall k: nat :: k < n ==> Disjoint(mem, pfn, HeadOf(mem, pfn, last, k))
  }

  /** The byte count of the `k`-th request, made on the state its predecessors left. */
  function WrittenBy(mem: Ram, disk: seq<u8>, pfn: u32, last: u16, k: nat): u32
    requires mem.Valid()
  {
    var (m, d) := ServeAll(mem, disk, pfn, last, k);
    Request(m, d, Base(pfn), HeadOf(mem, pfn, last, k)).written
  }

  lemma DisjointStays(mem: Ram, mem': Ram, pfn: u32, head: u16)
    requires RingInRam(mem, pfn) && RingInRam(mem', pfn) && SameFront(mem, mem', pfn) && Disjoint(mem, pfn, head)
    ensures Disjoint(mem', pfn, head)
  {
    hide RingInRam, Footprint, Chain, SameFront;
    InRam(mem, pfn);
    ChainStays(mem, mem', pfn, head, QUEUE_SIZE);
    TableStays(mem, mem', pfn, head, QUEUE_SIZE);
  }

  lemma {:induction false} TableStays(mem: Ram, mem': Ram, pfn: u32, index: u16, n: nat)
    requires RingInRam(mem, pfn) && RingInRam(mem', pfn) && SameFront(mem, mem', pfn)
    requires ChainInTable(mem, Base(pfn), index, n)
    ensures ChainInTable(mem', Base(pfn), index, n)
    decreases n
  {
    hide RingInRam, SameFront, DescAt;
    InRam(mem, pfn);
    InRam(mem', pfn);
    if n > 0 {
      DescStays(mem, mem', pfn, index);
      var d := DescAt(mem, Base(pfn), index);
      if HasNext(d) { TableStays(mem, mem', pfn, d.next, n - 1); }
    }
  }

  /** Free-running indices: the next request's `k`-th is this one's `k + 1`-st. */
  lemma NextHead(mem: Ram, mem': Ram, pfn: u32, last: u16, k: nat)
    requires RingInRam(mem, pfn) && RingInRam(mem', pfn) && SameFront(mem, mem', pfn)
    ensures HeadOf(mem', pfn, (last + 1) % 0x1_0000, k) == HeadOf(mem, pfn, last, k + 1)
  {
    hide RingInRam, SameFront, HeadAt, HeadOf;
    InRam(mem, pfn);
    InRam(mem', pfn);
    Division.ModShift(last + 1, k, 0x1_0000);
    HeadIs(mem', pfn, (last + 1) % 0x1_0000, k);
    HeadIs(mem, pfn, last, k + 1);
    HeadStays(mem, mem', pfn, (last + (k + 1)) % 0x1_0000);
  }

  /** Where the `k`-th completion from used index `u` goes. */
  function UsedSlot(u: nat, k: nat): (j: nat)
    ensures j < QUEUE_SIZE
  {
    (u + k) % QUEUE_SIZE
  }

  lemma NextSlot(u: u16, k: nat)
    ensures UsedSlot((u + 1) % 0x1_0000, k) == UsedSlot(u, k + 1)
  {
    if u + 1 == 0x1_0000 {
      Division.DivUnique(0x1_0000 + k, QUEUE_SIZE, 512 + k / QUEUE_SIZE, k % QUEUE_SIZE);
    }
  }

  lemma DistinctSlots(u: nat, a: nat, b: nat)
    requires a < b < a + QUEUE_SIZE
    ensures UsedSlot(u, a) != UsedSlot(u, b)
  {
    var x, y: int := u + a, u + b;
    if x % QUEUE_SIZE == y % QUEUE_SIZE {
      assert y - x == (y / QUEUE_SIZE - x / QUEUE_SIZE) * QUEUE_SIZE;
      Division.SmallMultiple(y / QUEUE_SIZE - x / QUEUE_SIZE, QUEUE_SIZE);
    }
  }

  /** The used ring after `n` requests: their heads in the order the driver made
      them available, each once, with its byte count; nothing else changed. */
  ghost predicate Fifo(mem: Ram, disk: seq<u8>, pfn: u32, last: u16, n: nat, mem': Ram)
    requires mem.Valid() && mem'.Valid()
  {
    var u := UsedIndex(mem, pfn);
    && UsedIndex(mem', pfn) == (u + n) % 0x1_0000
    && (forall k: nat :: k < n ==>
          UsedEntry(mem', pfn, UsedSlot(u, k))
          == (HeadOf(mem, pfn, last, k) as u32, WrittenBy(mem, disk, pfn, last, k)))
    && forall j: nat :: j < QUEUE_SIZE && (forall k: nat :: k < n ==> UsedSlot(u, k) != j) ==>
         UsedEntry(mem', pfn, j) == UsedEntry(mem, pfn, j)
  }

  lemma {:induction false} ServeAllIsFifo(mem: Ram, disk: seq<u8>, pfn: u32, last: u16, n: nat)
    requires RingInRam(mem, pfn) && n <= QUEUE_SIZE && Queued(mem, pfn, last, n)
    ensures var mem' := ServeAll(mem, disk, pfn, last, n).0;
            && RingInRam(mem', pfn) && SameFront(mem, mem', pfn) && Fifo(mem, disk, pfn, last, n, mem')
    decreases n
  {
    hide RingInRam, Serve, Disjoint, SameFront, UsedIndex, UsedEntry, HeadOf, Request, Fifo;
    InRam(mem, pfn);
    if n == 0 {
      NoneServed(mem, disk, pfn, last);
    } else {
      ServeIs(mem, disk, pfn, last);
      var (m1, d1) := Serve(mem, disk, pfn, last);
      var last1 := (last + 1) % 0x1_0000;
      forall k: nat | k < n - 1
        ensures Disjoint(m1, pfn, HeadOf(m1, pfn, last1, k))
      {
        NextHead(mem, m1, pfn, last, k);
        DisjointStays(mem, m1, pfn, HeadOf(mem, pfn, last, k + 1));
      }
      ServeAllIsFifo(m1, d1, pfn, last1, n - 1);
      var mem' := ServeAll(mem, disk, pfn, last, n).0;
      FrontTransitive(mem, m1, mem', pfn);
      OneThenRest(mem, disk, pfn, last, n, mem');
    }
  }

  lemma NoneServed(mem: Ram, disk: seq<u8>, pfn: u32, last: u16)
    requires mem.Valid()
    ensures Fifo(mem, disk, pfn, last, 0, mem) && SameFront(mem, mem, pfn)
  {
    hide UsedEntry, HeadOf, WrittenBy, ReadU16;
  }

  lemma OneThenRest(mem: Ram, disk: seq<u8>, pfn: u32, last: u16, n: nat, mem': Ram)
    requires RingInRam(mem, pfn) && 0 < n <= QUEUE_SIZE && mem'.Valid()
    requires RingInRam(Serve(mem, disk, pfn, last).0, pfn)
    requires var m1, head := Serve(mem, disk, pfn, last).0, HeadOf(mem, pfn, last, 0);
             Used(mem, m1, pfn, head, Request(mem, disk, Base(pfn), head).written)
    requires var (m1, d1) := Serve(mem, disk, pfn, last); Fifo(m1, d1, pfn, (last + 1) % 0x1_0000, n - 1, mem')
    ensures Fifo(mem, disk, pfn, last, n, mem')
  {
    hide RingInRam, Serve, SameFront, UsedIndex, UsedEntry, HeadOf, WrittenBy, UsedSlot, Request;
    InRam(mem, pfn);
    var (m1, d1) := Serve(mem, disk, pfn, last);
    var u: nat := UsedIndex(mem, pfn);
    Division.ModShift(u + 1, n - 1, 0x1_0000);
    FirstUsed(mem, disk, pfn, last);
    forall k: nat | k < n
      ensures UsedEntry(mem', pfn, UsedSlot(u, k))
           == (HeadOf(mem, pfn, last, k) as u32, WrittenBy(mem, disk, pfn, last, k))
    {
      if k > 0 {
        LaterUsed(mem, disk, pfn, last, k - 1);
      } else {
        forall i: nat | i < n - 1 ensures UsedSlot(UsedIndex(m1, pfn), i) != UsedSlot(u, 0) {
          LaterUsed(mem, disk, pfn, last, i);
          DistinctSlots(u, 0, i + 1);
        }
      }
    }
    forall j: nat | j < QUEUE_SIZE && forall k: nat :: k < n ==> UsedSlot(u, k) != j
      ensures UsedEntry(mem', pfn, j) == UsedEntry(mem, pfn, j)
    {
      assert UsedSlot(u, 0) != j;
      forall i: nat | i < n - 1 ensures UsedSlot(UsedIndex(m1, pfn), i) != j {
        LaterUsed(mem, disk, pfn, last, i);
        assert UsedSlot(u, i + 1) != j;
      }
    }
  }

  lemma FirstUsed(mem: Ram, disk: seq<u8>, pfn: u32, last: u16)
    requires mem.Valid()
    ensures WrittenBy(mem, disk, pfn, last, 0) == Request(mem, disk, Base(pfn), HeadOf(mem, pfn, last, 0)).written
    ensures UsedSlot(UsedIndex(mem, pfn), 0) == UsedIndex(mem, pfn) % QUEUE_SIZE
  {
    hide Request, HeadOf, UsedIndex;
  }

  /** Slots, heads and counts, seen from the state after the first request. */
  lemma LaterUsed(mem: Ram, disk: seq<u8>, pfn: u32, last: u16, k: nat)
    requires RingInRam(mem, pfn) && RingInRam(Serve(mem, disk, pfn, last).0, pfn)
    requires var m1, head := Serve(mem, disk, pfn, last).0, HeadOf(mem, pfn, last, 0);
             Used(mem, m1, pfn, head, Request(mem, disk, Base(pfn), head).written)
    ensures var (m1, d1) := Serve(mem, disk, pfn, last);
            var last1 := (last + 1) % 0x1_0000;
            && UsedSlot(UsedIndex(m1, pfn), k) == UsedSlot(UsedIndex(mem, pfn), k + 1)
            && HeadOf(m1, pfn, last1, k) == HeadOf(mem, pfn, last, k + 1)
            && WrittenBy(m1, d1, pfn, last1, k) == WrittenBy(mem, disk, pfn, last, k + 1)
  {
    hide RingInRam, Serve, SameFront, UsedIndex, UsedEntry, HeadOf, Request, UsedSlot;
    InRam(mem, pfn);
    var m1 := Serve(mem, disk, pfn, last).0;
    NextSlot(UsedIndex(mem, pfn), k);
    NextHead(mem, m1, pfn, last, k);
  }
}
