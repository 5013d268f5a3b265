/** The block device under scatter/gather: however a request is cut into buffers,
    it is one transfer between a range of the image and one list of bytes. */
module VirtioBlocks {
  import opened Words
  import opened Memory
  import opened SplitAccess
  import opened Virtio
  import Division

  // ---- Descriptors as they lie in memory ----

  function TableEntry(desc: nat, index: u16): nat { desc + 16 * (index as int) }

  predicate Links(mem: Ram, desc: nat, index: u16, next: u16)
    requires mem.Valid()
  {
    ReadU16(mem, TableEntry(desc, index) + 12) % 2 == 1 && ReadU16(mem, TableEntry(desc, index) + 14) == next
  }

  /** `idx` are the table indices of the chain from `head`: each entry but the last has
      bit 0 of its flags set and the next index behind them; the last has not, unless
      the chain is cut at 128. */
  ghost predicate Linked(mem: Ram, desc: nat, head: u16, idx: seq<u16>)
    requires mem.Valid()
  {
    && 1 <= |idx| <= 128 && idx[0] == head
    && (forall i :: 0 <= i < |idx| - 1 ==> Links(mem, desc, idx[i], idx[i + 1]))
    && (|idx| < 128 ==> ReadU16(mem, TableEntry(desc, idx[|idx| - 1]) + 12) % 2 == 0)
  }

  /** The descriptor read from table entry `index`, and the buffer it names. */
  ghost predicate Describes(mem: Ram, desc: nat, index: u16, d: Desc)
    requires mem.Valid()
  {
    && d.addr == ReadU64(mem, TableEntry(desc, index)) && d.len == ReadU32(mem, TableEntry(desc, index) + 8)
    && d.flags == ReadU16(mem, TableEntry(desc, index) + 12) && d.next == ReadU16(mem, TableEntry(desc, index) + 14)
    && (DeviceWritable(d) <==> d.flags % 4 >= 2)
    && forall i :: 0 <= i < d.len ==> Spread(d.addr, d.len)[i] == (d.addr + i) % TWO64
  }

  lemma DescriptorIs(mem: Ram, desc: nat, index: u16)
    requires mem.Valid()
    ensures Describes(mem, desc, index, DescAt(mem, desc, index))
    ensures HasNext(DescAt(mem, desc, index)) <==> ReadU16(mem, TableEntry(desc, index) + 12) % 2 == 1
  {
    hide ReadU16, ReadU32, ReadU64;
  }

  /** The first `n` descriptors of a chain, when it has that many. */
  lemma {:induction false} ChainFrom(mem: Ram, desc: nat, index: u16, n: nat) returns (idx: seq<u16>)
    requires mem.Valid() && 1 <= n <= 128
    ensures 1 <= |idx| <= n && idx[0] == index
    ensures forall i :: 0 <= i < |idx| - 1 ==> Links(mem, desc, idx[i], idx[i + 1])
    ensures |idx| < n ==> ReadU16(mem, TableEntry(desc, idx[|idx| - 1]) + 12) % 2 == 0
    ensures var chain := Chain(mem, desc, index, n);
            && |chain| == |idx|
            && forall i :: 0 <= i < |idx| ==> Describes(mem, desc, idx[i], chain[i])
    decreases n
  {
    hide ReadU16, ReadU32, ReadU64, HasNext, DescAt, Describes;
    DescriptorIs(mem, desc, index);
    var d := DescAt(mem, desc, index);
    if HasNext(d) && n > 1 {
      var rest := ChainFrom(mem, desc, d.next, n - 1);
      NextIs(mem, desc, index);
      idx := [index] + rest;
    } else {
      assert Chain(mem, desc, d.next, 0) == [];
      idx := [index];
    }
  }

  lemma NextIs(mem: Ram, desc: nat, index: u16)
    requires mem.Valid()
    ensures DescAt(mem, desc, index).next == ReadU16(mem, TableEntry(desc, index) + 14)
  {
    hide ReadU16, ReadU32, ReadU64;
  }

  /** There is one such list of indices. */
  lemma {:induction false} LinkedOnce(mem: Ram, desc: nat, head: u16, idx: seq<u16>, jdx: seq<u16>, k: nat)
    requires mem.Valid() && Linked(mem, desc, head, idx) && Linked(mem, desc, head, jdx) && k < |idx|
    ensures k < |jdx| && jdx[k] == idx[k]
    decreases k
  {
    hide ReadU16;
    if k > 0 {
      LinkedOnce(mem, desc, head, idx, jdx, k - 1);
      assert Links(mem, desc, idx[k - 1], idx[k]);
    }
  }

  /** The chain the device collects is the list of descriptors linked from the head. */
  lemma ChainMeans(mem: Ram, desc: nat, head: u16, idx: seq<u16>)
    requires mem.Valid() && Linked(mem, desc, head, idx)
    ensures var chain := Chain(mem, desc, head, QUEUE_SIZE);
            && |chain| == |idx|
            && forall i :: 0 <= i < |idx| ==> Describes(mem, desc, idx[i], chain[i])
  {
    hide ReadU16, Describes, Chain;
    var jdx := ChainFrom(mem, desc, head, 128);
    forall k: nat | k < |idx| ensures k < |jdx| && jdx[k] == idx[k] { LinkedOnce(mem, desc, head, idx, jdx, k); }
    forall k: nat | k < |jdx| ensures k < |idx| && jdx[k] == idx[k] { LinkedOnce(mem, desc, head, jdx, idx, k); }
    LinkedOnce(mem, desc, head, idx, jdx, |idx| - 1);
    LinkedOnce(mem, desc, head, jdx, idx, |jdx| - 1);
    assert idx == jdx;
  }

  /** ... and from every head there is one. */
  lemma ChainExists(mem: Ram, desc: nat, head: u16) returns (idx: seq<u16>)
    requires mem.Valid()
    ensures Linked(mem, desc, head, idx)
  {
    idx := ChainFrom(mem, desc, head, 128);
  }

  // ---- What the guest asked for ----

  ghost predicate AllWritable(bufs: seq<Desc>) { forall i :: 0 <= i < |bufs| ==> DeviceWritable(bufs[i]) }

  predicate InImage(disk: seq<u8>, start: nat, n: nat) { n == 0 || start + n <= |disk| }

  /** `disk` with `bytes` laid over it from `start` on, as far as it goes. */
  ghost predicate Overlaid(disk: seq<u8>, start: nat, bytes: seq<u8>, disk': seq<u8>) {
    && |disk'| == |disk|
    && forall k :: 0 <= k < |disk| ==> disk'[k] == if start <= k < start + |bytes| then bytes[k - start] else disk[k]
  }

  function Least(a: nat, b: nat): nat { if a < b then a else b }

  /** What the image has of the `n` bytes from `start` on. */
  function Part(disk: seq<u8>, start: nat, n: nat): (bytes: seq<u8>)
    ensures |bytes| <= n
  {
    disk[Least(start, |disk|)..Least(start + n, |disk|)]
  }

  /** `m` is `mem` with the image from `start` on put at `addrs`, as far as it goes. */
  ghost predicate Filled(mem: Ram, addrs: seq<nat>, disk: seq<u8>, start: nat, m: Ram)
    requires mem.Valid()
  {
    var bytes := Part(disk, start, |addrs|);
    m == PutBytes(mem, addrs[..|bytes|], bytes)
  }

  /** The buffers before the first that the device may not write. */
  function Usable(bufs: seq<Desc>): (r: seq<Desc>)
    ensures AllWritable(bufs) ==> r == bufs
    ensures r == bufs ==> AllWritable(bufs)
  {
    if bufs == [] || !DeviceWritable(bufs[0]) then [] else [bufs[0]] + Usable(bufs[1..])
  }

  // ---- Lists of bytes ----

  lemma {:induction false} PutAppend(mem: Ram, a: seq<nat>, b: seq<nat>, x: seq<u8>, y: seq<u8>)
    requires mem.Valid() && |a| == |x| && |b| == |y|
    ensures PutBytes(mem, a + b, x + y) == PutBytes(PutBytes(mem, a, x), b, y)
    decreases |a|
  {
    if a == [] {
      assert a + b == b && x + y == y;
    } else {
      assert (a + b)[1..] == a[1..] + b && (x + y)[1..] == x[1..] + y;
      PutAppend(WriteU8(mem, a[0], x[0]), a[1..], b, x[1..], y);
    }
  }

  lemma {:induction false} PutFrame(mem: Ram, addrs: seq<nat>, bytes: seq<u8>, a: nat)
    requires mem.Valid() && |addrs| == |bytes| && a !in addrs
    ensures ReadU8(PutBytes(mem, addrs, bytes), a) == ReadU8(mem, a)
    decreases |addrs|
  {
    if addrs != [] {
      PutFrame(WriteU8(mem, addrs[0], bytes[0]), addrs[1..], bytes[1..], a);
    }
  }

  lemma {:induction false} PutThenRead(mem: Ram, addrs: seq<nat>, bytes: seq<u8>, i: nat)
    requires mem.Valid() && |addrs| == |bytes| && Distinct(addrs) && AllBacked(mem, addrs) && i < |addrs|
    ensures ReadU8(PutBytes(mem, addrs, bytes), addrs[i]) == bytes[i]
    decreases |addrs|
  {
    var m1 := WriteU8(mem, addrs[0], bytes[0]);
    if i == 0 {
      assert addrs[0] in addrs;
      PutFrame(m1, addrs[1..], bytes[1..], addrs[0]);
    } else {
      forall a | a in addrs[1..] ensures Slot(m1, a).Some? { assert a in addrs; assert Slot(mem, a).Some?; }
      PutThenRead(m1, addrs[1..], bytes[1..], i - 1);
    }
  }

  // ---- One buffer ----

  lemma Unwrapped(offset: u64, i: nat)
    requires offset + i < TWO64
    ensures Wrap64(offset + i) == offset + i
  {
  }

  lemma {:induction false} InBufferIs(mem: Ram, disk: seq<u8>, addr: u64, offset: u64, len: nat, i: nat)
    requires mem.Valid() && i <= len && offset + len < TWO64
    ensures var (m, ok) := InBuffer(mem, disk, addr, offset, len, i);
            && (ok <==> InImage(disk, offset + i, len - i))
            && Filled(mem, Spread(addr, len)[i..], disk, offset + i, m)
    decreases len - i
  {
    hide Wrap64, Slot, ReadU8;
    var all := Spread(addr, len);
    if i == len || offset + i >= |disk| {
      Unwrapped(offset, i);
      assert Part(disk, offset + i, len - i) == [];
    } else {
      Unwrapped(offset, i);
      var at := offset + i;
      var m1 := WriteU8(mem, all[i], disk[at]);
      InBufferIs(m1, disk, addr, offset, len, i + 1);
      assert all[i..] == [all[i]] + all[i + 1..];
      FillOne(mem, all[i], disk, at);
      FillAppend(mem, [all[i]], all[i + 1..], disk, at, m1, InBuffer(m1, disk, addr, offset, len, i + 1).0);
    }
  }

  lemma FillOne(mem: Ram, a: nat, disk: seq<u8>, at: nat)
    requires mem.Valid() && at < |disk|
    ensures Filled(mem, [a], disk, at, WriteU8(mem, a, disk[at]))
  {
    var m1 := WriteU8(mem, a, disk[at]);
    assert Part(disk, at, 1) == [disk[at]];
    assert [a][..1] == [a] && [a][1..] == [] && [disk[at]][1..] == [];
    assert PutBytes(m1, [], []) == m1;
  }

  /** Two runs of addresses filled one after the other. */
  lemma FillAppend(mem: Ram, a: seq<nat>, b: seq<nat>, disk: seq<u8>, at: nat, m1: Ram, m: Ram)
    requires mem.Valid() && m1.Valid() && Filled(mem, a, disk, at, m1) && Filled(m1, b, disk, at + |a|, m)
    ensures Filled(mem, a + b, disk, at, m)
  {
    var x, y := Part(disk, at, |a|), Part(disk, at + |a|, |b|);
    assert Part(disk, at, |a| + |b|) == x + y;
    assert (a + b)[..|x + y|] == a[..|x|] + b[..|y|];
    PutAppend(mem, a[..|x|], b[..|y|], x, y);
  }

  lemma OneByte(mem: Ram, b: nat, v: u8, a: nat)
    requires mem.Valid() && a != b
    ensures ReadU8(WriteU8(mem, b, v), a) == ReadU8(mem, a)
  {
  }

  lemma {:induction false} OutBufferIs(mem: Ram, disk: seq<u8>, addr: u64, offset: u64, len: nat, i: nat)
    requires mem.Valid() && i <= len && offset + len < TWO64
    ensures var (d, ok) := OutBuffer(mem, disk, addr, offset, len, i);
            && (ok <==> InImage(disk, offset + i, len - i))
            && Overlaid(disk, offset + i, ReadBytes(mem, Spread(addr, len)[i..]), d)
    decreases len - i
  {
    hide Wrap64, ReadU8;
    if i < len {
      Unwrapped(offset, i);
      var at := offset + i;
      if at < |disk| {
        OutBufferIs(mem, disk[at := ReadU8(mem, ByteAddr(addr, i))], addr, offset, len, i + 1);
      }
    }
  }

  // ---- All the buffers ----

  lemma {:induction false} InIs(mem: Ram, disk: seq<u8>, bufs: seq<Desc>, offset: u64)
    requires mem.Valid() && offset + Total(bufs) < TWO64
    ensures var (m, ok, written) := In(mem, disk, bufs, offset);
            && (ok <==> AllWritable(bufs) && InImage(disk, offset, Total(bufs)))
            && Filled(mem, Flat(Usable(bufs)), disk, offset, m) && written == Total(Usable(bufs)) % TWO32
    decreases |bufs|
  {
    hide InBuffer, PutBytes, ReadU8, Spread, DeviceWritable, Filled, Part;
    if bufs == [] || !DeviceWritable(bufs[0]) {
      NothingFilled(mem, disk, offset);
      if bufs != [] { FirstAndRest(bufs); }
    } else {
      var b, rest := bufs[0], bufs[1..];
      FirstAndRest(bufs);
      Unwrapped(offset, b.len);
      InBufferIs(mem, disk, b.addr, offset, b.len, 0);
      WholeSlice(Spread(b.addr, b.len));
      var m1 := InBuffer(mem, disk, b.addr, offset, b.len, 0).0;
      InIs(m1, disk, rest, offset + b.len);
      Division.ModShift(Total(Usable(rest)), b.len, TWO32);
      FillAppend(mem, Spread(b.addr, b.len), Flat(Usable(rest)), disk, offset, m1, In(mem, disk, bufs, offset).0);
      assert Usable(bufs)[1..] == Usable(rest);
    }
  }

  lemma NothingFilled(mem: Ram, disk: seq<u8>, offset: nat)
    requires mem.Valid()
    ensures Filled(mem, [], disk, offset, mem)
  {
  }

  lemma FirstAndRest(bufs: seq<Desc>)
    requires bufs != []
    ensures AllWritable(bufs) <==> DeviceWritable(bufs[0]) && AllWritable(bufs[1..])
  {
    forall i | 0 < i < |bufs| && AllWritable(bufs[1..]) ensures DeviceWritable(bufs[i]) {
      assert bufs[1..][i - 1] == bufs[i];
    }
  }

  lemma WholeSlice(s: seq<nat>)
    ensures s[0..] == s
  {
  }

  lemma {:induction false} OutIs(mem: Ram, disk: seq<u8>, bufs: seq<Desc>, offset: u64)
    requires mem.Valid() && offset + Total(bufs) < TWO64
    ensures var (d, ok) := Out(mem, disk, bufs, offset);
            && (ok <==> InImage(disk, offset, Total(bufs)))
            && Overlaid(disk, offset, ReadBytes(mem, Flat(bufs)), d)
    decreases |bufs|
  {
    hide OutBuffer, ReadU8, Spread;
    if bufs != [] {
      var b, rest := bufs[0], bufs[1..];
      Unwrapped(offset, b.len);
      OutBufferIs(mem, disk, b.addr, offset, b.len, 0);
      WholeSlice(Spread(b.addr, b.len));
      var d1 := OutBuffer(mem, disk, b.addr, offset, b.len, 0).0;
      OutIs(mem, d1, rest, offset + b.len);
      assert ReadBytes(mem, Flat(bufs)) == ReadBytes(mem, Spread(b.addr, b.len)) + ReadBytes(mem, Flat(rest));
    }
  }

  lemma {:induction false} ZeroFrame(mem: Ram, addr: u64, len: nat, i: nat, a: nat)
    requires mem.Valid() && i <= len && a !in Spread(addr, len)
    ensures ReadU8(ZeroBuffer(mem, addr, len, i), a) == ReadU8(mem, a)
    decreases len - i
  {
    hide Wrap64, Slot;
    if i < len {
      assert Spread(addr, len)[i] == ByteAddr(addr, i);
      OneByte(mem, ByteAddr(addr, i), 0, a);
      ZeroFrame(WriteU8(mem, ByteAddr(addr, i), 0), addr, len, i + 1, a);
    }
  }

  lemma {:induction false} GetIdFrame(mem: Ram, bufs: seq<Desc>, a: nat)
    requires mem.Valid() && a !in Flat(bufs)
    ensures ReadU8(GetId(mem, bufs).0, a) == ReadU8(mem, a)
    decreases |bufs|
  {
    hide ZeroBuffer, Spread, ReadU8;
    if bufs != [] {
      ZeroFrame(mem, bufs[0].addr, bufs[0].len, 0, a);
      GetIdFrame(ZeroBuffer(mem, bufs[0].addr, bufs[0].len, 0), bufs[1..], a);
    }
  }

  lemma {:induction false} InBufferFrame(mem: Ram, disk: seq<u8>, addr: u64, offset: u64, len: nat, i: nat, a: nat)
    requires mem.Valid() && i <= len && a !in Spread(addr, len)
    ensures ReadU8(InBuffer(mem, disk, addr, offset, len, i).0, a) == ReadU8(mem, a)
    decreases len - i
  {
    hide Wrap64, Slot;
    if i < len && Wrap64(offset + i) < |disk| {
      assert Spread(addr, len)[i] == ByteAddr(addr, i);
      OneByte(mem, ByteAddr(addr, i), disk[Wrap64(offset + i)], a);
      InBufferFrame(WriteU8(mem, ByteAddr(addr, i), disk[Wrap64(offset + i)]), disk, addr, offset, len, i + 1, a);
    }
  }

  lemma {:induction false} InFrame(mem: Ram, disk: seq<u8>, bufs: seq<Desc>, offset: u64, a: nat)
    requires mem.Valid() && a !in Flat(bufs)
    ensures ReadU8(In(mem, disk, bufs, offset).0, a) == ReadU8(mem, a)
    decreases |bufs|
  {
    hide InBuffer, Spread, ReadU8;
    if bufs != [] && DeviceWritable(bufs[0]) {
      var len := bufs[0].len;
      InBufferFrame(mem, disk, bufs[0].addr, offset, len, 0, a);
      InFrame(InBuffer(mem, disk, bufs[0].addr, offset, len, 0).0, disk, bufs[1..], Wrap64(offset + len), a);
    }
  }

  // ---- Whole requests ----

  /** A chain taken apart. */
  datatype Parts = Parts(kind: u32, sector: u64, bufs: seq<Desc>, statusAt: u64)

  function PartsOf(mem: Ram, chain: seq<Desc>): Parts
    requires mem.Valid() && |chain| >= 2
  {
    Parts(ReadU32(mem, chain[0].addr), ReadU64(mem, Wrap64(chain[0].addr + 8)),
          chain[1..|chain| - 1], chain[|chain| - 1].addr)
  }

  /** Where a request may write in the guest's memory. */
  function Footprint(chain: seq<Desc>): seq<nat> {
    if |chain| < 2 then [] else Flat(chain[1..|chain| - 1]) + [chain[|chain| - 1].addr]
  }

  /** No request of any kind writes outside its data buffers and status byte. */
  lemma RequestFrame(mem: Ram, disk: seq<u8>, desc: nat, head: u16, a: nat)
    requires mem.Valid() && a !in Footprint(Chain(mem, desc, head, QUEUE_SIZE))
    ensures ReadU8(Request(mem, disk, desc, head).mem, a) == ReadU8(mem, a)
  {
    hide Chain, In, Out, GetId, ReadU8, ReadU32, ReadU64, Flat, Wrap64;
    var chain := Chain(mem, desc, head, QUEUE_SIZE);
    if |chain| >= 2 {
      var p := PartsOf(mem, chain);
      var offset := Wrap64(p.sector * SECTOR);
      InFrame(mem, disk, p.bufs, offset, a);
      GetIdFrame(mem, p.bufs, a);
      forall m: Ram, v: u8 | m.Valid() ensures ReadU8(WriteU8(m, p.statusAt, v), a) == ReadU8(m, a) {
        OneByte(m, p.statusAt, v, a);
      }
    }
  }

  /** RAM answers at the status byte, and the byte range does not run off 64 bits. */
  predicate Reportable(mem: Ram, p: Parts)
    requires mem.Valid()
  {
    Slot(mem, p.statusAt).Some? && p.sector * SECTOR + Total(p.bufs) < TWO64
  }

  /** Buffers and status byte do not overlap, and RAM answers at all of them. */
  ghost predicate Exclusive(mem: Ram, p: Parts)
    requires mem.Valid()
  {
    var all := Flat(p.bufs) + [p.statusAt as nat];
    Distinct(all) && AllBacked(mem, all)
  }

  lemma ReadAllBytes(mem: Ram, addrs: seq<nat>, bytes: seq<u8>)
    requires mem.Valid() && |addrs| == |bytes| && Distinct(addrs) && AllBacked(mem, addrs)
    ensures ReadBytes(PutBytes(mem, addrs, bytes), addrs) == bytes
  {
    hide PutBytes, ReadU8;
    forall i: nat | i < |addrs| ensures ReadU8(PutBytes(mem, addrs, bytes), addrs[i]) == bytes[i] {
      PutThenRead(mem, addrs, bytes, i);
    }
  }

  /** The status byte goes last: it reads back, and misses the data it is apart from. */
  lemma StatusLast(mem: Ram, m: Ram, p: Parts, v: u8)
    requires mem.Valid() && m.Valid() && |m.data| == |mem.data| && Reportable(mem, p)
    ensures ReadU8(WriteU8(m, p.statusAt, v), p.statusAt) == v
    ensures Exclusive(mem, p) ==> ReadBytes(WriteU8(m, p.statusAt, v), Flat(p.bufs)) == ReadBytes(m, Flat(p.bufs))
  {
    hide Flat;
    var f, m' := Flat(p.bufs), WriteU8(m, p.statusAt, v);
    if Exclusive(mem, p) {
      var all := f + [p.statusAt as nat];
      forall i: nat | i < |f| ensures ReadU8(m', f[i]) == ReadU8(m, f[i]) {
        assert all[i] != all[|f|];
      }
    }
  }

  lemma ExclusiveData(mem: Ram, p: Parts)
    requires mem.Valid() && Exclusive(mem, p)
    ensures Distinct(Flat(p.bufs)) && AllBacked(mem, Flat(p.bufs))
  {
    hide Flat, Slot;
    var f := Flat(p.bufs);
    var all := f + [p.statusAt as nat];
    forall i, j | 0 <= i < j < |f| ensures f[i] != f[j] { assert all[i] != all[j]; }
    forall a | a in f ensures Slot(mem, a).Some? { assert a in all; }
  }

  /** IN. The guest sees OK exactly when every buffer is device-writable and the whole
      range lies in the image, else an I/O error; the image does not change. What the image
      has of the range has been put in order at the buffers' addresses, end to end, up to
      the first buffer that is not device-writable; so on OK, where the buffers are apart,
      they hold the range. The byte count is that of those buffers and the status byte. */
  lemma InRequest(mem: Ram, disk: seq<u8>, desc: nat, head: u16)
    requires mem.Valid() && |Chain(mem, desc, head, QUEUE_SIZE)| >= 2
    requires var p := PartsOf(mem, Chain(mem, desc, head, QUEUE_SIZE)); Reportable(mem, p) && p.kind == T_IN
    ensures var p, d := PartsOf(mem, Chain(mem, desc, head, QUEUE_SIZE)), Request(mem, disk, desc, head);
            var start, n, addrs := p.sector * SECTOR, Total(p.bufs), Flat(Usable(p.bufs));
            var bytes, ok := Part(disk, start, |addrs|), AllWritable(p.bufs) && InImage(disk, start, n);
            && d.disk == disk && d.written == (|addrs| + 1) % TWO32
            && d.mem == WriteU8(PutBytes(mem, addrs[..|bytes|], bytes), p.statusAt, if ok then 0 else 1)
            && ReadU8(d.mem, p.statusAt) == (if ok then 0 else 1)
            && (ok && n > 0 && Exclusive(mem, p) ==> ReadBytes(d.mem, Flat(p.bufs)) == disk[start..start + n])
  {
    hide Chain, In, Out, GetId, ReadU8, WriteU8, ReadU32, ReadU64, Flat, PutBytes, ReadBytes, Exclusive, Usable;
    var p := PartsOf(mem, Chain(mem, desc, head, QUEUE_SIZE));
    var start, n := p.sector * SECTOR, Total(p.bufs);
    Unwrapped(0, start);
    InIs(mem, disk, p.bufs, start);
    var (m, ok, written) := In(mem, disk, p.bufs, start);
    StatusLast(mem, m, p, StatusOf(ok));
    var addrs := Flat(Usable(p.bufs));
    Division.ModShift(|addrs|, 1, TWO32);
    if ok && n > 0 && Exclusive(mem, p) {
      ExclusiveData(mem, p);
      assert Part(disk, start, n) == disk[start..start + n] && addrs[..n] == Flat(p.bufs);
      ReadAllBytes(mem, Flat(p.bufs), disk[start..start + n]);
    }
  }

  /** OUT. The guest sees OK exactly when the whole range lies in the image, else an I/O
      error. The data, whatever bytes the buffers name, is laid over the range as far as
      the image goes; the rest of the image and its length stay, and only the status
      byte of guest memory changes. */
  lemma OutRequest(mem: Ram, disk: seq<u8>, desc: nat, head: u16)
    requires mem.Valid() && |Chain(mem, desc, head, QUEUE_SIZE)| >= 2
    requires var p := PartsOf(mem, Chain(mem, desc, head, QUEUE_SIZE)); Reportable(mem, p) && p.kind == T_OUT
    ensures var p, d := PartsOf(mem, Chain(mem, desc, head, QUEUE_SIZE)), Request(mem, disk, desc, head);
            var start, n := p.sector * SECTOR, Total(p.bufs);
            var status: u8 := if InImage(disk, start, n) then 0 else 1;
            && Overlaid(disk, start, ReadBytes(mem, Flat(p.bufs)), d.disk) && d.written == 1
            && d.mem == WriteU8(mem, p.statusAt, status) && ReadU8(d.mem, p.statusAt) == status
            && forall a: nat :: a != p.statusAt ==> ReadU8(d.mem, a) == ReadU8(mem, a)
  {
    hide Chain, In, Out, GetId, ReadU8, WriteU8, ReadU32, ReadU64, Flat, PutBytes, ReadBytes, Exclusive;
    var p := PartsOf(mem, Chain(mem, desc, head, QUEUE_SIZE));
    var start := p.sector * SECTOR;
    Unwrapped(0, start);
    OutIs(mem, disk, p.bufs, start);
    var ok := Out(mem, disk, p.bufs, start).1;
    StatusLast(mem, mem, p, StatusOf(ok));
    forall a: nat | a != p.statusAt ensures ReadU8(WriteU8(mem, p.statusAt, StatusOf(ok)), a) == ReadU8(mem, a) {
      OneByte(mem, p.statusAt, StatusOf(ok), a);
    }
  }

  /** The other kinds. A flush has nothing to do, an identity is blank, and anything
      else is refused; the image stays. */
  lemma OtherRequest(mem: Ram, disk: seq<u8>, desc: nat, head: u16)
    requires mem.Valid() && |Chain(mem, desc, head, QUEUE_SIZE)| >= 2
    requires var p := PartsOf(mem, Chain(mem, desc, head, QUEUE_SIZE));
             Slot(mem, p.statusAt).Some? && p.kind != 0 && p.kind != 1
    ensures var p, d := PartsOf(mem, Chain(mem, desc, head, QUEUE_SIZE)), Request(mem, disk, desc, head);
            && d.disk == disk && ReadU8(d.mem, p.statusAt) == (if p.kind == 4 || p.kind == 8 then 0 else 2)
            && d.written == ((if p.kind == 8 then Total(p.bufs) else 0) + 1) % TWO32
            && forall a: nat :: a != p.statusAt ==>
                 ReadU8(d.mem, a) ==
                   if p.kind == 8 && a in Flat(p.bufs) && Slot(mem, a).Some? then 0 else ReadU8(mem, a)
  {
    hide Chain, In, Out, GetId, ReadU8, WriteU8, ReadU32, ReadU64, Flat;
    var p := PartsOf(mem, Chain(mem, desc, head, QUEUE_SIZE));
    var m := if p.kind == 8 then GetId(mem, p.bufs).0 else mem;
    var v: u8 := if p.kind == 4 || p.kind == 8 then 0 else 2;
    StatusReads(m, p.statusAt, v);
    if p.kind == 8 { Blanked(mem, p.bufs); }
    Division.ModShift(if p.kind == 8 then Total(p.bufs) else 0, 1, TWO32);
    forall a: nat | a != p.statusAt
      ensures ReadU8(WriteU8(m, p.statusAt, v), a) ==
                if p.kind == 8 && a in Flat(p.bufs) && Slot(mem, a).Some? then 0 else ReadU8(mem, a)
    {
      OneByte(m, p.statusAt, v, a);
      if p.kind == 8 { GetIdMeans(mem, p.bufs, a); }
    }
  }

  lemma {:induction false} Blanked(mem: Ram, bufs: seq<Desc>)
    requires mem.Valid()
    ensures GetId(mem, bufs).1 == Total(bufs) % TWO32
    decreases |bufs|
  {
    hide ZeroBuffer, Flat;
    if bufs != [] {
      Blanked(ZeroBuffer(mem, bufs[0].addr, bufs[0].len, 0), bufs[1..]);
      Division.ModShift(Total(bufs[1..]), bufs[0].len, TWO32);
    }
  }

  /** A head without a next is no request: nothing happens and nothing is reported. */
  lemma LoneHead(mem: Ram, disk: seq<u8>, desc: nat, head: u16)
    requires mem.Valid() && ReadU16(mem, TableEntry(desc, head) + 12) % 2 == 0
    ensures Request(mem, disk, desc, head) == Done(mem, disk, 0)
  {
    hide ReadU16, ReadU32, ReadU64, DescAt, HasNext, Dispatch;
    DescriptorIs(mem, desc, head);
  }

  lemma StatusReads(m: Ram, a: nat, v: u8)
    requires m.Valid() && Slot(m, a).Some?
    ensures ReadU8(WriteU8(m, a, v), a) == v
  {
  }

  lemma {:induction false} ZeroMeans(mem: Ram, addr: u64, len: nat, i: nat, a: nat)
    requires mem.Valid() && i <= len
    ensures ReadU8(ZeroBuffer(mem, addr, len, i), a) ==
              if a in Spread(addr, len)[i..] && Slot(mem, a).Some? then 0 else ReadU8(mem, a)
    decreases len - i
  {
    if i < len {
      var m := WriteU8(mem, ByteAddr(addr, i), 0);
      ZeroMeans(m, addr, len, i + 1, a);
      assert Spread(addr, len)[i..] == [ByteAddr(addr, i)] + Spread(addr, len)[i + 1..];
      assert Slot(m, a) == Slot(mem, a);
    }
  }

  lemma {:induction false} GetIdMeans(mem: Ram, bufs: seq<Desc>, a: nat)
    requires mem.Valid()
    ensures ReadU8(GetId(mem, bufs).0, a) == if a in Flat(bufs) && Slot(mem, a).Some? then 0 else ReadU8(mem, a)
    decreases |bufs|
  {
    hide ReadU8, ZeroBuffer, Spread;
    if bufs != [] {
      var m := ZeroBuffer(mem, bufs[0].addr, bufs[0].len, 0);
      ZeroMeans(mem, bufs[0].addr, bufs[0].len, 0, a);
      assert Spread(bufs[0].addr, bufs[0].len)[0..] == Spread(bufs[0].addr, bufs[0].len);
      SameSlot(mem, m, a);
      GetIdMeans(m, bufs[1..], a);
    }
  }

  lemma SameSlot(mem: Ram, m: Ram, a: nat)
    requires mem.Valid() && m.Valid() && |m.data| == |mem.data|
    ensures Slot(m, a) == Slot(mem, a)
  {
  }

  /** What one request wrote, a later one of the same range reads back, however
      differently the two are cut into buffers. */
  lemma OutThenIn(mem1: Ram, disk: seq<u8>, desc1: nat, head1: u16, mem2: Ram, desc2: nat, head2: u16)
    requires mem1.Valid() && |Chain(mem1, desc1, head1, QUEUE_SIZE)| >= 2
    requires mem2.Valid() && |Chain(mem2, desc2, head2, QUEUE_SIZE)| >= 2
    requires var p := PartsOf(mem1, Chain(mem1, desc1, head1, QUEUE_SIZE));
             var q := PartsOf(mem2, Chain(mem2, desc2, head2, QUEUE_SIZE));
             && Reportable(mem1, p) && Reportable(mem2, q) && Exclusive(mem2, q) && p.kind == T_OUT && q.kind == T_IN
             && q.sector == p.sector && Total(q.bufs) == Total(p.bufs) > 0 && AllWritable(q.bufs)
    ensures var p := PartsOf(mem1, Chain(mem1, desc1, head1, QUEUE_SIZE));
            var q := PartsOf(mem2, Chain(mem2, desc2, head2, QUEUE_SIZE));
            var w := Request(mem1, disk, desc1, head1);
            var r := Request(mem2, w.disk, desc2, head2);
            ReadU8(w.mem, p.statusAt) == S_OK ==>
              && ReadU8(r.mem, q.statusAt) == S_OK
              && ReadBytes(r.mem, Flat(q.bufs)) == ReadBytes(mem1, Flat(p.bufs))
  {
    hide Chain, Request, ReadU8, WriteU8, ReadU32, ReadU64, Flat, Reportable, Exclusive;
    OutRequest(mem1, disk, desc1, head1);
    var w := Request(mem1, disk, desc1, head1);
    InRequest(mem2, w.disk, desc2, head2);
  }
}
