/** Block requests: what a chain of descriptors asks for, and what carrying it
    out does to the image and to the guest's memory. */
module Virtio {
  import opened Words
  import opened Memory
  import Division

  const QUEUE_SIZE: nat := 128
  const SECTOR: nat := 512

  const T_IN: nat := 0
  const T_OUT: nat := 1
  const T_FLUSH: nat := 4
  const T_GET_ID: nat := 8

  const S_OK: u8 := 0
  const S_IOERR: u8 := 1
  const S_UNSUPP: u8 := 2

  datatype Desc = Desc(addr: u64, len: u32, flags: u16, next: u16)

  predicate HasNext(d: Desc) { d.flags % 2 == 1 }
  predicate DeviceWritable(d: Desc) { d.flags / 2 % 2 == 1 }

  // ---- The descriptor chain ----

  function DescAt(mem: Ram, desc: nat, index: u16): Desc
    requires mem.Valid()
  {
    var entry := desc + index * 16;
    Desc(ReadU64(mem, entry), ReadU32(mem, entry + 8), ReadU16(mem, entry + 12), ReadU16(mem, entry + 14))
  }

  /** At most `n` descriptors from `index` on: a loop in the chain is cut off. */
  function Chain(mem: Ram, desc: nat, index: u16, n: nat): (chain: seq<Desc>)
    requires mem.Valid()
    ensures |chain| <= n
    decreases n
  {
    if n == 0 then []
    else
      var d := DescAt(mem, desc, index);
      [d] + if HasNext(d) then Chain(mem, desc, d.next, n - 1) else []
  }

  // ---- The buffers as one list of addresses ----

  /** Byte `i` of a buffer, in 64-bit address arithmetic. */
  function ByteAddr(addr: u64, i: nat): (a: nat)
    ensures a < TWO64
  {
    Wrap64(addr + i)
  }

  function Spread(addr: u64, len: nat): (addrs: seq<nat>)
    ensures |addrs| == len
  {
    seq<nat>(len, i requires 0 <= i < len => ByteAddr(addr, i))
  }

  function Flat(bufs: seq<Desc>): (addrs: seq<nat>) {
    if bufs == [] then [] else Spread(bufs[0].addr, bufs[0].len) + Flat(bufs[1..])
  }

  function Total(bufs: seq<Desc>): (n: nat)
    ensures n == |Flat(bufs)|
  {
    if bufs == [] then 0 else bufs[0].len + Total(bufs[1..])
  }

  function ReadBytes(mem: Ram, addrs: seq<nat>): (bytes: seq<u8>)
    requires mem.Valid()
    ensures |bytes| == |addrs|
  {
    seq(|addrs|, i requires 0 <= i < |addrs| => ReadU8(mem, addrs[i]))
  }

  function PutBytes(mem: Ram, addrs: seq<nat>, bytes: seq<u8>): (mem': Ram)
    requires mem.Valid() && |addrs| == |bytes|
    ensures mem'.Valid() && |mem'.data| == |mem.data|
    decreases |addrs|
  {
    if addrs == [] then mem else PutBytes(WriteU8(mem, addrs[0], bytes[0]), addrs[1..], bytes[1..])
  }

  // ---- Carrying out a request, in the order the device does ----

  /** From byte `i` of one buffer on: stop at the end of the image. */
  function InBuffer(mem: Ram, disk: seq<u8>, addr: u64, offset: u64, len: nat, i: nat): (r: (Ram, bool))
    requires mem.Valid() && i <= len
    ensures r.0.Valid() && |r.0.data| == |mem.data|
    decreases len - i
  {
    if i == len then (mem, true)
    else if Wrap64(offset + i) < |disk| then
      InBuffer(WriteU8(mem, ByteAddr(addr, i), disk[Wrap64(offset + i)]), disk, addr, offset, len, i + 1)
    else (mem, false)
  }

  /** A read: a buffer the device may not write ends it; a byte outside the image
      ends only its own buffer. */
  function In(mem: Ram, disk: seq<u8>, bufs: seq<Desc>, offset: u64): (r: (Ram, bool, u32))
    requires mem.Valid()
    ensures r.0.Valid() && |r.0.data| == |mem.data|
    decreases |bufs|
  {
    if bufs == [] then (mem, true, 0)
    else if !DeviceWritable(bufs[0]) then (mem, false, 0)
    else
      var len := bufs[0].len;
      var (m1, ok1) := InBuffer(mem, disk, bufs[0].addr, offset, len, 0);
      var (m2, ok2, written) := In(m1, disk, bufs[1..], Wrap64(offset + len));
      (m2, ok1 && ok2, Wrap32(len + written))
  }

  function OutBuffer(mem: Ram, disk: seq<u8>, addr: u64, offset: u64, len: nat, i: nat): (r: (seq<u8>, bool))
    requires mem.Valid() && i <= len
    ensures |r.0| == |disk|
    decreases len - i
  {
    if i == len then (disk, true)
    else
      var at := Wrap64(offset + i);
      if at < |disk| then OutBuffer(mem, disk[at := ReadU8(mem, ByteAddr(addr, i))], addr, offset, len, i + 1)
      else (disk, false)
  }

  /** A write takes its data from every buffer, whatever the flags say. */
  function Out(mem: Ram, disk: seq<u8>, bufs: seq<Desc>, offset: u64): (r: (seq<u8>, bool))
    requires mem.Valid()
    ensures |r.0| == |disk|
    decreases |bufs|
  {
    if bufs == [] then (disk, true)
    else
      var (d1, ok1) := OutBuffer(mem, disk, bufs[0].addr, offset, bufs[0].len, 0);
      var (d2, ok2) := Out(mem, d1, bufs[1..], Wrap64(offset + bufs[0].len));
      (d2, ok1 && ok2)
  }

  function ZeroBuffer(mem: Ram, addr: u64, len: nat, i: nat): (mem': Ram)
    requires mem.Valid() && i <= len
    ensures mem'.Valid() && |mem'.data| == |mem.data|
    decreases len - i
  {
    if i == len then mem else ZeroBuffer(WriteU8(mem, ByteAddr(addr, i), 0), addr, len, i + 1)
  }

  /** The identity string is blank. */
  function GetId(mem: Ram, bufs: seq<Desc>): (r: (Ram, u32))
    requires mem.Valid()
    ensures r.0.Valid() && |r.0.data| == |mem.data|
    decreases |bufs|
  {
    if bufs == [] then (mem, 0)
    else
      var (m2, written) := GetId(ZeroBuffer(mem, bufs[0].addr, bufs[0].len, 0), bufs[1..]);
      (m2, Wrap32(bufs[0].len + written))
  }

  /** The state after a request, and the byte count reported for it. */
  datatype Done = Done(mem: Ram, disk: seq<u8>, written: u32)

  function StatusOf(ok: bool): u8 { if ok then S_OK else S_IOERR }

  function Finish(mem: Ram, disk: seq<u8>, written: u32, statusAt: u64, status: u8): (d: Done)
    requires mem.Valid()
    ensures d.mem.Valid() && |d.mem.data| == |mem.data|
  {
    Done(WriteU8(mem, statusAt, status), disk, Wrap32(written + 1))
  }

  function Dispatch(mem: Ram, disk: seq<u8>, kind: u32, sector: u64, bufs: seq<Desc>, statusAt: u64): (d: Done)
    requires mem.Valid()
    ensures d.mem.Valid() && |d.mem.data| == |mem.data| && |d.disk| == |disk|
  {
    var offset := Wrap64(sector * SECTOR);
    if kind == T_IN then
      var (m, ok, written) := In(mem, disk, bufs, offset);
      Finish(m, disk, written, statusAt, StatusOf(ok))
    else if kind == T_OUT then
      var (d, ok) := Out(mem, disk, bufs, offset);
      Finish(mem, d, 0, statusAt, StatusOf(ok))
    else if kind == T_FLUSH then Finish(mem, disk, 0, statusAt, S_OK)
    else if kind == T_GET_ID then
      var (m, written) := GetId(mem, bufs);
      Finish(m, disk, written, statusAt, S_OK)
    else Finish(mem, disk, 0, statusAt, S_UNSUPP)
  }

  /** The first descriptor is the header, the last the status byte; what lies
      between is data. A shorter chain is dropped. */
  function Request(mem: Ram, disk: seq<u8>, desc: nat, head: u16): (d: Done)
    requires mem.Valid()
    ensures d.mem.Valid() && |d.mem.data| == |mem.data| && |d.disk| == |disk|
  {
    var chain := Chain(mem, desc, head, QUEUE_SIZE);
    if |chain| < 2 then Done(mem, disk, 0)
    else
      var hdr := chain[0].addr;
      Dispatch(mem, disk, ReadU32(mem, hdr), ReadU64(mem, Wrap64(hdr + 8)),
               chain[1..|chain| - 1], chain[|chain| - 1].addr)
  }

  // ---- The queue ----

  /** Addresses of the descriptor table and the two rings: the used ring starts
      on the next page boundary. */
  function Ring(pfn: u32): (r: (nat, nat, nat)) {
    var desc := pfn * 4096;
    var avail := desc + 16 * QUEUE_SIZE;
    var unaligned := avail + 4 + 2 * QUEUE_SIZE + 2;
    (desc, avail, (unaligned + 4095) / 4096 * 4096)
  }

  /** The rings that the device derives from the page frame. */
  lemma RingsAre(pfn: u32)
    ensures Ring(pfn) == (pfn * 4096, pfn * 4096 + 2048, pfn * 4096 + 4096)
  {
    Division.DivUnique(pfn * 4096 + 2048 + 4 + 256 + 2 + 4095, 4096, pfn + 1, 2309);
  }

  function HeadAt(mem: Ram, avail: nat, index: u16): u16
    requires mem.Valid()
  {
    ReadU16(mem, avail + 4 + index % QUEUE_SIZE * 2)
  }

  /** The used entry for one finished request, and the index behind it. */
  function PutUsed(mem: Ram, used: nat, head: u16, written: u32): (mem': Ram)
    requires mem.Valid()
    ensures mem'.Valid() && |mem'.data| == |mem.data|
  {
    var entry := used + 4 + ReadU16(mem, used + 2) % QUEUE_SIZE * 8;
    var m1 := WriteWide(mem, entry, 4, head);
    var m2 := WriteWide(m1, entry + 4, 4, written);
    WriteWide(m2, used + 2, 2, (ReadU16(m2, used + 2) + 1) % 0x1_0000)
  }

  /** Requests still to take from the available ring: the indices run freely. */
  function Pending(last: u16, avail: u16): (n: nat)
    ensures n < 0x1_0000
  {
    (avail - last) % 0x1_0000
  }

  function Serve(mem: Ram, disk: seq<u8>, pfn: u32, last: u16): (r: (Ram, seq<u8>))
    requires mem.Valid()
    ensures r.0.Valid() && |r.0.data| == |mem.data| && |r.1| == |disk|
  {
    var (desc, avail, used) := Ring(pfn);
    var head := HeadAt(mem, avail, last);
    var d := Request(mem, disk, desc, head);
    (PutUsed(d.mem, used, head, d.written), d.disk)
  }

  /** `n` requests, from free-running index `last` on. */
  function ServeAll(mem: Ram, disk: seq<u8>, pfn: u32, last: u16, n: nat): (r: (Ram, seq<u8>))
    requires mem.Valid()
    ensures r.0.Valid() && |r.0.data| == |mem.data| && |r.1| == |disk|
    decreases n
  {
    if n == 0 then (mem, disk)
    else
      var (m, d) := Serve(mem, disk, pfn, last);
      ServeAll(m, d, pfn, (last + 1) % 0x1_0000, n - 1)
  }
}
