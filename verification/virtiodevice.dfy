/** The block device itself: registers, image and queue position, changed in
    place, with the requests' effect on the guest's memory. */
module VirtioDevice {
  import opened Words
  import opened Memory
  import opened Store
  import opened Virtio
  import Division

  class VirtioBlk {
    const disk: array<u8>
    var guestFeatures: u32
    var status: u8
    var queueSel: u16
    /** Where the ring lies, in pages; 0 until the driver programs it. */
    var queuePfn: u32
    var isr: u8
    var irq: bool
    /** The running index of the next available-ring slot to serve. */
    var lastAvail: u16

    constructor (image: seq<u8>)
      ensures fresh(disk) && disk[..] == image
      ensures queuePfn == 0 && lastAvail == 0 && isr == 0 && !irq
      ensures guestFeatures == 0 && status == 0 && queueSel == 0
    {
      disk := new u8[|image|](i requires 0 <= i < |image| => image[i]);
      guestFeatures, status, queueSel, queuePfn, isr, irq, lastAvail := 0, 0, 0, 0, 0, false, 0;
    }

    method FetchDesc(mem: PhysicalMemory, desc: nat, index: u16) returns (d: Desc)
      requires mem.Valid()
      ensures d == DescAt(mem.State(), desc, index)
    {
      var entry := desc + index * 16;
      var addr := mem.LoadU64(entry);
      var len := mem.LoadU32(entry + 8);
      var flags := mem.LoadU16(entry + 12);
      var next := mem.LoadU16(entry + 14);
      d := Desc(addr, len, flags, next);
    }

    method FetchChain(mem: PhysicalMemory, desc: nat, head: u16) returns (chain: seq<Desc>)
      requires mem.Valid()
      ensures chain == Chain(mem.State(), desc, head, QUEUE_SIZE)
    {
      hide DescAt, Chain, Ram.Valid;
      chain := [];
      var index := head;
      ghost var all := Chain(mem.State(), desc, head, QUEUE_SIZE);
      for i := 0 to QUEUE_SIZE
        invariant chain + Chain(mem.State(), desc, index, QUEUE_SIZE - i) == all
      {
        var d := FetchDesc(mem, desc, index);
        ChainUnfold(mem.State(), desc, index, QUEUE_SIZE - i);
        ghost var rest := if HasNext(d) then Chain(mem.State(), desc, d.next, QUEUE_SIZE - i - 1) else [];
        assert chain + ([d] + rest) == chain + [d] + rest;
        chain := chain + [d];
        if !HasNext(d) { return; }
        index := d.next;
      }
      ChainEnds(mem.State(), desc, index);
    }

    method ReadInto(mem: PhysicalMemory, bufs: seq<Desc>, start: u64) returns (ok: bool, written: u32)
      requires mem.Valid() && mem.data != disk
      modifies mem.data
      ensures mem.Valid()
      ensures (mem.State(), ok, written) == In(old(mem.State()), disk[..], bufs, start)
    {
      hide InBuffer, In, Ram.Valid, Wrap32, Wrap64;
      var offset := start;
      assert bufs[0..] == bufs;
      WrapNone(In(mem.State(), disk[..], bufs, start).2);
      ok, written := true, 0;
      for k := 0 to |bufs|
        invariant mem.Valid()
        invariant var (m, more, rest) := In(mem.State(), disk[..], bufs[k..], offset);
                  In(old(mem.State()), disk[..], bufs, start) == (m, ok && more, Wrap32(written + rest))
      {
        var b := bufs[k];
        InUnfold(mem.State(), disk[..], bufs, k, offset);
        if !DeviceWritable(b) {
          ok := false;
          WrapNone(written);
          return;
        }
        ghost var rest := In(InBuffer(mem.State(), disk[..], b.addr, offset, b.len, 0).0, disk[..], bufs[k + 1..],
                             Wrap64(offset as int + b.len)).2;
        var whole := ReadOne(mem, b, offset);
        ok := ok && whole;
        SumWritten(written, b.len, rest);
        offset, written := Wrap64(offset as int + b.len), Wrap32(written as int + b.len);
      }
      InEmpty(mem.State(), disk[..], bufs, offset);
      WrapNone(written);
    }

    method ReadOne(mem: PhysicalMemory, b: Desc, offset: u64) returns (ok: bool)
      requires mem.Valid() && mem.data != disk
      modifies mem.data
      ensures mem.Valid() && (mem.State(), ok) == InBuffer(old(mem.State()), disk[..], b.addr, offset, b.len, 0)
    {
      for i := 0 to b.len
        invariant mem.Valid()
        invariant InBuffer(mem.State(), disk[..], b.addr, offset, b.len, i)
                  == InBuffer(old(mem.State()), disk[..], b.addr, offset, b.len, 0)
      {
        hide WriteU8;
        if Wrap64(offset as int + i) >= disk.Length { return false; }
        mem.StoreU8(ByteAddr(b.addr, i), disk[Wrap64(offset as int + i)]);
      }
      return true;
    }

    method WriteFrom(mem: PhysicalMemory, bufs: seq<Desc>, start: u64) returns (ok: bool)
      requires mem.Valid() && mem.data != disk
      modifies disk
      ensures (disk[..], ok) == Out(mem.State(), old(disk[..]), bufs, start)
    {
      hide OutBuffer;
      var offset := start;
      ok := true;
      for k := 0 to |bufs|
        invariant mem.State() == old(mem.State())
        invariant var (d, more) := Out(mem.State(), disk[..], bufs[k..], offset);
                  Out(mem.State(), old(disk[..]), bufs, start) == (d, ok && more)
      {
        var b := bufs[k];
        assert bufs[k..][0] == b && bufs[k..][1..] == bufs[k + 1..];
        var whole := WriteOne(mem, b, offset);
        ok := ok && whole;
        offset := Wrap64(offset as int + b.len);
      }
    }

    method WriteOne(mem: PhysicalMemory, b: Desc, offset: u64) returns (ok: bool)
      requires mem.Valid() && mem.data != disk
      modifies disk
      ensures (disk[..], ok) == OutBuffer(mem.State(), old(disk[..]), b.addr, offset, b.len, 0)
    {
      for i := 0 to b.len
        invariant mem.State() == old(mem.State())
        invariant OutBuffer(mem.State(), disk[..], b.addr, offset, b.len, i)
                  == OutBuffer(mem.State(), old(disk[..]), b.addr, offset, b.len, 0)
      {
        hide Slot;
        var at := Wrap64(offset as int + i);
        if at >= disk.Length { return false; }
        var v := mem.LoadU8(ByteAddr(b.addr, i));
        disk[at] := v;
      }
      return true;
    }

    method BlankId(mem: PhysicalMemory, bufs: seq<Desc>) returns (written: u32)
      requires mem.Valid()
      modifies mem.data
      ensures mem.Valid() && (mem.State(), written) == GetId(old(mem.State()), bufs)
    {
      hide ZeroBuffer, GetId, Ram.Valid, Wrap32;
      assert bufs[0..] == bufs;
      WrapNone(GetId(mem.State(), bufs).1);
      written := 0;
      for k := 0 to |bufs|
        invariant mem.Valid()
        invariant var (m, rest) := GetId(mem.State(), bufs[k..]);
                  GetId(old(mem.State()), bufs) == (m, Wrap32(written + rest))
      {
        var b := bufs[k];
        assert bufs[k..][0] == b && bufs[k..][1..] == bufs[k + 1..];
        GetIdSplit(mem.State(), bufs[k..]);
        ghost var rest := GetId(ZeroBuffer(mem.State(), b.addr, b.len, 0), bufs[k + 1..]).1;
        BlankOne(mem, b);
        SumWritten(written, b.len, rest);
        written := Wrap32(written as int + b.len);
      }
      GetIdEmpty(mem.State(), bufs);
      WrapNone(written);
    }

    method BlankOne(mem: PhysicalMemory, b: Desc)
      requires mem.Valid()
      modifies mem.data
      ensures mem.Valid() && mem.State() == ZeroBuffer(old(mem.State()), b.addr, b.len, 0)
    {
      for i := 0 to b.len
        invariant mem.Valid()
        invariant ZeroBuffer(mem.State(), b.addr, b.len, i) == ZeroBuffer(old(mem.State()), b.addr, b.len, 0)
      {
        hide WriteU8;
        mem.StoreU8(ByteAddr(b.addr, i), 0);
      }
    }

    /** One request, from the head of its descriptor chain. */
    method Perform(mem: PhysicalMemory, desc: nat, head: u16) returns (written: u32)
      requires mem.Valid() && mem.data != disk
      modifies mem.data, disk
      ensures mem.Valid()
      ensures Done(mem.State(), disk[..], written) == Request(old(mem.State()), old(disk[..]), desc, head)
    {
      hide Chain, In, Out, GetId, ReadU32, ReadU64, WriteU8;
      var chain := FetchChain(mem, desc, head);
      if |chain| < 2 { return 0; }
      var hdr := chain[0].addr;
      var kind := mem.LoadU32(hdr);
      var sector := mem.LoadU64(Wrap64(hdr as int + 8));
      var statusAt, bufs := chain[|chain| - 1].addr, chain[1..|chain| - 1];
      var offset := Wrap64(sector * SECTOR);
      written := 0;
      var result := S_OK;
      if kind == T_IN {
        var ok;
        ok, written := ReadInto(mem, bufs, offset);
        result := StatusOf(ok);
      } else if kind == T_OUT {
        var ok := WriteFrom(mem, bufs, offset);
        result := StatusOf(ok);
      } else if kind == T_GET_ID {
        written := BlankId(mem, bufs);
      } else if kind != T_FLUSH {
        result := S_UNSUPP;
      }
      mem.StoreU8(statusAt, result);
      written := Wrap32(written + 1);
    }

    /** Serve the ring until it is empty, then interrupt. */
    method Notify(mem: PhysicalMemory)
      requires mem.Valid() && mem.data != disk
      modifies mem.data, disk, this`lastAvail, this`isr, this`irq
      ensures mem.Valid()
      ensures old(queuePfn) == 0 ==>
                mem.State() == old(mem.State()) && disk[..] == old(disk[..]) && lastAvail == old(lastAvail)
                && isr == old(isr) && irq == old(irq)
      ensures old(queuePfn) != 0 ==>
                var avail := ReadU16(old(mem.State()), queuePfn * 4096 + 2048 + 2);
                var n := (avail - old(lastAvail)) % 0x1_0000;
                && lastAvail == avail
                && (mem.State(), disk[..]) == ServeAll(old(mem.State()), old(disk[..]), queuePfn, old(lastAvail), n)
                && isr == (if n > 0 then old(isr) / 2 * 2 + 1 else old(isr))
                && irq == (n > 0 || old(irq))
    {
      hide Request, ReadU16, ReadU32, WriteWide, ServeAll, Serve, Ring;
      if queuePfn == 0 { return; }
      RingsAre(queuePfn);
      var (desc, avail, used) := Ring(queuePfn);
      var availIdx := mem.LoadU16(avail + 2);
      var worked := false;
      ghost var n := Pending(lastAvail, availIdx);
      PendingEmpty(lastAvail, availIdx);
      while Pending(lastAvail, availIdx) != 0
        invariant mem.Valid() && Pending(lastAvail, availIdx) <= n
        invariant worked <==> Pending(lastAvail, availIdx) < n
        invariant isr == old(isr) && irq == old(irq)
        invariant ServeAll(mem.State(), disk[..], queuePfn, lastAvail, Pending(lastAvail, availIdx))
                  == ServeAll(old(mem.State()), old(disk[..]), queuePfn, old(lastAvail), n)
        decreases Pending(lastAvail, availIdx)
      {
        PendingStep(lastAvail, availIdx);
        ServeAllUnfold(mem.State(), disk[..], queuePfn, lastAvail, Pending(lastAvail, availIdx));
        ServeOne(mem, desc, avail, used);
        lastAvail := (lastAvail + 1) % 0x1_0000;
        worked := true;
      }
      PendingEmpty(lastAvail, availIdx);
      ServeAllUnfold(mem.State(), disk[..], queuePfn, lastAvail, 0);
      if worked {
        isr := isr / 2 * 2 + 1;
        irq := true;
      }
    }

    method ServeOne(mem: PhysicalMemory, desc: nat, avail: nat, used: nat)
      requires mem.Valid() && mem.data != disk && Ring(queuePfn) == (desc, avail, used)
      modifies mem.data, disk
      ensures mem.Valid()
      ensures (mem.State(), disk[..]) == Serve(old(mem.State()), old(disk[..]), queuePfn, lastAvail)
    {
      hide Request, ReadU16, ReadU32, WriteWide, Ring;
      var slot := lastAvail % QUEUE_SIZE;
      var head := mem.LoadU16(avail + 4 + slot * 2);
      var written := Perform(mem, desc, head);
      var usedIdx := mem.LoadU16(used + 2);
      var entry := used + 4 + usedIdx % QUEUE_SIZE * 8;
      mem.StoreU32(entry, head);
      mem.StoreU32(entry + 4, written);
      usedIdx := mem.LoadU16(used + 2);
      mem.StoreU16(used + 2, (usedIdx + 1) % 0x1_0000);
    }

    /** A register write. Setting the ring or resetting the device starts the
        queue over; the notify register makes it work. */
    method Write(offset: u16, value: u32, mem: PhysicalMemory)
      requires mem.Valid() && mem.data != disk
      modifies this, mem.data, disk
      ensures mem.Valid()
      ensures var reset := offset == 0x12 && value == 0;
              && queuePfn == (if offset == 0x08 then value else if reset then 0 else old(queuePfn))
              && (offset != 0x10 ==>
                    && mem.State() == old(mem.State()) && disk[..] == old(disk[..])
                    && lastAvail == (if offset == 0x08 || reset then 0 else old(lastAvail))
                    && isr == (if reset then 0 else old(isr)) && irq == (!reset && old(irq)))
      ensures guestFeatures == if offset == 0x04 then value else old(guestFeatures)
      ensures queueSel == if offset == 0x0E then value % 0x1_0000 else old(queueSel)
      ensures status == if offset == 0x12 then value % 0x100 else old(status)
      ensures offset == 0x10 && queuePfn == 0 ==>
                mem.State() == old(mem.State()) && disk[..] == old(disk[..]) && lastAvail == old(lastAvail)
                && isr == old(isr) && irq == old(irq)
      ensures offset == 0x10 && queuePfn != 0 ==>
                var avail := ReadU16(old(mem.State()), queuePfn * 4096 + 2048 + 2);
                var n := (avail - old(lastAvail)) % 0x1_0000;
                && lastAvail == avail
                && (mem.State(), disk[..]) == ServeAll(old(mem.State()), old(disk[..]), queuePfn, old(lastAvail), n)
                && isr == (if n > 0 then old(isr) / 2 * 2 + 1 else old(isr))
                && irq == (n > 0 || old(irq))
    {
      hide ServeAll, ReadU16;
      if offset == 0x04 {
        guestFeatures := value;
      } else if offset == 0x08 {
        queuePfn, lastAvail := value, 0;
      } else if offset == 0x0E {
        queueSel := value % 0x1_0000;
      } else if offset == 0x10 {
        Notify(mem);
      } else if offset == 0x12 {
        status := value % 0x100;
        if value == 0 {
          queuePfn, lastAvail, isr, irq := 0, 0, 0, false;
        }
      }
    }
  }

  lemma SumWritten(written: u32, len: u32, rest: int)
    ensures Wrap32(Wrap32(written + len) + rest) == Wrap32(written + Wrap32(len + rest))
  {
    Division.ModShift(written + len, rest, TWO32);
    Division.ModShift(len + rest, written, TWO32);
  }

  lemma ChainUnfold(mem: Ram, desc: nat, index: u16, n: nat)
    requires mem.Valid() && n > 0
    ensures var d := DescAt(mem, desc, index);
            Chain(mem, desc, index, n) == [d] + if HasNext(d) then Chain(mem, desc, d.next, n - 1) else []
  {
    hide DescAt, Ram.Valid;
  }

  lemma ChainEnds(mem: Ram, desc: nat, index: u16)
    requires mem.Valid()
    ensures Chain(mem, desc, index, 0) == []
  {
  }

  lemma InUnfold(mem: Ram, disk: seq<u8>, bufs: seq<Desc>, k: nat, offset: u64)
    requires mem.Valid() && k < |bufs|
    ensures In(mem, disk, bufs[k..], offset)
            == (var b := bufs[k];
                if !DeviceWritable(b) then (mem, false, 0)
                else
                  var (m1, ok1) := InBuffer(mem, disk, b.addr, offset, b.len, 0);
                  var (m2, ok2, rest) := In(m1, disk, bufs[k + 1..], Wrap64(offset as int + b.len));
                  (m2, ok1 && ok2, Wrap32(b.len + rest)))
  {
    hide InBuffer, Ram.Valid;
    assert bufs[k..][0] == bufs[k] && bufs[k..][1..] == bufs[k + 1..];
  }

  lemma InEmpty(mem: Ram, disk: seq<u8>, bufs: seq<Desc>, offset: u64)
    requires mem.Valid()
    ensures In(mem, disk, bufs[|bufs|..], offset) == (mem, true, 0)
  {
  }

  lemma GetIdSplit(mem: Ram, bufs: seq<Desc>)
    requires mem.Valid() && bufs != []
    ensures var (m, rest) := GetId(ZeroBuffer(mem, bufs[0].addr, bufs[0].len, 0), bufs[1..]);
            GetId(mem, bufs) == (m, Wrap32(bufs[0].len + rest))
  {
    hide ZeroBuffer, Ram.Valid, Wrap32;
  }

  lemma GetIdEmpty(mem: Ram, bufs: seq<Desc>)
    requires mem.Valid()
    ensures GetId(mem, bufs[|bufs|..]) == (mem, 0)
  {
  }

  lemma WrapNone(v: u32)
    ensures Wrap32(v) == v && Wrap32(v + 0) == v && Wrap32(0 + v) == v
  {
  }

  lemma ServeAllUnfold(mem: Ram, disk: seq<u8>, pfn: u32, last: u16, n: nat)
    requires mem.Valid()
    ensures n == 0 ==> ServeAll(mem, disk, pfn, last, n) == (mem, disk)
    ensures n > 0 ==>
              var (m, d) := Serve(mem, disk, pfn, last);
              ServeAll(mem, disk, pfn, last, n) == ServeAll(m, d, pfn, (last + 1) % 0x1_0000, n - 1)
  {
    hide Serve, Ram.Valid;
  }

  lemma PendingEmpty(last: u16, avail: u16)
    ensures Pending(last, avail) == 0 <==> last == avail
  {
  }

  /** One request less, however often the indices have wrapped. */
  lemma PendingStep(last: u16, avail: u16)
    requires Pending(last, avail) > 0
    ensures Pending((last + 1) % 0x1_0000, avail) == Pending(last, avail) - 1
  {
  }
}
