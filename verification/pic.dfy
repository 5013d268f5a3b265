/** The cascaded 8259 pair. The registers are bytes of bits, kept here as eight
    booleans, least significant first. */
module Pic {
  import opened Words
  import Division

  type Byte = b: seq<bool> | |b| == 8 witness [false, false, false, false, false, false, false, false]
  const ZERO: Byte := [false, false, false, false, false, false, false, false]

  type Bit = i: nat | i < 8
  type Line = i: nat | i < 16
  /** A base vector: ICW2 keeps only its top five bits. */
  type Base = x: u8 | x % 8 == 0 witness 0

  /** The slave's output is wired to this line of the master. */
  const CASCADE: Bit := 2

  datatype Chip = Chip(base: Base, imr: Byte, irr: Byte, isr: Byte, readIsr: bool)
  datatype Pair = Pair(master: Chip, slave: Chip, icw2Pending: bool, icw2ForSlave: bool, initialized: bool)

  function Reset(): Pair {
    Pair(Chip(0x08, ZERO, ZERO, ZERO, false), Chip(0x70, ZERO, ZERO, ZERO, false), false, false, false)
  }

  // ---- What each operation does ----

  function BitsOf(v: u8): (b: Byte) {
    [v % 2 == 1, v / 2 % 2 == 1, v / 4 % 2 == 1, v / 8 % 2 == 1,
     v / 16 % 2 == 1, v / 32 % 2 == 1, v / 64 % 2 == 1, v / 128 % 2 == 1]
  }

  predicate Any(b: Byte) { exists i: Bit :: b[i] }

  /** The lowest set bit from `i` up; 0 if there is none. */
  function LowestFrom(b: Byte, i: nat): Bit
    decreases 8 - i
  {
    if i >= 8 then 0 else if b[i] then i else LowestFrom(b, i + 1)
  }

  function Eoi(isr: Byte, val: u8): Byte {
    var command := val / 32;
    if command == 1 || command == 5 then if Any(isr) then isr[LowestFrom(isr, 0) := false] else isr
    else if command == 3 || command == 7 then isr[val % 8 := false]
    else isr
  }

  /** OCW2 and OCW3, told apart by bits 4:3; ICW1 by bit 4. */
  function WriteCommand(p: Pair, slave: bool, val: u8): Pair {
    if val / 16 % 2 == 1 then
      var q := p.(icw2Pending := true, icw2ForSlave := slave);
      if slave then q.(slave := p.slave.(irr := ZERO, isr := ZERO))
      else q.(master := p.master.(irr := ZERO, isr := ZERO))
    else if val / 8 % 2 == 0 then
      if slave then
        var isr := Eoi(p.slave.isr, val);
        var q := p.(slave := p.slave.(isr := isr));
        if Any(isr) then q else q.(master := p.master.(isr := p.master.isr[CASCADE := false]))
      else p.(master := p.master.(isr := Eoi(p.master.isr, val)))
    else if val % 4 == 2 || val % 4 == 3 then
      if slave then p.(slave := p.slave.(readIsr := val % 4 == 3)) else p.(master := p.master.(readIsr := val % 4 == 3))
    else p
  }

  /** The base vector if ICW1 came before, else the mask. */
  function WriteData(p: Pair, slave: bool, val: u8): Pair {
    if p.icw2Pending then
      var q := p.(icw2Pending := false, initialized := true);
      if slave then q.(slave := p.slave.(base := val / 8 * 8)) else q.(master := p.master.(base := val / 8 * 8))
    else if slave then p.(slave := p.slave.(imr := BitsOf(val)))
    else p.(master := p.master.(imr := BitsOf(val)))
  }

  function RaiseIrq(p: Pair, irq: Line): Pair {
    if irq < 8 then p.(master := p.master.(irr := p.master.irr[irq := true]))
    else p.(slave := p.slave.(irr := p.slave.irr[irq - 8 := true]))
  }

  /** The slave's priority walk: None when a line in service blocks it, and
      Some(8 or more) for a request; 0 says that the walk found neither. */
  datatype Scan = Blocked | Found(irq: Line) | Nothing

  function SlaveScan(p: Pair, j: nat): (r: Scan)
    decreases 8 - j
  {
    if j >= 8 then Nothing
    else if p.slave.isr[j] then Blocked
    else if p.slave.irr[j] && !p.slave.imr[j] then Found(8 + j)
    else SlaveScan(p, j + 1)
  }

  function MasterScan(p: Pair, i: nat): (r: Option<Line>)
    decreases 8 - i
  {
    if i >= 8 then None
    else if p.master.isr[i] && i != CASCADE then None
    else if i == CASCADE then
      var s := if p.master.imr[CASCADE] then Nothing else SlaveScan(p, 0);
      if s.Blocked? then None
      else if s.Found? then Some(s.irq)
      else if p.master.isr[i] then None
      else MasterScan(p, i + 1)
    else if p.master.irr[i] && !p.master.imr[i] then Some(i)
    else MasterScan(p, i + 1)
  }

  function NextIrq(p: Pair): Option<Line> { MasterScan(p, 0) }

  /** The vector delivered, and the request moved to in-service. */
  function Acknowledge(p: Pair): (Pair, Option<u8>) {
    match NextIrq(p)
    case None => (p, None)
    case Some(irq) =>
      if irq >= 8 then
        var bit := irq - 8;
        (p.(slave := p.slave.(irr := p.slave.irr[bit := false], isr := p.slave.isr[bit := true]),
            master := p.master.(isr := p.master.isr[CASCADE := true])),
         Some(p.slave.base + bit))
      else
        (p.(master := p.master.(irr := p.master.irr[irq := false], isr := p.master.isr[irq := true])),
         Some(p.master.base + irq))
  }

  // ---- The controller itself ----

  class Controller {
    var masterBase: Base
    var masterImr: Byte
    var masterIrr: Byte
    var masterIsr: Byte
    var masterReadIsr: bool
    var slaveBase: Base
    var slaveImr: Byte
    var slaveIrr: Byte
    var slaveIsr: Byte
    var slaveReadIsr: bool
    var icw2Pending: bool
    var icw2ForSlave: bool
    var initialized: bool

    ghost function State(): Pair
      reads this
    {
      Pair(Chip(masterBase, masterImr, masterIrr, masterIsr, masterReadIsr),
           Chip(slaveBase, slaveImr, slaveIrr, slaveIsr, slaveReadIsr), icw2Pending, icw2ForSlave, initialized)
    }

    constructor ()
      ensures State() == Reset()
    {
      masterBase, masterImr, masterIrr, masterIsr, masterReadIsr := 0x08, ZERO, ZERO, ZERO, false;
      slaveBase, slaveImr, slaveIrr, slaveIsr, slaveReadIsr := 0x70, ZERO, ZERO, ZERO, false;
      icw2Pending, icw2ForSlave, initialized := false, false, false;
    }

    method LowestBit(v: Byte) returns (r: Bit)
      ensures r == LowestFrom(v, 0)
      ensures Any(v) ==> v[r] && forall k: Bit :: k < r ==> !v[k]
    {
      for i := 0 to 8
        invariant forall k: Bit :: k < i ==> !v[k]
        invariant LowestFrom(v, 0) == LowestFrom(v, i)
      {
        if v[i] { return i; }
      }
      return 0;
    }

    method Command(port: u8, val: u8)
      modifies this
      ensures State() == WriteCommand(old(State()), port == 0xA0, val)
    {
      var slave := port == 0xA0;
      if val / 16 % 2 == 1 {
        icw2Pending, icw2ForSlave := true, slave;
        if slave {
          slaveIrr, slaveIsr := ZERO, ZERO;
        } else {
          masterIrr, masterIsr := ZERO, ZERO;
        }
        return;
      }
      if val / 8 % 2 == 0 {
        var isr := if slave then slaveIsr else masterIsr;
        var command := val / 32;
        if command == 1 || command == 5 {
          if Any(isr) {
            var low := LowestBit(isr);
            isr := isr[low := false];
          }
        } else if command == 3 || command == 7 {
          isr := isr[val % 8 := false];
        }
        if slave { slaveIsr := isr; } else { masterIsr := isr; }
        if slave && !Any(slaveIsr) { masterIsr := masterIsr[CASCADE := false]; }
      } else if val % 4 == 3 || val % 4 == 2 {
        if slave { slaveReadIsr := val % 4 == 3; } else { masterReadIsr := val % 4 == 3; }
      }
    }

    method Data(port: u8, val: u8)
      modifies this
      ensures State() == WriteData(old(State()), port == 0xA1, val)
    {
      hide BitsOf;
      var slave := port == 0xA1;
      if icw2Pending {
        if slave { slaveBase := val / 8 * 8; } else { masterBase := val / 8 * 8; }
        icw2Pending, initialized := false, true;
        return;
      }
      if slave { slaveImr := BitsOf(val); } else { masterImr := BitsOf(val); }
    }

    method Raise(irq: Line)
      modifies this
      ensures State() == RaiseIrq(old(State()), irq)
    {
      if irq < 8 { masterIrr := masterIrr[irq := true]; } else { slaveIrr := slaveIrr[irq - 8 := true]; }
    }

    /** The scan loop of the pair. */
    method Next() returns (r: Option<Line>)
      ensures r == NextIrq(State())
    {
      var i := 0;
      while i < 8
        invariant i <= 8 && NextIrq(State()) == MasterScan(State(), i)
      {
        if masterIsr[i] && i != CASCADE { return None; }
        if i == CASCADE {
          if !masterImr[CASCADE] {
            var j := 0;
            while j < 8
              invariant j <= 8 && SlaveScan(State(), 0) == SlaveScan(State(), j)
            {
              if slaveIsr[j] { return None; }
              if slaveIrr[j] && !slaveImr[j] { return Some(8 + j); }
              j := j + 1;
            }
          }
          if masterIsr[i] { return None; }
        } else if masterIrr[i] && !masterImr[i] {
          return Some(i);
        }
        i := i + 1;
      }
      return None;
    }

    method Ack() returns (vector: Option<u8>)
      modifies this
      ensures (State(), vector) == Acknowledge(old(State()))
    {
      hide NextIrq;
      var next := Next();
      if next.None? { return None; }
      var irq := next.value;
      if irq >= 8 {
        var bit := irq - 8;
        slaveIrr, slaveIsr := slaveIrr[bit := false], slaveIsr[bit := true];
        masterIsr := masterIsr[CASCADE := true];
        return Some(slaveBase + bit);
      } else {
        masterIrr, masterIsr := masterIrr[irq := false], masterIsr[irq := true];
        return Some(masterBase + irq);
      }
    }
  }

  // ---- Priority ----

  /** Position in the order 0, 1, 8..15, 3..7. Line 2 is the cascade, not a device. */
  function Rank(irq: Line): nat {
    if irq < 2 then irq else if irq >= 8 then irq - 6 else irq + 7
  }

  predicate Device(irq: Line) { irq != CASCADE }

  predicate InService(p: Pair, irq: Line) {
    if irq < 8 then p.master.isr[irq] else p.slave.isr[irq - 8]
  }

  /** Requested and not masked at its own chip. */
  predicate Wants(p: Pair, irq: Line) {
    if irq < 8 then p.master.irr[irq] && !p.master.imr[irq] else p.slave.irr[irq - 8] && !p.slave.imr[irq - 8]
  }

  /** A slave line is masked by the cascade too. */
  predicate Asking(p: Pair, irq: Line) { Wants(p, irq) && (irq >= 8 ==> !p.master.imr[CASCADE]) }

  /** No line of equal or higher priority is in service. */
  ghost predicate Unblocked(p: Pair, irq: Line) {
    forall k: Line :: Device(k) && InService(p, k) ==> Rank(k) > Rank(irq)
  }

  ghost predicate Deliverable(p: Pair, irq: Line) { Device(irq) && Asking(p, irq) && Unblocked(p, irq) }

  /** The cascade line is in service exactly when some slave line is. */
  predicate Cascaded(p: Pair) { p.master.isr[CASCADE] <==> Any(p.slave.isr) }

  /** The answer a priority controller owes. */
  ghost predicate Best(p: Pair, r: Option<Line>) {
    match r
    case None => forall k: Line :: !Deliverable(p, k)
    case Some(irq) => Deliverable(p, irq) && forall k: Line :: Deliverable(p, k) ==> Rank(irq) <= Rank(k)
  }

  /** All that the slave's walk from `j` on can say. */
  lemma {:induction false} SlaveScanSays(p: Pair, j: nat)
    requires j <= 8
    ensures match SlaveScan(p, j)
            case Found(irq) =>
              && irq >= 8 + j && Wants(p, irq)
              && (forall k: Line :: 8 + j <= k <= irq ==> !InService(p, k))
              && forall k: Line :: 8 + j <= k < irq ==> !Wants(p, k)
            case Blocked =>
              exists k: Line :: 8 + j <= k && InService(p, k)
                && forall m: Line :: 8 + j <= m < k ==> !Wants(p, m)
            case Nothing =>
              && (forall k: Line :: 8 + j <= k ==> !InService(p, k))
              && forall k: Line :: 8 + j <= k ==> !Wants(p, k)
    decreases 8 - j
  {
    if j < 8 {
      assert InService(p, 8 + j) == p.slave.isr[j];
      SlaveScanSays(p, j + 1);
    }
  }

  /** The walk from master line `i` on, when nothing before it is in service or
      asks, finds the best deliverable line. */
  lemma {:induction false} MasterScanIsBest(p: Pair, i: nat)
    requires Cascaded(p) && i <= 8
    requires forall k: Line :: Device(k) && (k < i || (k >= 8 && i > CASCADE)) ==> !InService(p, k) && !Asking(p, k)
    ensures Best(p, MasterScan(p, i))
    decreases 8 - i
  {
    if i < 8 {
      if p.master.isr[i] && i != CASCADE {
        assert InService(p, i);
      } else if i == CASCADE {
        SlaveScanSays(p, 0);
        assert forall j: Bit :: p.slave.isr[j] == InService(p, 8 + j);
        if p.master.isr[CASCADE] {
          AnySlave(p);
        }
        if !p.master.imr[CASCADE] && SlaveScan(p, 0).Nothing? && !p.master.isr[i] {
          MasterScanIsBest(p, i + 1);
        } else if p.master.imr[CASCADE] && !p.master.isr[i] {
          MasterScanIsBest(p, i + 1);
        }
      } else if !(p.master.irr[i] && !p.master.imr[i]) {
        assert InService(p, i) == p.master.isr[i];
        MasterScanIsBest(p, i + 1);
      }
    }
  }

  lemma AnySlave(p: Pair)
    requires Any(p.slave.isr)
    ensures exists k: Line :: k >= 8 && InService(p, k)
  {
    var j: Bit :| p.slave.isr[j];
    assert InService(p, 8 + j);
  }

  /** `acknowledge` always answers with the highest-priority unmasked request that
      no line of equal or higher priority in service blocks. */
  lemma NextIrqIsBest(p: Pair)
    requires Cascaded(p)
    ensures Best(p, NextIrq(p))
  {
    MasterScanIsBest(p, 0);
  }

  // ---- Runs ----

  /** `Finish` ends the most recently acknowledged interrupt: one EOI, specific or
      not, written to the chip that owns the line. `Program` initialises both chips. */
  datatype Event =
    | Request(irq: Line) | Mask(slave: bool, val: u8) | Accept | Finish(specific: bool)
    | Program(masterBase: u8, slaveBase: u8)

  function EoiByte(irq: Line, specific: bool): u8 { if specific then 0x60 + irq % 8 else 0x20 }

  const ICW1: u8 := 0x11

  /** The first two initialisation words, to the master and then to the slave. */
  function Initialise(p: Pair, masterBase: u8, slaveBase: u8): Pair {
    var q := WriteData(WriteCommand(p, false, ICW1), false, masterBase);
    WriteData(WriteCommand(q, true, ICW1), true, slaveBase)
  }

  /** The pair, and the lines acknowledged and not yet finished, latest last. */
  datatype Machine = Machine(pair: Pair, open: seq<Line>)

  function Perform(m: Machine, ev: Event): Machine {
    match ev
    case Request(irq) => m.(pair := RaiseIrq(m.pair, irq))
    case Mask(slave, val) => m.(pair := WriteData(m.pair, slave, val))
    case Accept =>
      var next := NextIrq(m.pair);
      Machine(Acknowledge(m.pair).0, if next.Some? then m.open + [next.value] else m.open)
    case Finish(specific) =>
      if m.open == [] then m
      else
        var top := m.open[|m.open| - 1];
        Machine(WriteCommand(m.pair, top >= 8, EoiByte(top, specific)), m.open[..|m.open| - 1])
    case Program(masterBase, slaveBase) => Machine(Initialise(m.pair, masterBase, slaveBase), [])
  }

  function Execute(m: Machine, events: seq<Event>): Machine
    decreases |events|
  {
    if events == [] then m else Execute(Perform(m, events[0]), events[1..])
  }

  ghost predicate Rising(open: seq<Line>) {
    && (forall i :: 0 <= i < |open| ==> Device(open[i]))
    && forall i, j :: 0 <= i < j < |open| ==> Rank(open[j]) < Rank(open[i])
  }

  /** The nesting discipline. The open lines are those in service and no others,
      each of higher priority than the one it interrupted, and the cascade line
      is in service exactly when some slave line is. */
  ghost predicate Disciplined(m: Machine) {
    && Rising(m.open) && Cascaded(m.pair) && !m.pair.icw2Pending
    && forall k: Line :: Device(k) ==> (InService(m.pair, k) <==> k in m.open)
  }

  lemma AcceptKeeps(m: Machine)
    requires Disciplined(m)
    ensures Disciplined(Perform(m, Accept))
  {
    NextIrqIsBest(m.pair);
    var next := NextIrq(m.pair);
    if next.Some? {
      var irq, m' := next.value, Perform(m, Accept);
      forall k: Line | Device(k)
        ensures InService(m'.pair, k) <==> k in m'.open
      {
        assert InService(m.pair, k) <==> k in m.open;
      }
      forall i | 0 <= i < |m.open|
        ensures Rank(irq) < Rank(m.open[i])
      {
        assert m.open[i] in m.open;
      }
      if irq >= 8 {
        assert m'.pair.slave.isr[irq - 8];
      }
    }
  }

  /** The most recent line is the lowest bit in service on its chip. */
  lemma TopIsLowest(m: Machine)
    requires Disciplined(m) && m.open != []
    ensures var top := m.open[|m.open| - 1];
            var isr := if top < 8 then m.pair.master.isr else m.pair.slave.isr;
            isr[top % 8] && LowestFrom(isr, 0) == top % 8
  {
    var top := m.open[|m.open| - 1];
    var isr := if top < 8 then m.pair.master.isr else m.pair.slave.isr;
    assert InService(m.pair, top);
    forall j: Bit | j < top % 8
      ensures !isr[j]
    {
      var k: Line := if top < 8 then j else 8 + j;
      if isr[j] {
        if k == CASCADE {
          AnySlave(m.pair);
          var s: Line :| s >= 8 && InService(m.pair, s);
          TopOutranks(m, s);
        } else {
          assert InService(m.pair, k);
          TopOutranks(m, k);
        }
      }
    }
    LowestIs(isr, top % 8, 0);
  }

  lemma TopOutranks(m: Machine, k: Line)
    requires Disciplined(m) && m.open != [] && Device(k) && InService(m.pair, k)
    ensures var top := m.open[|m.open| - 1]; k == top || Rank(top) < Rank(k)
  {
    assert k in m.open;
  }

  lemma {:induction false} LowestIs(b: Byte, low: Bit, i: nat)
    requires i <= low && b[low] && forall j: Bit :: j < low ==> !b[j]
    ensures LowestFrom(b, i) == low
    decreases low - i
  {
    if i < low { LowestIs(b, low, i + 1); }
  }

  /** An EOI retires the most recently acknowledged line, and that line only. */
  lemma FinishRetiresTop(m: Machine, specific: bool)
    requires Disciplined(m) && m.open != []
    ensures var top, m' := m.open[|m.open| - 1], Perform(m, Finish(specific));
            && m'.open == m.open[..|m.open| - 1]
            && forall k: Line :: Device(k) ==> (InService(m'.pair, k) <==> k != top && InService(m.pair, k))
  {
    TopIsLowest(m);
    var top, m' := m.open[|m.open| - 1], Perform(m, Finish(specific));
    EoiBytes(top, specific);
    var isr := if top < 8 then m.pair.master.isr else m.pair.slave.isr;
    assert Any(isr);
    assert Eoi(isr, EoiByte(top, specific)) == isr[top % 8 := false];
    hide Eoi, EoiByte, LowestFrom;
  }

  lemma EoiBytes(irq: Line, specific: bool)
    ensures var v := EoiByte(irq, specific);
            && v / 16 % 2 == 0 && v / 8 % 2 == 0
            && v / 32 == (if specific then 3 else 1) && (specific ==> v % 8 == irq % 8)
  {
  }

  lemma FinishKeeps(m: Machine, specific: bool)
    requires Disciplined(m)
    ensures Disciplined(Perform(m, Finish(specific)))
  {
    if m.open != [] {
      FinishRetiresTop(m, specific);
      var top, m' := m.open[|m.open| - 1], Perform(m, Finish(specific));
      EoiBytes(top, specific);
      TopIsLowest(m);
      forall k: Line | Device(k)
        ensures InService(m'.pair, k) <==> k in m'.open
      {
        assert InService(m.pair, k) <==> k in m.open;
        if k in m.open && k != top {
          var i :| 0 <= i < |m.open| && m.open[i] == k;
          assert m'.open[i] == k;
        }
      }
    }
  }

  /** Nothing in service changes: the discipline stays. */
  lemma QuietKeeps(m: Machine, p: Pair)
    requires Disciplined(m) && p.master.isr == m.pair.master.isr && p.slave.isr == m.pair.slave.isr && !p.icw2Pending
    ensures Disciplined(m.(pair := p))
  {
    assert forall k: Line :: InService(p, k) == InService(m.pair, k);
  }

  /** Every event keeps the discipline. */
  lemma EventKeeps(m: Machine, ev: Event)
    requires Disciplined(m)
    ensures Disciplined(Perform(m, ev))
  {
    hide NextIrq, BitsOf, LowestFrom, Disciplined;
    assert !m.pair.icw2Pending by { Programmed(m); }
    match ev
    case Request(irq) => QuietKeeps(m, RaiseIrq(m.pair, irq));
    case Mask(slave, val) => QuietKeeps(m, WriteData(m.pair, slave, val));
    case Accept => AcceptKeeps(m);
    case Finish(specific) => FinishKeeps(m, specific);
    case Program(masterBase, slaveBase) => ProgramKeeps(m, masterBase, slaveBase);
  }

  lemma Programmed(m: Machine)
    requires Disciplined(m)
    ensures !m.pair.icw2Pending
  {
  }

  lemma ProgramKeeps(m: Machine, masterBase: u8, slaveBase: u8)
    ensures Disciplined(Machine(Initialise(m.pair, masterBase, slaveBase), []))
  {
    var p := Initialise(m.pair, masterBase, slaveBase);
    assert p.master.isr == ZERO && p.slave.isr == ZERO;
  }

  lemma {:induction false} RunKeeps(m: Machine, events: seq<Event>)
    requires Disciplined(m)
    ensures Disciplined(Execute(m, events))
    decreases |events|
  {
    if events != [] {
      EventKeeps(m, events[0]);
      RunKeeps(Perform(m, events[0]), events[1..]);
    }
  }

  // ---- What each event does to every bit ----

  predicate Requested(p: Pair, irq: Line) { if irq < 8 then p.master.irr[irq] else p.slave.irr[irq - 8] }

  function ImrOf(p: Pair, slave: bool): Byte { if slave then p.slave.imr else p.master.imr }

  function BaseOf(p: Pair, slave: bool): u8 { if slave then p.slave.base else p.master.base }

  /** The number that a register's bits spell. */
  function Number(b: seq<bool>): nat { if b == [] then 0 else (if b[0] then 1 else 0) + 2 * Number(b[1..]) }

  lemma NumberFrom(b: Byte, i: Bit, x: nat)
    requires b[i] == (x % 2 == 1) && Number(b[i + 1..]) == x / 2
    ensures Number(b[i..]) == x
  {
    assert b[i..][1..] == b[i + 1..];
  }

  lemma MaskBits(v: u8)
    ensures Number(BitsOf(v)) == v
  {
    hide Number, BitsOf;
    var b := BitsOf(v);
    BitsAre(v);
    Halves(v);
    NothingLeft(b);
    NumberFrom(b, 7, v / 128);
    NumberFrom(b, 6, v / 64);
    NumberFrom(b, 5, v / 32);
    NumberFrom(b, 4, v / 16);
    NumberFrom(b, 3, v / 8);
    NumberFrom(b, 2, v / 4);
    NumberFrom(b, 1, v / 2);
    NumberFrom(b, 0, v);
    assert b[0..] == b;
  }

  lemma NothingLeft(b: Byte)
    ensures Number(b[8..]) == 0
  {
  }

  lemma BitsAre(v: u8)
    ensures var b := BitsOf(v);
            && b[0] == (v % 2 == 1) && b[1] == (v / 2 % 2 == 1) && b[2] == (v / 4 % 2 == 1) && b[3] == (v / 8 % 2 == 1)
            && b[4] == (v / 16 % 2 == 1) && b[5] == (v / 32 % 2 == 1) && b[6] == (v / 64 % 2 == 1)
            && b[7] == (v / 128 % 2 == 1)
  {
  }

  lemma Halves(v: u8)
    ensures v / 2 / 2 == v / 4 && v / 4 / 2 == v / 8 && v / 8 / 2 == v / 16 && v / 16 / 2 == v / 32
    ensures v / 32 / 2 == v / 64 && v / 64 / 2 == v / 128 && v / 128 / 2 == 0
  {
    Division.DivDiv(v, 2, 2);
    Division.DivDiv(v, 4, 2);
    Division.DivDiv(v, 8, 2);
    Division.DivDiv(v, 16, 2);
    Division.DivDiv(v, 32, 2);
    Division.DivDiv(v, 64, 2);
  }

  /** An acknowledge answers with the vector of the best line, clears that request and
      no other, and puts that line in service, and the cascade with a slave line. */
  lemma AcknowledgeMoves(p: Pair)
    requires Cascaded(p)
    ensures Best(p, NextIrq(p))
    ensures var (p', vector) := Acknowledge(p);
            match NextIrq(p)
            case None => p' == p && vector == None
            case Some(irq) =>
              && vector == Some(BaseOf(p, irq >= 8) / 8 * 8 + irq % 8)
              && (forall k: Line :: Requested(p', k) <==> Requested(p, k) && k != irq)
              && (forall k: Line :: InService(p', k) <==> InService(p, k) || k == irq || (k == CASCADE && irq >= 8))
              && forall slave: bool :: ImrOf(p', slave) == ImrOf(p, slave) && BaseOf(p', slave) == BaseOf(p, slave)
  {
    NextIrqIsBest(p);
    hide NextIrq, Best, Requested, InService;
    if NextIrq(p).Some? { BitsMove(p, NextIrq(p).value); }
    WholeBase(p.master.base);
    WholeBase(p.slave.base);
  }

  lemma WholeBase(base: Base)
    ensures base / 8 * 8 == base
  {
  }

  /** A request moved into service, bit by bit. */
  lemma BitsMove(p: Pair, irq: Line)
    ensures var s, m := p.slave, p.master;
            var p' := if irq >= 8 then p.(slave := s.(irr := s.irr[irq - 8 := false], isr := s.isr[irq - 8 := true]),
                                          master := m.(isr := m.isr[CASCADE := true]))
                      else p.(master := m.(irr := m.irr[irq := false], isr := m.isr[irq := true]));
            forall k: Line ::
              && (Requested(p', k) <==> Requested(p, k) && k != irq)
              && (InService(p', k) <==> InService(p, k) || k == irq || (k == CASCADE && irq >= 8))
  {
    var s, m := p.slave, p.master;
    if irq >= 8 {
      var p' := p.(slave := s.(irr := s.irr[irq - 8 := false], isr := s.isr[irq - 8 := true]),
                   master := m.(isr := m.isr[CASCADE := true]));
      forall k: Line
        ensures Requested(p', k) <==> Requested(p, k) && k != irq
        ensures InService(p', k) <==> InService(p, k) || k == irq || k == CASCADE
      {
      }
    } else {
      var p' := p.(master := m.(irr := m.irr[irq := false], isr := m.isr[irq := true]));
      forall k: Line
        ensures Requested(p', k) <==> Requested(p, k) && k != irq
        ensures InService(p', k) <==> InService(p, k) || k == irq
      {
      }
    }
  }

  function IsrOf(p: Pair, slave: bool): Byte { if slave then p.slave.isr else p.master.isr }

  predicate Lowest(b: Byte, i: Bit) { b[i] && forall j: Bit :: j < i ==> !b[j] }

  /** Every byte written to a command port. ICW1 clears the chip and waits for its base
      vector; OCW2 retires the line in service that it names, or the lowest, and the
      cascade when the slave has none left; OCW3 chooses what the port reads. */
  lemma CommandMeans(p: Pair, slave: bool, val: u8)
    ensures var p' := WriteCommand(p, slave, val);
            var isr, isr', command := IsrOf(p, slave), IsrOf(p', slave), val / 32;
            && (val / 16 % 2 == 1 ==>
                  && isr' == ZERO && p'.icw2Pending && p'.icw2ForSlave == slave
                  && forall k: Line :: Requested(p', k) <==> Requested(p, k) && (k >= 8) != slave)
            && (val / 16 % 2 == 0 ==>
                  && p'.icw2Pending == p.icw2Pending && (forall k: Line :: Requested(p', k) <==> Requested(p, k)))
            && (val / 16 % 2 == 0 && val / 8 % 2 == 0 ==>
                  && (forall i: Bit ::
                       isr'[i] <==> (isr[i] && !((command == 1 || command == 5) && Lowest(isr, i))
                                     && !((command == 3 || command == 7) && i == val % 8)))
                  && IsrOf(p', !slave) ==
                       if slave && !Any(isr') then p.master.isr[CASCADE := false] else IsrOf(p, !slave))
            && (val / 16 % 2 == 0 && val / 8 % 2 == 1 ==>
                  && isr' == isr
                  && (val % 4 >= 2 ==> (if slave then p'.slave.readIsr else p'.master.readIsr) == (val % 2 == 1)))
            && (forall chip: bool :: ImrOf(p', chip) == ImrOf(p, chip) && BaseOf(p', chip) == BaseOf(p, chip))
  {
    hide Eoi, Any, Lowest;
    var isr := IsrOf(p, slave);
    EoiMeans(isr, val);
  }

  lemma EoiMeans(isr: Byte, val: u8)
    ensures forall i: Bit ::
              Eoi(isr, val)[i] <==> (isr[i] && !((val / 32 == 1 || val / 32 == 5) && Lowest(isr, i))
                                     && !((val / 32 == 3 || val / 32 == 7) && i == val % 8))
  {
    if Any(isr) { LowestExists(isr); }
    hide LowestFrom;
  }

  lemma LowestExists(b: Byte)
    requires Any(b)
    ensures Lowest(b, LowestFrom(b, 0)) && forall i: Bit :: Lowest(b, i) ==> i == LowestFrom(b, 0)
  {
    forall i: Bit | Lowest(b, i) ensures i == LowestFrom(b, 0) { LowestIs(b, i, 0); }
    var i: Bit :| b[i];
    FirstSet(b, i);
  }

  lemma {:induction false} FirstSet(b: Byte, i: Bit)
    requires b[i]
    ensures exists k: Bit :: Lowest(b, k)
    decreases i
  {
    if !Lowest(b, i) {
      var j: Bit :| j < i && b[j];
      FirstSet(b, j);
    }
  }

  // ---- The registers as a record of the run ----

  ghost predicate AckedAt(events: seq<Event>, j: nat, irq: Line)
    requires j < |events|
  {
    events[j] == Accept && NextIrq(Execute(Machine(Reset(), []), events[..j]).pair) == Some(irq)
  }

  /** Raised since it was last acknowledged and since the pair was last programmed. */
  ghost predicate Asked(events: seq<Event>, irq: Line) {
    exists i: nat :: i < |events| && events[i] == Request(irq)
      && forall j: nat :: i < j < |events| ==> !events[j].Program? && !AckedAt(events, j, irq)
  }

  /** The last mask byte written to a chip. */
  function LastMask(events: seq<Event>, slave: bool): u8
    decreases |events|
  {
    if events == [] then 0
    else
      var last := events[|events| - 1];
      if last.Mask? && last.slave == slave then last.val else LastMask(events[..|events| - 1], slave)
  }

  /** The last base vector written to it. */
  function LastBase(events: seq<Event>, slave: bool): u8
    decreases |events|
  {
    if events == [] then if slave then 0x70 else 0x08
    else
      var last := events[|events| - 1];
      if last.Program? then if slave then last.slaveBase else last.masterBase
      else LastBase(events[..|events| - 1], slave)
  }

  ghost predicate Recorded(p: Pair, events: seq<Event>) {
    && (forall k: Line :: Requested(p, k) <==> Asked(events, k))
    && forall slave: bool ::
         Number(ImrOf(p, slave)) == LastMask(events, slave) && BaseOf(p, slave) == LastBase(events, slave) / 8 * 8
  }

  lemma {:induction false} ExecuteSnoc(m: Machine, events: seq<Event>, ev: Event)
    ensures Execute(m, events + [ev]) == Perform(Execute(m, events), ev)
    decreases |events|
  {
    hide Perform;
    if events == [] {
      assert [ev][1..] == [];
      assert Execute(Perform(m, ev), []) == Perform(m, ev);
    } else {
      assert (events + [ev])[1..] == events[1..] + [ev];
      ExecuteSnoc(Perform(m, events[0]), events[1..], ev);
    }
  }

  /** Earlier events are what they were when one more has happened. */
  lemma AskedSnoc(events: seq<Event>, ev: Event, irq: Line)
    ensures var acked := ev == Accept && NextIrq(Execute(Machine(Reset(), []), events).pair) == Some(irq);
            Asked(events + [ev], irq) <==> ev == Request(irq) || (Asked(events, irq) && !ev.Program? && !acked)
  {
    hide Execute, NextIrq, Reset;
    var all, n := events + [ev], |events|;
    assert all[..n] == events;
    forall j: nat | j < n ensures all[..j] == events[..j] && AckedAt(all, j, irq) == AckedAt(events, j, irq) {
      assert all[..j] == events[..j];
    }
    if ev == Request(irq) {
      assert all[n] == Request(irq);
      assert Asked(all, irq);
    } else if Asked(events, irq) && !ev.Program? && !AckedAt(all, n, irq) {
      var i: nat :| i < n && events[i] == Request(irq)
        && forall j: nat :: i < j < n ==> !events[j].Program? && !AckedAt(events, j, irq);
      assert all[i] == Request(irq);
      assert Asked(all, irq);
    } else if Asked(all, irq) {
      var i: nat :| i < |all| && all[i] == Request(irq)
        && forall j: nat :: i < j < |all| ==> !all[j].Program? && !AckedAt(all, j, irq);
      assert i < n && events[i] == Request(irq);
      assert !all[n].Program? && !AckedAt(all, n, irq);
      forall j: nat | i < j < n ensures !events[j].Program? && !AckedAt(events, j, irq) {
        assert !all[j].Program? && !AckedAt(all, j, irq);
      }
    }
  }

  /** What one event does to the requests, the masks and the base vectors. */
  lemma EventEffects(m: Machine, ev: Event)
    requires Disciplined(m)
    ensures var p, p' := m.pair, Perform(m, ev).pair;
            && (forall k: Line :: Requested(p', k) <==>
                  ev == Request(k) || (Requested(p, k) && !ev.Program? && !(ev == Accept && NextIrq(p) == Some(k))))
            && forall slave: bool ::
                 && Number(ImrOf(p', slave)) ==
                      (if ev.Mask? && ev.slave == slave then ev.val as nat else Number(ImrOf(p, slave)))
                 && BaseOf(p', slave) ==
                      if ev.Program? then (if slave then ev.slaveBase else ev.masterBase) / 8 * 8 else BaseOf(p, slave)
  {
    hide NextIrq, Number, BitsOf;
    match ev
    case Request(irq) => RaiseMoves(m.pair, irq);
    case Mask(slave, val) => MaskMoves(m.pair, slave, val);
    case Accept => AcknowledgeMoves(m.pair);
    case Finish(specific) =>
      if m.open != [] {
        EoiMoves(m.pair, m.open[|m.open| - 1], specific);
      }
    case Program(masterBase, slaveBase) => ProgramMoves(m.pair, masterBase, slaveBase);
  }

  lemma RaiseMoves(p: Pair, irq: Line)
    ensures var p' := RaiseIrq(p, irq);
            && (forall k: Line :: Requested(p', k) <==> k == irq || Requested(p, k))
            && forall slave :: ImrOf(p', slave) == ImrOf(p, slave) && BaseOf(p', slave) == BaseOf(p, slave)
  {
  }

  lemma MaskMoves(p: Pair, chip: bool, val: u8)
    requires !p.icw2Pending
    ensures var p' := WriteData(p, chip, val);
            && (forall k: Line :: Requested(p', k) <==> Requested(p, k))
            && forall slave ::
                 && Number(ImrOf(p', slave)) == (if slave == chip then val as nat else Number(ImrOf(p, slave)))
                 && BaseOf(p', slave) == BaseOf(p, slave)
  {
    MaskBits(val);
    hide Number, BitsOf;
  }

  lemma EoiMoves(p: Pair, irq: Line, specific: bool)
    ensures var p' := WriteCommand(p, irq >= 8, EoiByte(irq, specific));
            && (forall k: Line :: Requested(p', k) <==> Requested(p, k))
            && forall slave :: ImrOf(p', slave) == ImrOf(p, slave) && BaseOf(p', slave) == BaseOf(p, slave)
  {
    EoiBytes(irq, specific);
    hide Eoi, EoiByte;
  }

  lemma ProgramMoves(p: Pair, masterBase: u8, slaveBase: u8)
    ensures var p' := Initialise(p, masterBase, slaveBase);
            && (forall k: Line :: !Requested(p', k) && !InService(p', k)) && !p'.icw2Pending
            && ImrOf(p', true) == ImrOf(p, true) && ImrOf(p', false) == ImrOf(p, false)
            && BaseOf(p', true) == slaveBase / 8 * 8 && BaseOf(p', false) == masterBase / 8 * 8
  {
  }

  lemma {:induction false} RunRecords(events: seq<Event>)
    ensures Recorded(Execute(Machine(Reset(), []), events).pair, events)
    decreases |events|
  {
    hide Perform, Disciplined, NextIrq, Requested, Asked, BaseOf, ImrOf, Number;
    if events == [] {
      Unused();
    } else {
      var start, before, last := Machine(Reset(), []), events[..|events| - 1], events[|events| - 1];
      assert events == before + [last];
      RunRecords(before);
      ExecuteSnoc(start, before, last);
      assert Disciplined(start) by { ResetDisciplined(); }
      RunKeeps(start, before);
      EventEffects(Execute(start, before), last);
      forall k: Line ensures Requested(Execute(start, events).pair, k) <==> Asked(events, k) {
        AskedSnoc(before, last, k);
      }
    }
  }

  lemma ResetDisciplined()
    ensures Disciplined(Machine(Reset(), []))
  {
  }

  lemma {:induction false} AllClear(b: seq<bool>)
    requires forall i :: 0 <= i < |b| ==> !b[i]
    ensures Number(b) == 0
  {
    if b != [] { AllClear(b[1..]); }
  }

  lemma Unused()
    ensures Recorded(Reset(), [])
  {
    forall k: Line ensures !Asked([], k) {}
    AllClear(ZERO);
  }

  /** After any run from power-on, whatever was raised, masked, acknowledged, finished
      and programmed: a line's request stands exactly if it was raised since it was
      last acknowledged, and its mask is that of the last byte written; the lines in
      service, in the order they were acknowledged, rise strictly in priority; the next
      EOI retires exactly the latest; and the next acknowledge answers with the best
      deliverable request, or none if there is none. */
  lemma NestingDiscipline(events: seq<Event>, specific: bool)
    ensures var m := Execute(Machine(Reset(), []), events);
            && Recorded(m.pair, events) && Disciplined(m) && Best(m.pair, NextIrq(m.pair))
            && (m.open != [] ==>
                  var m' := Perform(m, Finish(specific));
                  forall k: Line :: Device(k) ==>
                    (InService(m'.pair, k) <==> k != m.open[|m.open| - 1] && InService(m.pair, k)))
  {
    var start := Machine(Reset(), []);
    ResetDisciplined();
    RunRecords(events);
    RunKeeps(start, events);
    var m := Execute(start, events);
    NextIrqIsBest(m.pair);
    if m.open != [] { FinishRetiresTop(m, specific); }
  }
}
