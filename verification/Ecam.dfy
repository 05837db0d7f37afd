/** The depth-first enumeration of the PCIe tree: bus numbers and memory windows
    handed out from two cursors threaded through the recursion. The hardware is
    any function of what was read and written so far. */
module Ecam {
  import opened Machine

  const MAX_DEVICES: nat := 64
  const MIN_BAR_POS: nat := 0xC000_0000
  /** The room between the first BAR address and the end of the 32-bit addresses. */
  const ADDRESS_ROOM: nat := 0x4000_0000
  /** The room between the first BAR address and the configuration space at 0xE000_0000. */
  const BAR_SPACE: nat := 0x2000_0000

  const OFF_VENDOR: nat := 0x00
  const OFF_COMMAND: nat := 0x04
  const OFF_CLASS: nat := 0x08
  const OFF_PSS: nat := 0x10
  const OFF_LIMIT_BASE: nat := 0x18

  function OffBar(i: nat): nat { 0x10 + 4 * i }

  /** A configuration-space function: bus, device and function number. */
  datatype Bdf = Bdf(bus: nat, dev: nat, fn: nat)

  datatype Access = Read(f: Bdf, off: nat, val: u32) | Write(f: Bdf, off: nat, val: u32)

  /** What a configuration read answers after a history of accesses. */
  type Hardware = (seq<Access>, Bdf, nat) -> u32

  /** A row of the device table. */
  datatype Row = Row(start: u32, end: u32, size: u32, classCode: u32, f: Bdf)

  /** A granted BAR: the bytes [lo, lo+len) above MIN_BAR_POS. */
  datatype Bar = Bar(f: Bdf, index: nat, lo: nat, len: nat)

  /** A finished bridge: its bus interval and its window [lo, hi) above MIN_BAR_POS. */
  datatype Bridge = Bridge(f: Bdf, row: nat, secondary: nat, subordinate: nat, lo: nat, hi: nat)

  /** The program's variables, the access log, and the history of grants; `total` is the allocation cursor
      without 32-bit wrap-around. */
  datatype State = State(mapa: seq<Row>, size: nat, nextBus: nat, offset: u32, log: seq<Access>,
                         total: nat, bars: seq<Bar>, bridges: seq<Bridge>)
  {
    predicate Wf() { |mapa| == MAX_DEVICES && size <= MAX_DEVICES && 1 <= nextBus <= size + 1 }
  }

  function Add32(a: u32, b: nat): u32 { (a + b) % WORD }

  function Sub32(a: u32, b: u32): u32 { (a + WORD - b) % WORD }

  /** Rounding up to whole pages, without wrap-around. */
  function PageUp(x: nat): (r: nat)
    ensures x <= r < x + 4096 && r % 4096 == 0
  {
    (x + 4095) / 4096 * 4096
  }

  /** Rounding up to whole 64 KB blocks, the granularity of bridge windows. */
  function BlockUp(x: nat): (r: nat)
    ensures x <= r < x + 0x1_0000 && r % 0x1_0000 == 0
  {
    (x + 0xFFFF) / 0x1_0000 * 0x1_0000
  }

  function Align64K(x: u32): u32 { Add32(x, 0xFFFF) / 0x1_0000 * 0x1_0000 }

  function BarAddress(s: State): u32 { Add32(MIN_BAR_POS, s.offset) }

  function Read32(hw: Hardware, s: State, f: Bdf, off: nat): (r: (State, u32)) {
    var v := hw(s.log, f, off);
    (s.(log := s.log + [Read(f, off, v)]), v)
  }

  function Write32(s: State, f: Bdf, off: nat, v: u32): State {
    s.(log := s.log + [Write(f, off, v)])
  }

  /** Size one BAR by writing ones and reading back, and grant it whole pages. */
  function SizeBar(hw: Hardware, s: State, f: Bdf, i: nat): (r: State)
    ensures r.mapa == s.mapa && r.size == s.size && r.nextBus == s.nextBus && r.bridges == s.bridges
    ensures s.total <= r.total
  {
    var (s1, v) := Read32(hw, Write32(s, f, OffBar(i), 0xFFFF_FFFF), f, OffBar(i));
    if v == 0 then s1
    else
      var s2 := Write32(s1, f, OffBar(i), BarAddress(s1));
      var wrapped := if v <= 4096 then 4096 else Add32(v, 4095) / 4096 * 4096;
      s2.(offset := Add32(s2.offset, wrapped), total := s2.total + PageUp(v),
          bars := s2.bars + [Bar(f, i, s2.total, PageUp(v))])
  }

  function SizeBars(hw: Hardware, s: State, f: Bdf, i: nat): (r: State)
    requires i <= 4
    ensures r.mapa == s.mapa && r.size == s.size && r.nextBus == s.nextBus && r.bridges == s.bridges
    ensures s.total <= r.total
    decreases 4 - i
  {
    if i == 4 then s else SizeBars(hw, SizeBar(hw, s, f, i), f, i + 1)
  }

  function SetRow(s: State, row: Row): State
    requires s.size < |s.mapa|
  {
    s.(mapa := s.mapa[s.size := row])
  }

  /** The first fields of the row under construction, and the class code read from the device. */
  function Identify(hw: Hardware, s: State, f: Bdf): (r: (State, u32))
    requires s.Wf() && s.size < MAX_DEVICES
    ensures r.0.Wf() && r.0.mapa[..s.size] == s.mapa[..s.size]
  {
    var s1 := SetRow(s, s.mapa[s.size].(start := BarAddress(s), f := f));
    var (s2, cc) := Read32(hw, s1, f, OFF_CLASS);
    (SetRow(s2, s2.mapa[s.size].(classCode := cc)), cc)
  }

  function Endpoint(hw: Hardware, s: State, f: Bdf): (r: State)
    requires s.Wf() && s.size < MAX_DEVICES
    ensures r.Wf() && r.size == s.size + 1 && r.nextBus == s.nextBus && s.total <= r.total
    ensures r.mapa[..s.size] == s.mapa[..s.size]
  {
    var s1 := SizeBars(hw, s, f, 0);
    var end := BarAddress(s1);
    var s2 := SetRow(s1, s1.mapa[s.size].(size := Sub32(end, s1.mapa[s.size].start), end := end));
    s2.(size := s.size + 1)
  }

  /** The primary, secondary and subordinate bus fields under the byte a bridge keeps for itself. */
  function BusFields(top: nat, primary: nat, sec: nat, sub: nat): (v: u32)
    requires top < 0x100 && primary < 0x100 && sec < 0x100 && sub < 0x100
  {
    top * 0x100_0000 + sub * 0x1_0000 + sec * 0x100 + primary
  }

  /** Start a bridge: align the cursor, record the row, and number the bus behind it. */
  function OpenBridge(hw: Hardware, s: State, f: Bdf): (r: State)
    requires s.Wf() && s.size < MAX_DEVICES
    ensures r.Wf() && r.size == s.size + 1 && r.nextBus == s.nextBus + 1 && s.total <= r.total
    ensures r.mapa[..s.size] == s.mapa[..s.size]
  {
    var s1 := s.(offset := Align64K(s.offset), total := BlockUp(s.total));
    var s2 := SetRow(s1, s1.mapa[s.size].(start := BarAddress(s1)));
    var sec := s.nextBus;
    var (s3, pss) := Read32(hw, s2.(size := s.size + 1), f, OFF_PSS);
    var s4 := Write32(s3, f, OFF_PSS, BusFields(pss / 0x100_0000, f.bus % 256, sec % 256, sec % 256));
    s4.(nextBus := sec + 1)
  }

  /** Align the cursor if anything was granted behind a bridge whose window starts at address `start`, `lo` above the first. */
  function AlignWindow(s: State, start: u32, lo: nat): (r: State)
    ensures r == s.(offset := r.offset, total := r.total) && s.total <= r.total
  {
    s.(offset := if s.offset > Sub32(start, MIN_BAR_POS) then Align64K(s.offset) else s.offset,
       total := if s.total > lo then BlockUp(s.total) else s.total)
  }

  /** The final bus interval of a bridge: up to the last number given out. */
  function ProgramBuses(hw: Hardware, s: State, f: Bdf, sec: nat): (r: State)
    ensures r == s.(log := r.log)
  {
    var (s1, pss) := Read32(hw, s, f, OFF_PSS);
    Write32(s1, f, OFF_PSS, BusFields(pss / 0x100_0000, pss % 256, sec % 256, (s.nextBus - 1) % 256))
  }

  /** The base and limit fields programmed for the window of a row, and 0 for an empty one. */
  function LimitBase(start: u32, end: u32): u32 {
    if end > start then start / 0x1_0000 + (end - 1) / 0x1_0000 * 0x1_0000 else 0
  }

  /** Complete the row of a bridge and program its window, enabling it unless it is empty. */
  function ProgramWindow(s: State, f: Bdf, idx: nat): (r: State)
    requires s.Wf() && idx < s.size
    ensures r.Wf() && r == s.(log := r.log, mapa := r.mapa) && r.mapa == s.mapa[idx := r.mapa[idx]]
  {
    var start, end := s.mapa[idx].start, BarAddress(s);
    var s1 := s.(mapa := s.mapa[idx := s.mapa[idx].(end := end, size := Sub32(end, start))]);
    var s2 := if end > start then Write32(s1, f, OFF_COMMAND, 3) else s1;
    Write32(s2, f, OFF_LIMIT_BASE, LimitBase(start, end))
  }

  /** Finish a bridge whose window starts `lo` above the first BAR address. */
  function CloseBridge(hw: Hardware, s: State, f: Bdf, idx: nat, sec: nat, lo: nat): (r: State)
    requires s.Wf() && idx < s.size
    ensures r.Wf() && r.size == s.size && r.nextBus == s.nextBus && s.total <= r.total
    ensures r.mapa == s.mapa[idx := r.mapa[idx]]
  {
    var s1 := AlignWindow(s, s.mapa[idx].start, lo);
    var s2 := ProgramWindow(ProgramBuses(hw, s1, f, sec), f, idx);
    s2.(bridges := s2.bridges + [Bridge(f, idx, sec, s.nextBus - 1, lo, s1.total)])
  }

  predicate Absent(vendorDevice: u32) { vendorDevice % 0x1_0000 == 0xFFFF }

  function HeaderType(classCode: u32): nat { classCode / 0x100_0000 % 0x80 }

  predicate MultiFunction(classCode: u32) { classCode / 0x8000_0000 == 1 }

  /** How the loops go on after one function was looked at. */
  datatype Next = Stop(s: State) | NextDevice(s: State) | NextFunction(s: State)

  /** One turn of the inner loop. */
  function Visit(hw: Hardware, s: State, f: Bdf): (r: Next)
    requires s.Wf()
    ensures r.s.Wf() && s.size <= r.s.size && s.nextBus <= r.s.nextBus && s.total <= r.s.total
    ensures r.s.mapa[..s.size] == s.mapa[..s.size]
    ensures r.s.nextBus - s.nextBus == |r.s.bridges| - |s.bridges|
    decreases MAX_DEVICES - s.size, 1
  {
    var (s0, vendorDevice) := Read32(hw, s, f, OFF_VENDOR);
    if Absent(vendorDevice) then
      if f.bus != 0 && f.dev == 0 then Stop(s0) else NextDevice(s0)
    else if s0.size >= MAX_DEVICES then Stop(s0)
    else
      var (s1, classCode) := Identify(hw, s0, f);
      if HeaderType(classCode) == 0 then Stop(Endpoint(hw, s1, f))
      else if HeaderType(classCode) == 1 then
        var s4 := Behind(hw, s1, f);
        if f.fn == 0 && !MultiFunction(classCode) then NextDevice(s4) else NextFunction(s4)
      else NextDevice(s1)
  }

  /** The scan of `bus` from device `dev`, function `fn` onward. */
  function Scan(hw: Hardware, s: State, bus: nat, dev: nat, fn: nat): (r: State)
    requires s.Wf() && dev <= 32 && fn <= 8
    ensures r.Wf() && s.size <= r.size && s.nextBus <= r.nextBus && s.total <= r.total
    ensures r.mapa[..s.size] == s.mapa[..s.size]
    ensures r.nextBus - s.nextBus == |r.bridges| - |s.bridges|
    decreases MAX_DEVICES - s.size, 2 + 9 * (32 - dev) + (8 - fn)
  {
    if dev == 32 then s
    else if fn == 8 then Scan(hw, s, bus, dev + 1, 0)
    else match Visit(hw, s, Bdf(bus, dev, fn))
      case Stop(s1) => s1
      case NextDevice(s1) => Scan(hw, s1, bus, dev + 1, 0)
      case NextFunction(s1) => Scan(hw, s1, bus, dev, fn + 1)
  }

  /** A bridge with everything behind it. */
  function Behind(hw: Hardware, s: State, f: Bdf): (r: State)
    requires s.Wf() && s.size < MAX_DEVICES
    ensures r.Wf() && s.size < r.size && s.nextBus < r.nextBus && s.total <= r.total
    ensures r.mapa[..s.size] == s.mapa[..s.size]
    ensures r.nextBus - s.nextBus == |r.bridges| - |s.bridges|
    decreases MAX_DEVICES - s.size, 0
  {
    var s2 := OpenBridge(hw, s, f);
    var s3 := BusScan(hw, s2, s.nextBus);
    CloseBridge(hw, s3, f, s.size, s.nextBus, s2.total)
  }

  function BusScan(hw: Hardware, s: State, bus: nat): (r: State)
    requires s.Wf()
    ensures r.Wf() && s.size <= r.size && s.nextBus <= r.nextBus && s.total <= r.total
    ensures r.mapa[..s.size] == s.mapa[..s.size]
    ensures r.nextBus - s.nextBus == |r.bridges| - |s.bridges|
    decreases MAX_DEVICES - s.size, 2 + 9 * 32 + 9
  {
    if bus >= 256 then s else Scan(hw, s, bus, 0, 0)
  }

  /** The variables before enumeration; the table may hold anything. */
  function Start(mapa: seq<Row>): State { State(mapa, 0, 1, 0, [], 0, [], []) }

  function Enumerate(hw: Hardware, mapa: seq<Row>): State
    requires |mapa| == MAX_DEVICES
  {
    BusScan(hw, Start(mapa), 0)
  }
}
