/** The enumeration as the firmware runs it: nested loops and recursion updating the
    device table, the cursors and the configuration registers. */
module EcamDriver {
  import opened Machine
  import opened Ecam

  datatype Turn = Return | Break | Continue

  class Enumerator {
    const hw: Hardware
    const mapa: array<Row>
    var mapSize: nat
    var nextBus: nat
    var offset: u32
    var log: seq<Access>
    ghost var total: nat
    ghost var bars: seq<Bar>
    ghost var bridges: seq<Bridge>

    ghost function Abs(): State
      reads this, mapa
    {
      State(mapa[..], mapSize, nextBus, offset, log, total, bars, bridges)
    }

    constructor (hw: Hardware)
      ensures this.hw == hw && Abs() == Start(mapa[..]) && mapa.Length == MAX_DEVICES && fresh(mapa)
    {
      this.hw := hw;
      mapa := new Row[MAX_DEVICES](_ => Row(0, 0, 0, 0, Bdf(0, 0, 0)));
      mapSize, nextBus, offset, log := 0, 1, 0, [];
      total, bars, bridges := 0, [], [];
    }

    method Read(f: Bdf, off: nat) returns (v: u32)
      modifies this`log
      ensures (Abs(), v) == Read32(hw, old(Abs()), f, off)
    {
      v := hw(log, f, off);
      log := log + [Access.Read(f, off, v)];
    }

    method Write(f: Bdf, off: nat, v: u32)
      modifies this`log
      ensures Abs() == Write32(old(Abs()), f, off, v)
    {
      log := log + [Access.Write(f, off, v)];
    }

    method SizeOneBar(f: Bdf, i: nat)
      modifies this`log, this`offset, this`total, this`bars
      ensures Abs() == SizeBar(hw, old(Abs()), f, i)
    {
      Write(f, OffBar(i), 0xFFFF_FFFF);
      var v := Read(f, OffBar(i));
      if v != 0 {
        Write(f, OffBar(i), Add32(MIN_BAR_POS, offset));
        bars, total := bars + [Bar(f, i, total, PageUp(v))], total + PageUp(v);
        if v <= 4096 {
          offset := Add32(offset, 4096);
        } else {
          offset := Add32(offset, Add32(v, 4095) / 4096 * 4096);
        }
      }
    }

    /** The BAR loop of an endpoint. */
    method SizeAllBars(f: Bdf)
      modifies this`log, this`offset, this`total, this`bars
      ensures Abs() == SizeBars(hw, old(Abs()), f, 0)
    {
      ghost var s := Abs();
      for i := 0 to 4
        invariant SizeBars(hw, s, f, 0) == SizeBars(hw, Abs(), f, i)
      {
        SizeOneBar(f, i);
      }
    }

    method FillRow(f: Bdf) returns (classCode: u32)
      requires Abs().Wf() && mapSize < MAX_DEVICES
      modifies this`log, mapa
      ensures (Abs(), classCode) == Identify(hw, old(Abs()), f)
    {
      mapa[mapSize] := mapa[mapSize].(start := Add32(MIN_BAR_POS, offset), f := f);
      classCode := Read(f, OFF_CLASS);
      mapa[mapSize] := mapa[mapSize].(classCode := classCode);
    }

    method RecordEndpoint(f: Bdf)
      requires Abs().Wf() && mapSize < MAX_DEVICES
      modifies this`log, this`offset, this`total, this`bars, this`mapSize, mapa
      ensures Abs() == Endpoint(hw, old(Abs()), f)
    {
      SizeAllBars(f);
      var end := Add32(MIN_BAR_POS, offset);
      mapa[mapSize] := mapa[mapSize].(size := Sub32(end, mapa[mapSize].start), end := end);
      mapSize := mapSize + 1;
    }

    method StartBridge(f: Bdf)
      requires Abs().Wf() && mapSize < MAX_DEVICES
      modifies this, mapa
      ensures Abs() == OpenBridge(hw, old(Abs()), f)
    {
      offset, total := Align64K(offset), BlockUp(total);
      mapa[mapSize] := mapa[mapSize].(start := Add32(MIN_BAR_POS, offset));
      mapSize := mapSize + 1;
      var sec := nextBus;
      var pss := Read(f, OFF_PSS);
      Write(f, OFF_PSS, BusFields(pss / 0x100_0000, f.bus % 256, sec % 256, sec % 256));
      nextBus := nextBus + 1;
    }

    method CloseWindow(start: u32, ghost lo: nat)
      modifies this`offset, this`total
      ensures Abs() == AlignWindow(old(Abs()), start, lo)
    {
      if offset > Sub32(start, MIN_BAR_POS) {
        offset := Align64K(offset);
      }
      total := if total > lo then BlockUp(total) else total;
    }

    method SetBuses(f: Bdf, sec: nat)
      requires 1 <= nextBus
      modifies this`log
      ensures Abs() == ProgramBuses(hw, old(Abs()), f, sec)
    {
      var sub := (nextBus - 1) % 256;
      var pss := Read(f, OFF_PSS);
      var top, primary, secondary := pss / 0x100_0000, pss % 256, sec % 256;
      var fields := BusFields(top, primary, secondary, sub);
      Write(f, OFF_PSS, fields);
    }

    method SetWindow(f: Bdf, idx: nat)
      requires Abs().Wf() && idx < mapSize
      modifies this`log, mapa
      ensures Abs() == ProgramWindow(old(Abs()), f, idx)
    {
      var start, end := mapa[idx].start, Add32(MIN_BAR_POS, offset);
      mapa[idx] := mapa[idx].(end := end, size := Sub32(end, start));
      var mbase, mlimit := 0, 0;
      if end > start {
        mbase, mlimit := start / 0x1_0000, (end - 1) / 0x1_0000;
        Write(f, OFF_COMMAND, 3);
      }
      Write(f, OFF_LIMIT_BASE, mbase + mlimit * 0x1_0000);
    }

    method FinishBridge(f: Bdf, idx: nat, sec: nat, ghost lo: nat)
      requires Abs().Wf() && idx < mapSize
      modifies this, mapa
      ensures Abs() == CloseBridge(hw, old(Abs()), f, idx, sec, lo)
    {
      CloseWindow(mapa[idx].start, lo);
      SetBuses(f, sec);
      SetWindow(f, idx);
      bridges := bridges + [Bridge(f, idx, sec, nextBus - 1, lo, total)];
    }

    method EnterBridge(f: Bdf)
      requires Abs().Wf() && mapSize < MAX_DEVICES
      modifies this, mapa
      ensures Abs() == Behind(hw, old(Abs()), f)
      decreases MAX_DEVICES - mapSize, 0
    {
      var idx, sec := mapSize, nextBus;
      StartBridge(f);
      ghost var lo := total;
      BusEnumeration(sec);
      FinishBridge(f, idx, sec, lo);
    }

    /** The body of the inner loop: how it ends is `return`, `break`, or going on. */
    method VisitFunction(f: Bdf) returns (turn: Turn)
      requires Abs().Wf()
      modifies this, mapa
      ensures Visit(hw, old(Abs()), f) == match turn
                case Return => Stop(Abs())
                case Break => NextDevice(Abs())
                case Continue => NextFunction(Abs())
      decreases MAX_DEVICES - mapSize, 1
    {
      var vendorDevice := Read(f, OFF_VENDOR);
      if Absent(vendorDevice) {
        return if f.bus != 0 && f.dev == 0 then Return else Break;
      }
      if mapSize >= MAX_DEVICES {
        return Return;
      }
      var classCode := FillRow(f);
      if HeaderType(classCode) == 0 {
        RecordEndpoint(f);
        return Return;
      } else if HeaderType(classCode) == 1 {
        EnterBridge(f);
        return if f.fn == 0 && !MultiFunction(classCode) then Break else Continue;
      } else {
        return Break;
      }
    }

    /** Both loops over a bus. It terminates for every hardware: each recursive call finds a longer table. */
    method BusEnumeration(bus: nat)
      requires Abs().Wf()
      modifies this, mapa
      ensures Abs() == BusScan(hw, old(Abs()), bus)
      decreases MAX_DEVICES - mapSize, 2
    {
      if bus >= 256 {
        return;
      }
      ghost var s := Abs();
      var dev := 0;
      while dev < 32
        invariant dev <= 32 && Abs().Wf() && s.size <= mapSize
        invariant Scan(hw, s, bus, 0, 0) == Scan(hw, Abs(), bus, dev, 0)
      {
        var fn := 0;
        while fn < 8
          invariant fn <= 8 && Abs().Wf() && s.size <= mapSize
          invariant Scan(hw, s, bus, 0, 0) == Scan(hw, Abs(), bus, dev, fn)
        {
          var turn := VisitFunction(Bdf(bus, dev, fn));
          if turn == Return {
            return;
          }
          if turn == Break {
            break;
          }
          fn := fn + 1;
        }
        dev := dev + 1;
      }
    }

    method PcieBusEnumeration()
      requires Abs() == Start(mapa[..]) && mapa.Length == MAX_DEVICES
      modifies this, mapa
      ensures Abs() == Enumerate(hw, old(mapa[..]))
    {
      BusEnumeration(0);
    }
  }
}
