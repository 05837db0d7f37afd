/** The two processes of the buffer, updating its register arrays in place. */
module TlbUnit {
  import opened Machine
  import opened Tlb

  class TlbLru {
    const numEntries: nat
    const ageBits: nat
    const valid: array<bool>
    const vpn: array<nat>
    const pcid: array<nat>
    const frame: array<u32>
    const age: array<nat>
    var hitFound: bool
    var hitIdx: nat

    ghost predicate Valid() {
      && 0 < numEntries
      && valid.Length == vpn.Length == pcid.Length == frame.Length == age.Length == numEntries
      && vpn != pcid && vpn != age && pcid != age
    }

    function At(i: nat): Entry
      requires Valid() && i < numEntries
      reads valid, vpn, pcid, frame, age
    {
      Entry(valid[i], vpn[i], pcid[i], frame[i], age[i])
    }

    /** The registers as one table. */
    ghost function Table(): (t: seq<Entry>)
      requires Valid()
      reads valid, vpn, pcid, frame, age
      ensures |t| == numEntries && forall i :: 0 <= i < numEntries ==> t[i] == At(i)
    {
      seq(numEntries, i requires 0 <= i < numEntries reads valid, vpn, pcid, frame, age => At(i))
    }

    constructor (n: nat, bits: nat)
      requires 2 <= n
      ensures Valid() && numEntries == n && ageBits == bits
      ensures fresh(valid) && fresh(vpn) && fresh(pcid) && fresh(frame) && fresh(age)
    {
      numEntries, ageBits := n, bits;
      valid, vpn, pcid, frame, age := new bool[n], new nat[n], new nat[n], new u32[n], new nat[n];
      hitFound, hitIdx := false, 0;
    }

    /** The combinational look-up: later matches overwrite earlier ones. */
    method Lookup(pins: Pins) returns (hit: bool, physFrame: u32)
      requires Valid()
      modifies this`hitFound, this`hitIdx
      ensures (hit, physFrame) == Output(Table(), pins)
      ensures hitFound == hit && (hit ==> Find(Table(), pins) == Some(hitIdx))
    {
      hit, physFrame, hitIdx := false, 0, 0;
      if pins.lookupEn {
        ghost var t := Table();
        for i := 0 to numEntries
          invariant Table() == t
          invariant LastMatch(t, Vpn(pins.virtAddr), PcidLow(pins.pcid), i) == if hit then Some(hitIdx) else None
          invariant hit ==> hitIdx < i && physFrame == t[hitIdx].frame
          invariant !hit ==> physFrame == 0
        {
          if valid[i] && vpn[i] == Vpn(pins.virtAddr) && (pcid[i] == PcidLow(pins.pcid) || Global(frame[i])) {
            hit, physFrame, hitIdx := true, frame[i], i;
          }
        }
      }
      hitFound := hit;
      assert |Table()| == numEntries;
    }

    /** The search of a write: the first invalid slot, or else the slot of least age. */
    method FindVictim() returns (target: nat, victimAge: nat)
      requires Valid()
      ensures (target, victimAge) == Victim(Table(), ageBits)
    {
      var freeFound, freeIdx, lruIdx := false, 0, 0;
      var minAge := Pow2(ageBits) - 1;
      ghost var t := Table();
      for i := 0 to numEntries
        invariant FirstFree(t, i) == if freeFound then Some(freeIdx) else None
        invariant freeFound ==> freeIdx < i
        invariant lruIdx < numEntries
        invariant MinAge(t, Pow2(ageBits) - 1, i) == (minAge, lruIdx)
      {
        if !valid[i] && !freeFound {
          freeFound, freeIdx := true, i;
        }
        if age[i] < minAge {
          minAge, lruIdx := age[i], i;
        }
      }
      if freeFound {
        target, victimAge := freeIdx, age[freeIdx];
      } else {
        target, victimAge := lruIdx, minAge;
      }
    }

    method Reset()
      requires Valid()
      modifies valid, age
      ensures forall i :: 0 <= i < numEntries ==> At(i) == old(At(i)).(valid := false, age := 0)
    {
      for i := 0 to numEntries
        invariant forall k :: 0 <= k < numEntries ==>
          At(k) == if k < i then old(At(k)).(valid := false, age := 0) else old(At(k))
      {
        valid[i], age[i] := false, 0;
      }
    }

    /** Every valid entry but `except` that is younger than `a` loses one place. */
    method AgeOthers(except: nat, a: nat)
      requires Valid() && except < numEntries
      modifies age
      ensures forall i :: 0 <= i < numEntries ==> At(i) == if i == except then old(At(i)) else Aged(old(At(i)), a)
    {
      for i := 0 to numEntries
        invariant forall k :: 0 <= k < numEntries ==>
          At(k) == if k < i && k != except then Aged(old(At(k)), a) else old(At(k))
      {
        if i != except && valid[i] && age[i] > a {
          age[i] := age[i] - 1;
        }
      }
    }

    method Write(pins: Pins)
      requires Valid()
      modifies valid, vpn, pcid, frame, age
      ensures Table() == Written(old(Table()), ageBits, pins)
    {
      ghost var t := Table();
      var target, victimAge := FindVictim();
      vpn[target], pcid[target], frame[target] := Vpn(pins.virtAddr), PcidLow(pins.pcid), pins.writePhys;
      valid[target], age[target] := true, MaxAge(numEntries, ageBits);
      assert forall i :: 0 <= i < numEntries && i != target ==> At(i) == t[i];
      AgeOthers(target, victimAge);
    }

    method Promote()
      requires Valid() && hitIdx < numEntries
      modifies age
      ensures Table() == Promoted(old(Table()), ageBits, hitIdx)
    {
      ghost var t := Table();
      var victimAge := age[hitIdx];
      age[hitIdx] := MaxAge(numEntries, ageBits);
      assert forall i :: 0 <= i < numEntries && i != hitIdx ==> At(i) == t[i];
      AgeOthers(hitIdx, victimAge);
    }

    /** One rising edge: the look-up settles on the pins, then the registers take their next value. */
    method Clock(pins: Pins) returns (hit: bool, physFrame: u32)
      requires Valid()
      modifies this`hitFound, this`hitIdx, valid, vpn, pcid, frame, age
      ensures Table() == Step(old(Table()), ageBits, pins)
      ensures (hit, physFrame) == Output(old(Table()), pins)
    {
      hit, physFrame := Lookup(pins);
      if pins.reset {
        Reset();
      } else if pins.writeEn {
        Write(pins);
      } else if pins.lookupEn && hitFound {
        Promote();
      }
    }
  }
}
