/** The keyboard driver: the key ring its interrupt fills, and the line editor that
    empties it, echoing late. When keys arrive is fixed by a schedule of batches, one
    for each time the editor looks at the ring; every timing is some schedule. */
module Keyboard {
  import opened Machine

  const KEYQ_SIZE: nat := 64

  // ---------------------------------------------------------------------------
  // What a line of keys amounts to
  // ---------------------------------------------------------------------------

  predicate IsEnd(key: byte) { key as char == '\n' || key as char == '\r' }

  /** Backspace or delete. */
  predicate IsErase(key: byte) { key == 0x08 || key == 0x7F }

  predicate IsPrintable(key: byte) { ' ' <= key as char <= '~' }

  /** One key applied to a line of at most `max - 1` characters. */
  function Edit(line: seq<byte>, key: byte, max: nat): seq<byte> {
    if IsErase(key) then (if line == [] then [] else Front(line))
    else if IsPrintable(key) && |line| + 1 < max then line + [key]
    else line
  }

  /** The line that keys leave behind. */
  function LineOf(keys: seq<byte>, max: nat): (line: seq<byte>)
    ensures max > 0 ==> |line| < max
    ensures forall i :: 0 <= i < |line| ==> IsPrintable(line[i])
  {
    if keys == [] then [] else Edit(LineOf(Front(keys), max), Last(keys), max)
  }

  ghost predicate NoEnd(keys: seq<byte>) { forall i :: 0 <= i < |keys| ==> !IsEnd(keys[i]) }

  lemma LineStep(keys: seq<byte>, from: nat, to: nat, max: nat)
    requires from <= to < |keys|
    ensures LineOf(keys[from..to + 1], max) == Edit(LineOf(keys[from..to], max), keys[to], max)
  {
    assert Front(keys[from..to + 1]) == keys[from..to] && Last(keys[from..to + 1]) == keys[to];
  }

  /** The printable keys, in order. */
  function Printables(keys: seq<byte>): seq<byte> {
    if keys == [] then []
    else if IsPrintable(Last(keys)) then Printables(Front(keys)) + [Last(keys)]
    else Printables(Front(keys))
  }

  /** Without erasing, the line is the printable keys cut at `max - 1`. */
  lemma {:induction false} LineWithoutErase(keys: seq<byte>, max: nat)
    requires max > 0 && forall i :: 0 <= i < |keys| ==> !IsErase(keys[i])
    ensures LineOf(keys, max) == if |Printables(keys)| < max then Printables(keys) else Printables(keys)[..max - 1]
  {
    if keys != [] {
      LineWithoutErase(Front(keys), max);
      assert !IsErase(Last(keys));
    }
  }

  /** Erasing undoes a printable key exactly when the key still fitted, or the line has no room for any. */
  lemma EraseUndoes(keys: seq<byte>, key: byte, erase: byte, max: nat)
    requires max > 0 && IsPrintable(key) && IsErase(erase)
    ensures LineOf(keys + [key, erase], max) == LineOf(keys, max) <==> |LineOf(keys, max)| + 1 < max || max == 1
  {
    var line := LineOf(keys, max);
    assert Front(keys + [key, erase]) == keys + [key] && Front(keys + [key]) == keys;
    assert LineOf(keys + [key], max) == Edit(line, key, max);
    assert LineOf(keys + [key, erase], max) == Edit(Edit(line, key, max), erase, max);
    assert |line| + 1 < max ==> Front(line + [key]) == line;
  }

  /** What a write does to the line on the screen: a lone backspace erases, any other text is appended. */
  function Display(line: seq<byte>, text: seq<byte>): seq<byte> {
    if text == [8] then (if line == [] then [] else Front(line)) else line + text
  }

  /** The keys of a schedule, in order of arrival. */
  function Flat(batches: seq<seq<byte>>): (keys: seq<byte>) {
    if batches == [] then [] else batches[0] + Flat(batches[1..])
  }

  /** Where the first CR or LF stands, the length if there is none. */
  function FirstEnd(keys: seq<byte>): (n: nat)
    ensures n <= |keys| && NoEnd(keys[..n]) && (n < |keys| ==> IsEnd(keys[n]))
  {
    if keys == [] || IsEnd(keys[0]) then 0 else 1 + FirstEnd(keys[1..])
  }

  lemma {:induction false} FirstEndIs(keys: seq<byte>, n: nat)
    requires n <= |keys| && NoEnd(keys[..n]) && (n < |keys| ==> IsEnd(keys[n]))
    ensures FirstEnd(keys) == n
  {
    if n > 0 {
      assert keys[..n][0] == keys[0];
      assert keys[1..][..n - 1] == keys[..n][1..];
      FirstEndIs(keys[1..], n - 1);
    }
  }

  /** `a` is what is left of `b` when some keys are taken out. */
  ghost predicate Subsequence(a: seq<byte>, b: seq<byte>) {
    a == [] || (b != [] && ((Last(a) == Last(b) && Subsequence(Front(a), Front(b))) || Subsequence(a, Front(b))))
  }

  /** A key that arrives is kept or lost. */
  lemma KeyAccounted(a: seq<byte>, b: seq<byte>, key: byte)
    ensures Subsequence(a, b) ==> Subsequence(a + [key], b + [key]) && Subsequence(a, b + [key])
  {
    assert Front(a + [key]) == a && Front(b + [key]) == b;
  }

  // ---------------------------------------------------------------------------
  // The driver
  // ---------------------------------------------------------------------------

  /** How a call ends: refused, a line of so many characters, or still waiting when the schedule has run out. */
  datatype Outcome = Refused | Finished(n: nat) | Waiting

  /** One more key would make the ring look empty exactly when all but one place is taken; until then its place is free. */
  lemma RingFull(taken: nat, accepted: nat)
    requires taken <= accepted < taken + KEYQ_SIZE
    ensures (accepted % KEYQ_SIZE + 1) % KEYQ_SIZE == taken % KEYQ_SIZE <==> accepted == taken + KEYQ_SIZE - 1
    ensures (accepted % KEYQ_SIZE + 1) % KEYQ_SIZE == (accepted + 1) % KEYQ_SIZE
    ensures forall k: nat :: taken <= k < accepted ==> k % KEYQ_SIZE != accepted % KEYQ_SIZE
  {
  }

  lemma NextPlace(n: nat)
    ensures (n % KEYQ_SIZE + 1) % KEYQ_SIZE == (n + 1) % KEYQ_SIZE
  {
  }

  lemma RingEmpty(taken: nat, accepted: nat)
    requires taken <= accepted < taken + KEYQ_SIZE
    ensures taken % KEYQ_SIZE == accepted % KEYQ_SIZE <==> taken == accepted
  {
  }

  class Driver {
    const ring: array<byte>
    var head: nat
    var tail: nat
    /** The batches of keys still to arrive. */
    var future: seq<seq<byte>>
    /** The characters of the current screen line. */
    var screen: seq<byte>
    ghost var arrived: seq<byte>
    ghost var accepted: seq<byte>
    ghost var dropped: nat
    ghost var taken: nat

    /** The keys accepted and not yet taken stand in the ring, oldest at the tail. */
    ghost predicate Valid()
      reads this, ring
    {
      && ring.Length == KEYQ_SIZE && head < KEYQ_SIZE && tail < KEYQ_SIZE
      && taken <= |accepted| < taken + KEYQ_SIZE
      && head == |accepted| % KEYQ_SIZE && tail == taken % KEYQ_SIZE
      && (forall k :: taken <= k < |accepted| ==> ring[k % KEYQ_SIZE] == accepted[k])
    }

    /** Every key that arrived was accepted, in order, or dropped. */
    ghost predicate Accounted()
      reads this`accepted, this`arrived, this`dropped
    {
      |accepted| + dropped == |arrived| && Subsequence(accepted, arrived)
    }

    /** Every key of the whole schedule, those already arrived first. */
    ghost function Keys(): seq<byte>
      reads this`arrived, this`future
    {
      arrived + Flat(future)
    }

    /** The keys accepted so far and those still to arrive. */
    ghost function Stream(): seq<byte>
      reads this`accepted, this`future
    {
      accepted + Flat(future)
    }

    /** The keys that wait in the ring and those still to arrive. */
    ghost function Coming(): seq<byte>
      requires Valid()
      reads this, ring
    {
      accepted[taken..] + Flat(future)
    }

    /** A bound on the work left: keys in the ring or to come, and looks at the schedule. */
    ghost function Work(): nat
      requires Valid()
      reads this, ring
    {
      |accepted| - taken + |Flat(future)| + |future|
    }

    constructor (schedule: seq<seq<byte>>)
      ensures Valid() && Accounted() && fresh(ring) && future == schedule && screen == [] && taken == |accepted| == |arrived| == 0
    {
      ring := new byte[KEYQ_SIZE](_ => 0);
      head, tail, future, screen := 0, 0, schedule, [];
      arrived, accepted, dropped, taken := [], [], 0, 0;
    }

    /** The interrupt handler: queue the key unless that would make the ring look empty. */
    method KeyIrq(key: byte)
      requires Valid()
      modifies this`head, this`arrived, this`accepted, this`dropped, ring
      ensures Valid() && arrived == old(arrived) + [key]
      ensures accepted == if old(|accepted|) - taken < 63 then old(accepted) + [key] else old(accepted)
      ensures dropped == if old(|accepted|) - taken < 63 then old(dropped) else old(dropped) + 1
      ensures old(Accounted()) ==> Accounted()
    {
      var next := (head + 1) % KEYQ_SIZE;
      RingFull(taken, |accepted|);
      KeyAccounted(accepted, arrived, key);
      arrived := arrived + [key];
      if next != tail {
        ring[head] := key;
        head := next;
        accepted := accepted + [key];
      } else {
        dropped := dropped + 1;
      }
    }

    /** One interrupt; its key is kept, unless it is dropped. */
    method KeyArrives(key: byte)
      requires Valid()
      modifies this`head, this`arrived, this`accepted, this`dropped, ring
      ensures Valid() && old(accepted) <= accepted && |accepted| <= |old(accepted)| + 1 && arrived == old(arrived) + [key]
      ensures old(Accounted()) ==> Accounted()
      ensures old(dropped) <= dropped && (dropped == old(dropped) ==> accepted == old(accepted) + [key])
    {
      KeyIrq(key);
    }

    /** A batch of keys, one interrupt each. */
    method Arrive(batch: seq<byte>)
      requires Valid()
      modifies this`head, this`arrived, this`accepted, this`dropped, ring
      ensures Valid() && old(accepted) <= accepted && |accepted| <= |old(accepted)| + |batch|
      ensures old(Accounted()) ==> Accounted()
      ensures arrived == old(arrived) + batch && old(dropped) <= dropped
      ensures dropped == old(dropped) ==> accepted == old(accepted) + batch
    {
      for i := 0 to |batch|
        invariant Valid() && old(accepted) <= accepted && |accepted| <= |old(accepted)| + i
        invariant old(Accounted()) ==> Accounted()
        invariant arrived == old(arrived) + batch[..i] && old(dropped) <= dropped
        invariant dropped == old(dropped) ==> accepted == old(accepted) + batch[..i]
      {
        KeyArrives(batch[i]);
        assert batch[..i + 1] == batch[..i] + [batch[i]];
      }
      assert batch[..|batch|] == batch;
    }

    /** Look at the ring once the next batch has arrived: is there a key? */
    method Poll() returns (some: bool)
      requires Valid()
      modifies this`head, this`arrived, this`accepted, this`dropped, this`future, ring
      ensures Valid() && some == (|accepted| > taken) && old(accepted) <= accepted
      ensures old(Accounted()) ==> Accounted()
      ensures Keys() == old(Keys()) && old(dropped) <= dropped && (dropped == old(dropped) ==> Stream() == old(Stream()))
      ensures future == if old(future) == [] then [] else old(future)[1..]
      ensures Work() <= old(Work()) && (old(future) != [] ==> Work() < old(Work()))
      ensures some == (head != tail)
    {
      if future != [] {
        var batch := future[0];
        future := future[1..];
        Arrive(batch);
      }
      some := tail != head;
      RingEmpty(taken, |accepted|);
    }

    /** Take the oldest key. */
    method Take() returns (key: byte)
      requires Valid() && taken < |accepted|
      modifies this`tail, this`taken
      ensures Valid() && taken == old(taken) + 1 && key == accepted[taken - 1]
      ensures Work() + 1 == old(Work())
    {
      key := ring[tail];
      NextPlace(taken);
      tail := (tail + 1) % KEYQ_SIZE;
      taken := taken + 1;
    }

    method BiosWrite(text: seq<byte>)
      modifies this`screen
      ensures screen == Display(old(screen), text)
    {
      if text == [8] {
        if screen != [] {
          screen := screen[..|screen| - 1];
        }
      } else {
        screen := screen + text;
      }
    }

    /** Where the editor stands: the buffer holds the line of the keys taken since `start`, the screen its first `echoed` characters. */
    ghost predicate Editing(out: array<byte>, max: nat, start: nat, upto: nat, n: nat, echoed: nat)
      reads this, out
    {
      && start <= upto <= |accepted| && echoed <= n < max <= out.Length
      && NoEnd(accepted[start..upto])
      && out[..n] == LineOf(accepted[start..upto], max)
      && screen == out[..echoed]
    }

    /** The line ended with the key at `upto`, and nothing was taken beyond it but the LF of a CR LF pair, if that waited. */
    ghost predicate Ended(start: nat, upto: nat)
      reads this
    {
      && start <= upto < taken <= |accepted| && IsEnd(accepted[upto])
      && (taken == upto + 1 || (taken == upto + 2 && accepted[upto] == 13 && accepted[upto + 1] == 10))
      && (taken == upto + 1 && taken < |accepted| && accepted[upto] == 13 ==> accepted[taken] != 10)
    }

    /** Drop the last character, from the screen too if it was echoed. */
    method Erase(out: array<byte>, n: nat, echoed: nat) returns (n': nat, echoed': nat)
      requires echoed <= n <= out.Length && screen == out[..echoed]
      modifies this`screen
      ensures n' == (if n > 0 then n - 1 else 0) && echoed' <= n' && screen == out[..echoed']
    {
      n', echoed' := n, echoed;
      if n > 0 {
        n' := n - 1;
        if echoed > n' {
          echoed' := n';
          BiosWrite([8]);
        }
      }
    }

    /** Put a character behind the line. */
    method Append(out: array<byte>, n: nat, echoed: nat, key: byte)
      requires echoed <= n < out.Length && screen == out[..echoed]
      modifies out
      ensures out[..n + 1] == old(out[..n]) + [key] && screen == out[..echoed]
    {
      ghost var line := out[..n];
      out[n] := key;
      assert out[..n] == line;
    }

    /** One editing key applied to the buffer, erasing on the screen what was already echoed. */
    method EditBuffer(out: array<byte>, max: nat, key: byte, n: nat, echoed: nat) returns (n': nat, echoed': nat)
      requires echoed <= n < max <= out.Length && screen == out[..echoed]
      modifies this`screen, out
      ensures echoed' <= n' < max && screen == out[..echoed']
      ensures out[..n'] == Edit(old(out[..n]), key, max)
    {
      n', echoed' := n, echoed;
      if key == 8 || key == 127 {
        n', echoed' := Erase(out, n, echoed);
      } else if key >= 32 && key < 127 {
        if n < max - 1 {
          Append(out, n, echoed, key);
          n' := n + 1;
        }
      }
    }

    /** The key just taken, which does not end the line. */
    method EditKey(out: array<byte>, max: nat, key: byte, ghost start: nat, n: nat, echoed: nat) returns (n': nat, echoed': nat)
      requires Valid() && out != ring && 0 < taken && !IsEnd(key) && key == accepted[taken - 1]
      requires Editing(out, max, start, taken - 1, n, echoed)
      modifies this`screen, out
      ensures Valid() && Editing(out, max, start, taken, n', echoed')
    {
      LineStep(accepted, start, taken - 1, max);
      assert accepted[start..taken] == accepted[start..taken - 1] + [key];
      n', echoed' := EditBuffer(out, max, key, n, echoed);
    }

    /** One turn of the inner loop, a key being there: edit with it, or end the line and drop the LF of a CR LF. */
    method OneKey(out: array<byte>, max: nat, ghost start: nat, n: nat, echoed: nat)
      returns (n': nat, echoed': nat, done: bool, ghost upto: nat)
      requires Valid() && out != ring && taken < |accepted| && Editing(out, max, start, taken, n, echoed)
      modifies this, out, ring
      ensures Valid() && old(accepted) <= accepted && old(taken) < taken
      ensures old(Accounted()) ==> Accounted()
      ensures Keys() == old(Keys()) && old(dropped) <= dropped && (dropped == old(dropped) ==> Stream() == old(Stream()))
      ensures if done then Ended(start, upto) else upto == taken
      ensures Editing(out, max, start, upto, n', echoed') && Work() < old(Work())
    {
      upto := taken;
      ghost var before := accepted;
      var key := Take();
      if key == 10 || key == 13 {
        n', echoed', done := n, echoed, true;
        if key == 13 {
          var more := Poll();
          PrefixSlice(before, accepted, start, upto);
          if more && ring[tail] == 10 {
            var lf := Take();
          }
        }
      } else {
        done := false;
        n', echoed' := EditKey(out, max, key, start, n, echoed);
        upto := taken;
      }
    }

    /** The inner loop: take keys until the ring is empty or the line ends. */
    method Drain(out: array<byte>, max: nat, ghost start: nat, n0: nat, echoed0: nat)
      returns (n: nat, echoed: nat, done: bool, ghost upto: nat)
      requires Valid() && out != ring && Editing(out, max, start, taken, n0, echoed0)
      modifies this, out, ring
      ensures Valid() && old(accepted) <= accepted && old(taken) <= taken
      ensures old(Accounted()) ==> Accounted()
      ensures Keys() == old(Keys()) && old(dropped) <= dropped && (dropped == old(dropped) ==> Stream() == old(Stream()))
      ensures if done then Ended(start, upto) else upto == taken
      ensures Editing(out, max, start, upto, n, echoed)
      ensures Work() <= old(Work()) && (old(|accepted| > taken) ==> Work() < old(Work()))
    {
      n, echoed, done, upto := n0, echoed0, false, taken;
      while !done
        invariant Valid() && old(accepted) <= accepted && old(taken) <= taken
        invariant old(Accounted()) ==> Accounted()
        invariant Keys() == old(Keys()) && old(dropped) <= dropped && (dropped == old(dropped) ==> Stream() == old(Stream()))
        invariant if done then Ended(start, upto) else upto == taken
        invariant Editing(out, max, start, upto, n, echoed)
        invariant Work() <= old(Work())
        invariant taken > old(taken) ==> Work() < old(Work())
        decreases !done, Work()
      {
        ghost var before := accepted;
        var some := Poll();
        PrefixSlice(before, accepted, start, upto);
        if !some {
          break;
        }
        n, echoed, done, upto := OneKey(out, max, start, n, echoed);
      }
    }

    /** Sleep until there is a key, or the schedule has run out. */
    method AwaitKey(out: array<byte>, max: nat, ghost start: nat, n: nat, echoed: nat) returns (some: bool)
      requires Valid() && out != ring && Editing(out, max, start, taken, n, echoed)
      modifies this`head, this`arrived, this`accepted, this`dropped, this`future, ring
      ensures Valid() && old(accepted) <= accepted && Editing(out, max, start, taken, n, echoed)
      ensures old(Accounted()) ==> Accounted()
      ensures Keys() == old(Keys()) && old(dropped) <= dropped && (dropped == old(dropped) ==> Stream() == old(Stream()))
      ensures Work() <= old(Work()) && (if some then |accepted| > taken else future == [] && taken == |accepted|)
    {
      ghost var before := accepted;
      some := Poll();
      PrefixSlice(before, accepted, start, taken);
      while !some && future != []
        invariant Valid() && old(accepted) <= accepted && Editing(out, max, start, taken, n, echoed)
        invariant old(Accounted()) ==> Accounted()
        invariant Keys() == old(Keys()) && old(dropped) <= dropped && (dropped == old(dropped) ==> Stream() == old(Stream()))
        invariant Work() <= old(Work()) && some == (|accepted| > taken)
        decreases |future|
      {
        before := accepted;
        some := Poll();
        PrefixSlice(before, accepted, start, taken);
      }
    }

    /** Echo what is in the buffer but not yet on the screen. */
    method EchoNew(out: array<byte>, max: nat, ghost start: nat, ghost upto: nat, n: nat, echoed: nat)
      requires Valid() && out != ring && Editing(out, max, start, upto, n, echoed)
      modifies this`screen, out
      ensures Valid() && Editing(out, max, start, upto, n, n)
    {
      if n > echoed {
        out[n] := 0;
        EchoIsText(out[..n], echoed);
        assert out[..n][echoed..] == out[echoed..n];
        BiosWrite(out[echoed..n]);
        assert out[..echoed] + out[echoed..n] == out[..n];
      }
    }

    /** The outer loop, from an empty line to the key that ends it. */
    method ReadLine(out: array<byte>, max: nat) returns (r: Outcome, ghost upto: nat)
      requires Valid() && out != ring && 0 < max <= out.Length
      modifies this, out, ring
      ensures Valid() && old(accepted) <= accepted
      ensures old(Accounted()) ==> Accounted()
      ensures Keys() == old(Keys()) && old(dropped) <= dropped && (dropped == old(dropped) ==> Stream() == old(Stream()))
      ensures !r.Refused? && old(taken) <= upto <= |accepted| && NoEnd(accepted[old(taken)..upto])
      ensures if r.Finished? then Ended(old(taken), upto) else future == [] && taken == upto == |accepted|
      ensures r.Finished? ==>
        r.n < max && out[..r.n] == LineOf(accepted[old(taken)..upto], max) && out[r.n] == 0 && screen == out[..r.n]
    {
      ghost var start := taken;
      upto := taken;
      screen := [];
      var n: nat, done := 0, false;
      while !done
        invariant Valid() && old(accepted) <= accepted && start == old(taken) <= taken
        invariant old(Accounted()) ==> Accounted()
        invariant Keys() == old(Keys()) && old(dropped) <= dropped && (dropped == old(dropped) ==> Stream() == old(Stream()))
        invariant if done then Ended(start, upto) else upto == taken
        invariant Editing(out, max, start, upto, n, n)
        decreases !done, Work()
      {
        var some := AwaitKey(out, max, start, n, n);
        if !some {
          return Waiting, taken;
        }
        var echoed: nat;
        n, echoed, done, upto := Drain(out, max, start, n, n);
        EchoNew(out, max, start, upto, n, echoed);
      }
      out[n] := 0;
      return Finished(n), upto;
    }

    /** Read one line. For every arrival timing it is the line of the accepted keys up to the first CR or LF, the same on
        the screen. When the ring drops no key, those are the keys that wait and arrive: the call finishes exactly when
        there is a CR or LF among them, with the line in front of it, and leaves the keys behind it. */
    method ReadInput(out: array<byte>, max: int, interruptsOn: bool) returns (r: Outcome, ghost upto: nat)
      requires Valid() && out != ring && (max > 0 ==> max <= out.Length)
      modifies this, out, ring
      ensures Valid() && old(accepted) <= accepted
      ensures old(Accounted()) ==> Accounted()
      ensures Keys() == old(Keys()) && old(dropped) <= dropped
      ensures r.Refused? <==> max <= 0 || !interruptsOn
      ensures r.Refused? ==> accepted == old(accepted) && taken == old(taken) && screen == old(screen) && (max > 0 ==> out[0] == 0)
      ensures r.Finished? ==>
        && old(taken) <= upto && Ended(old(taken), upto) && NoEnd(accepted[old(taken)..upto])
        && r.n < max && out[..r.n] == LineOf(accepted[old(taken)..upto], max) && out[r.n] == 0
        && screen == out[..r.n]
      ensures dropped == old(dropped) && !r.Refused? ==>
        var keys, end := old(Coming()), FirstEnd(old(Coming()));
        && (r.Finished? <==> end < |keys|)
        && (r.Finished? ==> out[..r.n] == LineOf(keys[..end], max))
        && end <= taken - old(taken) <= |keys| && Coming() == keys[taken - old(taken)..]
    {
      upto := taken;
      if max <= 0 {
        return Refused, upto;
      }
      out[0] := 0;
      if !interruptsOn {
        return Refused, upto;
      }
      r, upto := ReadLine(out, max);
      if dropped == old(dropped) {
        StreamLine(old(accepted), old(Flat(future)), accepted, Flat(future), old(taken), upto);
        ComingIs(accepted, Flat(future), old(taken), taken);
      }
    }
  }

  /** Between two moments of a call without losses, the keys accepted since `start` are the first of those coming then. */
  lemma StreamLine(before: seq<byte>, coming: seq<byte>, accepted: seq<byte>, left: seq<byte>, start: nat, upto: nat)
    requires before <= accepted && accepted + left == before + coming && start <= |before| && start <= upto <= |accepted|
    requires NoEnd(accepted[start..upto])
    requires if upto < |accepted| then IsEnd(accepted[upto]) else left == []
    ensures var keys := before[start..] + coming;
      && keys == accepted[start..] + left && accepted[start..upto] == keys[..upto - start]
      && FirstEnd(keys) == upto - start && (upto < |accepted| <==> FirstEnd(keys) < |keys|)
  {
    var keys := before[start..] + coming;
    assert keys == (before + coming)[start..] == (accepted + left)[start..] == accepted[start..] + left;
    assert keys[..upto - start] == accepted[start..upto];
    assert if upto < |accepted| then keys[upto - start] == accepted[upto] else |keys| == upto - start;
    FirstEndIs(keys, upto - start);
  }

  /** What is left of a stream further on. */
  lemma ComingIs(accepted: seq<byte>, left: seq<byte>, start: nat, taken: nat)
    requires start <= taken <= |accepted|
    ensures accepted[taken..] + left == (accepted[start..] + left)[taken - start..]
  {
  }

  lemma PrefixSlice(a: seq<byte>, b: seq<byte>, i: nat, j: nat)
    requires a <= b && i <= j <= |a|
    ensures a[i..j] == b[i..j]
  {
  }

  /** A stretch of a printable line is never a lone backspace. */
  lemma EchoIsText(line: seq<byte>, from: nat)
    requires from < |line| && forall i :: 0 <= i < |line| ==> IsPrintable(line[i])
    ensures line[from..] != [8]
  {
    assert line[from..][0] == line[from];
  }
}
