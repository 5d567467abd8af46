/**
 The dequeue side of `struct qbman_swp`: polling DQRR, the start-up workaround, and the volatile dequeue token.
 */
module Dequeue {
  import opened Bits
  import opened RingIndex
  import opened Options
  import opened DequeueBus
  import PullDesc

  const DQRR_PI_MASK := 0xf
  const MAX_PORTALS := 64
  const VERB_MASK := 0x7f
  const RESULT_DQ := 0x60
  const STAT_VOLATILE := 0x02
  const STAT_EXPIRED := 0x01

  /** The driver's test for the last response of a volatile dequeue. */
  predicate LooksFinal(e: Response) {
    && And(e.verb, VERB_MASK) == RESULT_DQ
    && And(e.stat, STAT_VOLATILE) != 0
    && And(e.stat, STAT_EXPIRED) != 0
  }

  /** It is right about every response. */
  lemma LooksFinalExact(e: Response)
    ensures LooksFinal(e) <==> Final(e)
  {
    hide And, Slot, Lap;
    Powers();
    AndLowMask(e.verb, 7);
    SlotAndLap(e.verb, 128);
    AndPow2(e.stat, 1);
    AndPow2(e.stat, 0);
    assert Bit(e.stat, 1) == Bit(e.stat / 2, 0);
  }

  class Swp {
    const bus: Bus
    const idx: nat
    var nextIdx: nat
    var validBit: nat
    var dqrrSize: nat
    var resetBug: bool
    var busy: int
    var storage: Option<nat>
    var vdqValid: nat

    /** Volatile dequeues accepted, and those whose token came back. */
    ghost var pulls: nat
    ghost var givenBack: nat

    /**
     The dequeue part of qbman_swp_init.  Before version 4.1 the ring has four slots and its valid bits cannot be
     trusted; later it has eight and comes up clean.
     */
    constructor (bus: Bus, idx: nat, before41: bool)
      requires idx < MAX_PORTALS && bus.token == idx + 1
      requires bus.Inv() && bus.next == bus.made == 0 && bus.Debt() == 0 && bus.vdqPolarity
      requires bus.n == if before41 then 4 else 8
      requires if before41 then bus.n < bus.piModulus <= 16 else bus.clean
      ensures Valid() && this.bus == bus && this.idx == idx && busy == 1 && storage == None && resetBug == before41
      ensures pulls == givenBack == 0
    {
      this.bus, this.idx := bus, idx;
      nextIdx, validBit, dqrrSize, resetBug := 0, VALID_BIT, if before41 then 4 else 8, before41;
      busy, storage, vdqValid := 1, None, VALID_BIT;
      pulls, givenBack := 0, 0;
    }

    ghost predicate Cursor()
      requires bus.n > 0
      reads this, bus`next, bus`made, bus`clean
    {
      && dqrrSize == bus.n && nextIdx == Slot(bus.next, bus.n)
      && validBit == ValidBit(Polarity(bus.next, bus.n, true))
      && (if resetBug then bus.next < bus.n < bus.piModulus <= 16 else bus.clean || bus.made >= bus.n)
    }

    /** The portal's token, and the polarity of its next volatile dequeue command. */
    ghost predicate Registers()
      reads this, bus`vdqPolarity
    {
      idx < MAX_PORTALS && bus.token == idx + 1 && vdqValid == ValidBit(bus.vdqPolarity)
    }

    ghost predicate Token()
      requires bus.next <= |bus.produced|
      reads this, bus`next, bus`produced, bus`owed, bus`await, bus`vdqPolarity
    {
      && Registers()
      && 0 <= busy <= 1 && busy == 1 - bus.Debt()
      && storage == bus.await
      && pulls == givenBack + bus.Debt()
    }

    /** Everything but the contents of result storage, which portals share. */
    ghost predicate Local()
      reads this, bus`made, bus`next, bus`produced, bus`clean, bus`held, bus`owed, bus`await, bus`vdqPolarity
      reads bus.ring, bus.free
    {
      bus.Shape() && bus.RingInv() && Cursor() && Token()
    }

    ghost predicate Valid()
      reads this, bus, bus.ring, bus.free, bus.toks
    {
      Local() && bus.StorageInv()
    }

    /**
     The storage cells this portal has a use for: hardware may still write them, or a result that will give the
     token back waits there.
     */
    ghost function Cells(): set<nat>
      reads this`storage, bus`due, bus`later, bus`lost
    {
      bus.Claims() + if storage.Some? && !bus.lost then {storage.value} else {}
    }

    /** Hardware working on its own. */
    method Hardware()
      requires Valid()
      modifies bus`made, bus`owed, bus`due, bus`later, bus`produced, bus.ring, bus.free, bus.toks
      ensures Valid() && bus.OthersKept(old(bus.due), old(bus.later), old(bus.toks[..]))
    {
      hide CountFinal, Slot, Polarity, And, Bus.RingInv, Bus.StorageInv;
      bus.Run();
    }

    /** The polarity test at the cursor succeeds exactly when hardware has written that slot this lap. */
    lemma PolarityExact()
      requires bus.Inv() && Cursor() && (resetBug ==> bus.next < bus.made)
      ensures And(bus.ring[nextIdx].verb, VALID_BIT) == validBit <==> bus.next < bus.made
    {
      var j, n := bus.next, bus.n;
      if j < bus.made {
        assert bus.Kept(j);
      } else if j >= n {
        assert bus.Kept(j - n);
      }
    }

    /** What the cursor's slot holds, and what is left pending once it is taken. */
    lemma FrontFacts()
      requires bus.Inv() && nextIdx == Slot(bus.next, bus.n) && bus.next < bus.made
      ensures var e := bus.produced[bus.next];
              && nextIdx < bus.n && nextIdx !in bus.held
              && bus.ring[nextIdx] == Stored(e, Polarity(bus.next, bus.n, true))
              && Final(bus.ring[nextIdx]) == Final(e)
              && CountFinal(bus.produced[bus.next..])
                 == CountFinal(bus.produced[bus.next + 1..]) + if Final(e) then 1 else 0
    {
      var j, e := bus.next, bus.produced[bus.next];
      assert bus.Kept(j);
      StoredFacts(e, Polarity(j, bus.n, true));
      CountFinalPop(bus.produced[j..]);
      assert bus.produced[j..][1..] == bus.produced[j + 1..];
    }

    method StepCursor()
      requires bus.Inv() && Cursor() && bus.next < bus.made && (resetBug ==> bus.next + 1 < bus.n)
      modifies this`nextIdx, this`validBit, bus`next, bus`held
      ensures bus.Inv() && Cursor() && bus.next == old(bus.next) + 1
      ensures bus.held == old(bus.held) + {old(nextIdx)}
    {
      hide Slot, Lap, Polarity, And, Xor, Bus.RingInv, Bus.StorageInv;
      SlotStep(bus.next, bus.n);
      PolarityStep(bus.next, bus.n, true);
      XorValid(Polarity(bus.next, bus.n, true));
      bus.HandOut(nextIdx);
      nextIdx := nextIdx + 1;
      if nextIdx == dqrrSize {
        nextIdx := 0;
        validBit := Xor(validBit, VALID_BIT);
      }
    }

    /** The common tail of both qbman_swp_dqrr_next: step the cursor and give the token back on the last response. */
    method Take() returns (p: nat)
      requires Valid() && bus.next < bus.made && (resetBug ==> bus.next + 1 < bus.n)
      modifies this`nextIdx, this`validBit, this`busy, this`givenBack, bus`next, bus`held
      ensures Valid() && Outcome(Some(p), old(bus.next), old(givenBack), old(bus.held))
    {
      hide Slot, Lap, Polarity, And, Final, LooksFinal, CountFinal, Stored, Bus.StorageInv, Bus.RingInv;
      p := nextIdx;
      FrontFacts();
      ghost var last := if Final(bus.ring[p]) then 1 else 0;
      StepCursor();
      assert bus.Debt() == old(bus.Debt()) - last;
      LooksFinalExact(bus.ring[p]);
      if LooksFinal(bus.ring[p]) {
        busy := busy + 1;
        givenBack := givenBack + 1;
      }
    }

    /** A found response is the next one produced, in its slot; the token comes back with a final one. */
    ghost predicate Outcome(r: Option<nat>, next: nat, back: nat, held: set<nat>)
      requires bus.n > 0
      reads this, bus, bus.ring
    {
      match r
      case None => bus.next == next && givenBack == back && bus.held == held
      case Some(p) =>
        && bus.next == next + 1 && next < |bus.produced| && p == Slot(next, bus.n) && p < bus.ring.Length
        && p !in held && bus.held == held + {p}
        && bus.ring[p] == Stored(bus.produced[next], Polarity(next, bus.n, true))
        && givenBack == back + if Final(bus.produced[next]) then 1 else 0
    }

    /**
     The reset-bug workaround: while the valid bits may be stale, ask the producer index instead.  The workaround
     ends at the last slot of the first lap, when every slot has been written.
     */
    method Workaround() returns (empty: bool)
      requires Valid() && resetBug
      modifies this`resetBug, bus`made, bus`owed, bus`due, bus`later, bus`produced, bus.ring, bus.free, bus.toks
      ensures Valid() && old(bus.produced) <= bus.produced
      ensures bus.OthersKept(old(bus.due), old(bus.later), old(bus.toks[..]))
      ensures (empty <==> bus.next == bus.made) && old(bus.made) <= bus.made
      ensures resetBug ==> empty || bus.next + 1 < bus.n
      ensures !resetBug ==> bus.made >= bus.n
      ensures forall s :: s in bus.held ==> bus.ring[s] == old(bus.ring[s])
    {
      hide Slot, Polarity, And, CountFinal;
      var pi := bus.ReadPi();
      pi := And(pi, DQRR_PI_MASK);
      PiTestExact(bus.next, bus.made, bus.n, bus.piModulus);
      empty := pi == nextIdx;
      if !empty && nextIdx == dqrrSize - 1 {
        resetBug := false;
      }
    }

    /** The polarity test and the tail: all of qbman_swp_dqrr_next_mem_back. */
    method Poll() returns (r: Option<nat>)
      requires Valid() && (resetBug ==> bus.next + 1 < bus.n && bus.next < bus.made)
      modifies this`nextIdx, this`validBit, this`busy, this`givenBack
      modifies bus`made, bus`owed, bus`due, bus`later, bus`produced, bus`next, bus`held, bus.ring, bus.free, bus.toks
      ensures Valid() && old(bus.produced) <= bus.produced
      ensures bus.OthersKept(old(bus.due), old(bus.later), old(bus.toks[..]))
      ensures (r.Some? <==> old(bus.next) < bus.made) && old(bus.made) <= bus.made <= old(bus.next) + bus.n
      ensures Outcome(r, old(bus.next), old(givenBack), old(bus.held))
      ensures forall s :: s in old(bus.held) ==> bus.ring[s] == old(bus.ring[s])
    {
      hide Slot, Polarity, And, CountFinal, Final;
      bus.Run();
      PolarityExact();
      if And(bus.ring[nextIdx].verb, VALID_BIT) != validBit {
        return None;
      }
      var p := Take();
      r := Some(p);
    }

    /**
     qbman_swp_dqrr_next_direct: the ring slot of the next response, found exactly when hardware has produced
     more than software has seen, whatever the ring held at the start.
     */
    method DqrrNextDirect() returns (r: Option<nat>)
      requires Valid()
      modifies this`nextIdx, this`validBit, this`resetBug, this`busy, this`givenBack
      modifies bus`made, bus`owed, bus`due, bus`later, bus`produced, bus`next, bus`held, bus.ring, bus.free, bus.toks
      ensures Valid() && old(bus.produced) <= bus.produced
      ensures bus.OthersKept(old(bus.due), old(bus.later), old(bus.toks[..]))
      ensures (r.Some? <==> old(bus.next) < bus.made) && old(bus.made) <= bus.made <= old(bus.next) + bus.n
      ensures Outcome(r, old(bus.next), old(givenBack), old(bus.held))
      ensures forall s :: s in old(bus.held) ==> bus.ring[s] == old(bus.ring[s])
    {
      hide Slot, Polarity, And, Stored, Final, CountFinal, Bus.RingInv, Bus.StorageInv;
      if resetBug {
        var empty := Workaround();
        if empty {
          return None;
        }
      }
      r := Poll();
    }

    /** qbman_swp_dqrr_consume and qbman_swp_dqrr_idx_consume, for a response returned before, in any order. */
    method Consume(s: nat)
      requires Valid() && s in bus.held
      modifies bus`held, bus.free
      ensures Valid() && bus.held == old(bus.held) - {s} && bus.free[..] == old(bus.free[..])[s := true]
    {
      bus.Consume(s);
    }

    // ---------------------------------------------------------------- volatile dequeues

    /** The command a descriptor stands for when this portal sends it. */
    function CommandOf(d: PullDesc.Desc): PullDesc.Command {
      PullDesc.Command(d.verb, d.numf + 1, idx + 1, d.dqSrc, d.rspAddr)
    }

    /**
     qbman_swp_pull_direct and _mem_back; false is -EBUSY.  Only an accepted dequeue asks anything of the descriptor,
     and of its storage for the invariant to go on; hardware receives exactly what the descriptor asks for.
     */
    method Pull(d: PullDesc.Desc) returns (ok: bool)
      requires Registers() && (busy == 1 ==> PullDesc.Consistent(d))
      modifies this`busy, this`storage, this`vdqValid, this`pulls
      modifies bus`owed, bus`due, bus`later, bus`await, bus`vdqPolarity, bus`commands
      ensures old(Valid() && (busy == 1 ==> bus.Storable(d.storage, d.numf + 1))) ==> Valid()
      ensures old(Valid()) ==> (ok <==> old(pulls) == old(givenBack))
      ensures (ok <==> old(busy) == 1) && busy == if ok then 0 else old(busy)
      ensures pulls == old(pulls) + if ok then 1 else 0
      ensures bus.commands == old(bus.commands) + if ok then [CommandOf(d)] else []
      ensures this.storage == (if ok then d.storage else old(this.storage)) && (ok ==> bus.await == d.storage)
      ensures vdqValid == if ok then Xor(old(vdqValid), VALID_BIT) else old(vdqValid)
      ensures bus.due == if ok && d.storage.Some? then d.storage else old(bus.due)
      ensures bus.later == old(bus.later)
                           + if ok && d.storage.Some? then DequeueBus.Cells(d.storage.value + 1, d.storage.value + d.numf + 1)
                             else {}
    {
      hide HasValid, Or, Xor, And, CountFinal, Slot, Polarity, Bus.RingInv, Bus.StorageInv, Bus.Storable;
      hide PullDesc.Consistent;
      busy := busy - 1;
      if busy != 0 {
        busy := busy + 1;
        return false;
      }
      SendCommand(d);
      ok := true;
    }

    /** The rest of an accepted dequeue, by whoever holds the token. */
    method SendCommand(d: PullDesc.Desc)
      requires Registers() && PullDesc.Consistent(d)
      modifies this`storage, this`vdqValid, this`pulls
      modifies bus`owed, bus`due, bus`later, bus`await, bus`vdqPolarity, bus`commands
      ensures old(bus.Inv() && bus.Debt() == 0 && bus.Storable(d.storage, d.numf + 1)) ==> bus.Inv() && bus.Debt() == 1
      ensures Registers() && pulls == old(pulls) + 1 && vdqValid == Xor(old(vdqValid), VALID_BIT)
      ensures bus.commands == old(bus.commands) + [CommandOf(d)]
      ensures this.storage == bus.await == d.storage
      ensures bus.due == if d.storage.Some? then d.storage else old(bus.due)
      ensures bus.later
           == old(bus.later)
              + if d.storage.Some? then DequeueBus.Cells(d.storage.value + 1, d.storage.value + d.numf + 1) else {}
    {
      hide HasValid, Or, Xor, And, CountFinal, Slot, Polarity, Bus.RingInv, Bus.StorageInv, Bus.Storable;
      hide PullDesc.Understood, PullDesc.Words;
      U8Small(idx + 1);
      var d' := d.(tok := U8(idx + 1));
      storage := d'.storage;
      var cl := PullDesc.Words(d');
      PullDesc.UnderstoodAsMeant(d', bus.vdqPolarity);
      XorValid(bus.vdqPolarity);
      bus.WriteVdqcr([Or(cl[0], vdqValid)] + cl[1..], d'.storage);
      vdqValid := Xor(vdqValid, VALID_BIT);
      pulls := pulls + 1;
    }

    /** The hook shared by both storage polls; it keeps the invariant on a cell whose token hardware has written. */
    method Acknowledge(cell: nat)
      requires cell < bus.toks.Length
      modifies this`busy, this`storage, this`givenBack, bus`await, bus`lost
      ensures old(Valid()) && bus.toks[cell] != 0 ==> Valid()
      ensures bus.lost <==> old(bus.lost) && old(storage) != Some(cell)
      ensures givenBack == old(givenBack) + if old(storage) == Some(cell) then 1 else 0
      ensures busy == old(busy) + if old(storage) == Some(cell) then 1 else 0
      ensures storage == if old(storage) == Some(cell) then None else old(storage)
    {
      hide CountFinal, Slot, Polarity, And;
      if storage == Some(cell) {
        storage := None;
        bus.await, bus.lost := None, false;
        busy := busy + 1;
        givenBack := givenBack + 1;
      }
    }

    /**
     qbman_result_has_new_result.  A lost token comes back here, and only here, if the cell was given to another
     dequeue since and written.
     */
    method HasNewResult(cell: nat) returns (isNew: bool)
      requires Valid() && cell < bus.toks.Length
      modifies this`busy, this`storage, this`givenBack, bus`await, bus`lost
      modifies bus`made, bus`owed, bus`due, bus`later, bus`produced, bus.ring, bus.free, bus.toks
      ensures Valid() && old(bus.produced) <= bus.produced && bus.toks[cell] == 0
      ensures bus.Claims() <= old(bus.Claims())
      ensures forall c :: 0 <= c < bus.toks.Length && c !in old(bus.Claims()) ==>
                bus.toks[c] == if c == cell then 0 else old(bus.toks[c])
      ensures isNew <==> old(bus.toks[cell]) != 0 || (cell in old(bus.Claims()) && cell !in bus.Claims())
      ensures givenBack == old(givenBack) + if isNew && old(storage) == Some(cell) then 1 else 0
      ensures old(storage == Some(cell) && !bus.lost) ==> (isNew <==> bus.due.None?) && (old(bus.due).None? ==> isNew)
      ensures bus.lost <==> old(bus.lost) && !(isNew && old(storage) == Some(cell))
      ensures storage == if isNew && old(storage) == Some(cell) then None else old(storage)
    {
      hide CountFinal, Slot, Polarity, And, Bus.RingInv;
      bus.Run();
      isNew := bus.toks[cell] != 0;
      if isNew {
        Acknowledge(cell);
        bus.toks[cell] := 0;
      }
    }

    /** qbman_check_command_complete once the portal is found: the same hook, leaving the token in place. */
    method CheckCommandComplete(cell: nat) returns (done: bool)
      requires Valid() && cell < bus.toks.Length
      modifies this`busy, this`storage, this`givenBack, bus`await, bus`lost
      modifies bus`made, bus`owed, bus`due, bus`later, bus`produced, bus.ring, bus.free, bus.toks
      ensures bus.OthersKept(old(bus.due), old(bus.later), old(bus.toks[..]))
      ensures Valid() && old(bus.produced) <= bus.produced && (done <==> bus.toks[cell] != 0)
      ensures givenBack == old(givenBack) + if done && old(storage) == Some(cell) then 1 else 0
      ensures old(storage == Some(cell) && !bus.lost) ==> (done <==> bus.due.None?) && (old(bus.due).None? ==> done)
      ensures bus.lost <==> old(bus.lost) && !(done && old(storage) == Some(cell))
      ensures storage == if done && old(storage) == Some(cell) then None else old(storage)
    {
      hide CountFinal, Slot, Polarity, And, Bus.RingInv;
      bus.Run();
      done := bus.toks[cell] != 0;
      if done {
        Acknowledge(cell);
      }
    }

    /**
     qbman_check_new_result: only the token byte, no hook.  On the awaited cell, once hardware has written it, the
     busy token is lost; on any other cell, or returning 0, the call is harmless.
     */
    method CheckNewResult(cell: nat) returns (isNew: bool)
      requires Valid() && cell < bus.toks.Length
      modifies bus`made, bus`owed, bus`due, bus`later, bus`produced, bus`lost, bus.ring, bus.free, bus.toks
      ensures Valid() && old(bus.produced) <= bus.produced && bus.toks[cell] == 0
      ensures forall c :: 0 <= c < bus.toks.Length && c !in old(bus.Claims()) ==>
                bus.toks[c] == if c == cell then 0 else old(bus.toks[c])
      ensures isNew <==> old(bus.toks[cell]) != 0 || (cell in old(bus.Claims()) && cell !in bus.Claims())
      ensures storage == Some(cell) && !old(bus.lost) ==> (isNew <==> bus.due.None?)
      ensures bus.lost <==> old(bus.lost) || (isNew && storage == Some(cell))
    {
      hide CountFinal, Slot, Polarity, And, Bus.RingInv;
      bus.Run();
      isNew := bus.toks[cell] != 0;
      if isNew {
        bus.toks[cell] := 0;
        if storage == Some(cell) {
          bus.lost := true;
        }
      }
    }

    /** While the token is lost every pull is refused, and nothing is outstanding that could give it back. */
    lemma LostIsBusy()
      requires Valid() && bus.lost
      ensures busy == 0 && pulls == givenBack + 1 && bus.owed == 0 && CountFinal(bus.produced[bus.next..]) == 0
      ensures storage.Some? && storage.value < bus.toks.Length && storage.value !in bus.Claims()
    {
    }
  }

  /** QBMAN_IDX_FROM_DQRR on the address of a response. */
  function IdxFromDqrr(address: nat): nat {
    And(address, 0x1ff) / 64
  }

  /** Consuming by address names the slot the response was found in, in both layouts of the ring. */
  lemma IdxOfSlot(base: nat, s: nat)
    requires base % 0x200 == 0 && s < 8
    ensures IdxFromDqrr(base + 0x200 + 64 * s) == s == IdxFromDqrr(base + 0x800 + 64 * s)
  {
    hide And;
    LowNine(base + 0x200 + 64 * s);
    LowNine(base + 0x800 + 64 * s);
    var b := base / 0x200;
    Offset(b + 1, 64 * s);
    Offset(b + 4, 64 * s);
  }

  lemma Offset(b: nat, low: nat)
    requires low < 512
    ensures (512 * b + low) % 512 == low
  {
  }

  lemma LowNine(x: nat)
    ensures And(x, 0x1ff) == x % 512
  {
    hide And, Slot, Lap;
    Powers();
    assert Pow2(9) == 2 * Pow2(8);
    AndLowMask(x, 9);
    SlotAndLap(x, 512);
  }

  /** In the workaround the producer index differs from the cursor exactly when a response is waiting. */
  lemma PiTestExact(next: nat, made: nat, n: nat, m: nat)
    requires next < n < m && next <= made <= next + n
    ensures Slot(next, n) == next && (Slot(made, m) == next <==> made == next)
  {
  }

  predicate PiTest(next: nat, made: nat, n: nat, m: nat)
    requires n > 0 && m > 0
  {
    Slot(made, m) == next <==> made == next
  }

  /**
     The workaround's test is right in every reachable state exactly when the register counts modulo more than
     the ring size; a register modulo N makes a full ring look empty.
   */
  lemma PiModulusExact(n: nat, m: nat)
    requires n > 0 && m > 0
    ensures (forall next: nat, made: nat :: next < n && next <= made <= next + n ==> PiTest(next, made, n, m))
       <==> m > n
  {
    if m <= n {
      assert Slot(m, m) == Slot(0, m) == 0;
      assert !PiTest(0, m, n, m);
    } else {
      forall next: nat, made: nat | next < n && next <= made <= next + n ensures PiTest(next, made, n, m) {
        PiTestExact(next, made, n, m);
      }
    }
  }
}
