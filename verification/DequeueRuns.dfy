/** Whole runs of the dequeue side: any script of calls, interleaved with hardware. */
module DequeueRuns {
  import opened Bits
  import opened RingIndex
  import opened Options
  import opened DequeueBus
  import opened Dequeue
  import PullDesc

  datatype Call =
    | Next
    | Consume(slot: nat)
    | Pull(d: PullDesc.Desc)
    | HasNew(cell: nat)
    | Complete(cell: nat)
    | CheckNew(cell: nat)

  /** A response as the user reads it, without the valid bit. */
  function Read(e: Response): Response {
    e.(verb := And(e.verb, VERB_MASK))
  }

  lemma ReadStored(e: Response, p: bool)
    requires e.verb < 128
    ensures Read(Stored(e, p)) == e
  {
    Powers();
    AndLowMask(e.verb + ValidBit(p), 7);
    assert Slot(e.verb + 128, 128) == Slot(e.verb, 128) == e.verb;
  }

  /**
     What a run has shown the user: responses in order, pulls granted, polls that gave the token back, slots held,
     and whether a qbman_check_new_result swallowed the result the token was waiting for.
   */
  datatype Seen = Seen(got: seq<Response>, granted: nat, acks: nat, held: set<nat>, lost: bool)

  ghost predicate Agree(s: Swp, seen: Seen)
    reads s, s.bus, s.bus.ring, s.bus.free, s.bus.toks
  {
    && s.Valid() && seen.held == s.bus.held && seen.lost == s.bus.lost
    && (seen.lost ==> s.storage.Some? && s.storage.value < s.bus.toks.Length && s.bus.toks[s.storage.value] == 0)
  }

  lemma OneElement<T>(s: seq<T>, j: nat)
    requires j < |s|
    ensures s[j..j + 1] == [s[j]]
  {
  }

  /** Polling DQRR and reading what was found. */
  method Receive(s: Swp, seen: Seen) returns (seen': Seen)
    requires Agree(s, seen)
    modifies s`nextIdx, s`validBit, s`resetBug, s`busy, s`givenBack, s.bus, s.bus.ring, s.bus.free, s.bus.toks
    ensures Agree(s, seen') && old(s.bus.produced) <= s.bus.produced
    ensures s.bus.next == old(s.bus.next) || s.bus.next == old(s.bus.next) + 1
    ensures s.bus.next == old(s.bus.next) ==> s.bus.made == s.bus.next && old(s.bus.made) == old(s.bus.next)
    ensures s.bus.made <= old(s.bus.next) + s.bus.n
    ensures seen' == seen.(got := seen'.got, held := seen'.held)
    ensures seen'.got == seen.got + s.bus.produced[old(s.bus.next)..s.bus.next]
    ensures s.givenBack - old(s.givenBack) == CountFinal(seen'.got) - CountFinal(seen.got)
    ensures s.bus.next > old(s.bus.next) && Final(s.bus.produced[old(s.bus.next)]) ==> s.givenBack > old(s.givenBack)
    ensures s.bus.OthersKept(old(s.bus.due), old(s.bus.later), old(s.bus.toks[..]))
  {
    hide Slot, Polarity, And, Final, CountFinal, Stored, Bus.RingInv, Bus.StorageInv;
    if seen.lost { s.LostIsBusy(); }
    seen' := seen;
    var r := s.DqrrNextDirect();
    if r.Some? {
      ghost var j := old(s.bus.next);
      OneElement(s.bus.produced, j);
      ReadStored(s.bus.produced[j], Polarity(j, s.bus.n, true));
      CountFinalPush(seen.got, s.bus.produced[j]);
      seen' := seen.(got := seen.got + [Read(s.bus.ring[r.value])], held := seen.held + {r.value});
    }
  }

  /** One call; a call the user may not make at this point (see its precondition) is skipped. */
  method Step(s: Swp, call: Call, seen: Seen) returns (seen': Seen)
    requires Agree(s, seen)
    modifies s, s.bus, s.bus.ring, s.bus.free, s.bus.toks
    ensures Agree(s, seen') && old(s.bus.produced) <= s.bus.produced && old(s.bus.next) <= s.bus.next
    ensures seen'.got == seen.got + s.bus.produced[old(s.bus.next)..s.bus.next]
    ensures s.givenBack - old(s.givenBack) == CountFinal(seen'.got) - CountFinal(seen.got) + seen'.acks - seen.acks
    ensures s.pulls - old(s.pulls) == seen'.granted - seen.granted
    ensures seen.lost ==> seen'.lost && seen'.granted == seen.granted
    ensures seen'.lost && !seen.lost ==> call.CheckNew? && old(s.storage) == Some(call.cell)
  {
    hide Slot, Polarity, And, Final, CountFinal, Stored, HasValid, Bus.RingInv, Bus.StorageInv;
    seen' := seen;
    if seen.lost { s.LostIsBusy(); }
    match call
    case Next =>
      seen' := Receive(s, seen);
    case Consume(slot) =>
      if slot in seen.held {
        s.Consume(slot);
        seen' := seen.(held := seen.held - {slot});
      }
    case Pull(d) =>
      if s.busy != 1 || (PullDesc.Consistent(d) && s.bus.Storable(d.storage, d.numf + 1)) {
        var ok := s.Pull(d);
        seen' := seen.(granted := seen.granted + if ok then 1 else 0);
      }
    case _ =>
      if call.cell < s.bus.toks.Length {
        seen' := PollCell(s, call, seen);
      }
  }

  /** The polls of a storage cell. */
  method PollCell(s: Swp, call: Call, seen: Seen) returns (seen': Seen)
    requires Agree(s, seen) && (call.HasNew? || call.Complete? || call.CheckNew?) && call.cell < s.bus.toks.Length
    modifies s`busy, s`storage, s`givenBack, s.bus`await, s.bus`lost
    modifies s.bus`made, s.bus`owed, s.bus`due, s.bus`later, s.bus`produced, s.bus.ring, s.bus.free, s.bus.toks
    ensures Agree(s, seen') && old(s.bus.produced) <= s.bus.produced && (seen.lost ==> seen'.lost)
    ensures seen'.lost && !seen.lost ==> call.CheckNew? && old(s.storage) == Some(call.cell)
    ensures seen' == seen.(acks := seen'.acks, lost := seen'.lost)
    ensures s.givenBack - old(s.givenBack) == seen'.acks - seen.acks
  {
    hide Slot, Polarity, And, Final, CountFinal, Bus.RingInv, Bus.StorageInv;
    if seen.lost { s.LostIsBusy(); }
    var waiting, one := s.storage == Some(call.cell), false;
    match call
    case HasNew(cell) =>
      one := s.HasNewResult(cell);
      seen' := seen.(acks := seen.acks + if waiting && one then 1 else 0);
    case Complete(cell) =>
      one := s.CheckCommandComplete(cell);
      seen' := seen.(acks := seen.acks + if waiting && one then 1 else 0);
    case CheckNew(cell) =>
      one := s.CheckNewResult(cell);
      seen' := seen.(lost := seen.lost || (waiting && one));
  }

  /**
     Any run, from any point of an earlier one: the responses returned are exactly hardware's production sequence,
     in order and each once, and every accepted volatile dequeue is given back at most once, by its last response
     or by a storage poll.  Once a qbman_check_new_result has swallowed an awaited result, nothing is ever given
     back and every pull is refused.
   */
  method Run(s: Swp, seen: Seen, script: seq<Call>) returns (seen': Seen)
    requires Agree(s, seen)
    modifies s, s.bus, s.bus.ring, s.bus.free, s.bus.toks
    ensures Agree(s, seen') && old(s.bus.produced) <= s.bus.produced && old(s.bus.next) <= s.bus.next
    ensures seen'.got == seen.got + s.bus.produced[old(s.bus.next)..s.bus.next]
    ensures s.givenBack - old(s.givenBack) == CountFinal(seen'.got) - CountFinal(seen.got) + seen'.acks - seen.acks
    ensures s.pulls - old(s.pulls) == seen'.granted - seen.granted
    ensures s.pulls - s.givenBack == 1 - s.busy && 0 <= s.busy <= 1
    ensures seen.lost ==> seen'.lost && seen'.granted == seen.granted && s.givenBack == old(s.givenBack)
  {
    hide Slot, Polarity, And, Final, CountFinal, Bus.RingInv, Bus.StorageInv;
    if seen.lost { s.LostIsBusy(); }
    seen' := seen;
    for k := 0 to |script|
      invariant Agree(s, seen')
      invariant old(s.bus.produced) <= s.bus.produced && old(s.bus.next) <= s.bus.next
      invariant seen'.got == seen.got + s.bus.produced[old(s.bus.next)..s.bus.next]
      invariant s.givenBack - old(s.givenBack)
             == CountFinal(seen'.got) - CountFinal(seen.got) + seen'.acks - seen.acks
      invariant s.pulls - old(s.pulls) == seen'.granted - seen.granted
      invariant seen.lost ==> seen'.lost && seen'.granted == seen.granted
    {
      seen' := Step(s, script[k], seen');
    }
    if seen.lost { s.LostIsBusy(); }
  }

  // ------------------------------------------------------------------ the token can be had back

  /** The user gives back every response it holds. */
  method ConsumeAll(s: Swp, seen: Seen) returns (seen': Seen)
    requires Agree(s, seen)
    modifies s.bus`held, s.bus.free
    ensures Agree(s, seen') && seen' == seen.(held := {})
  {
    hide Slot, Polarity, And, Final, CountFinal, Bus.RingInv, Bus.StorageInv;
    seen' := seen;
    while seen'.held != {}
      invariant Agree(s, seen') && seen' == seen.(held := seen'.held)
      decreases |seen'.held|
    {
      var slot :| slot in seen'.held;
      s.Consume(slot);
      seen' := seen'.(held := seen'.held - {slot});
    }
  }

  /** Hardware sends the last response it owes; the ring has room once the user has consumed. */
  method HardwareFinishes(s: Swp, last: Response)
    requires s.Valid() && s.bus.held == {} && s.bus.made < s.bus.next + s.bus.n
    requires s.bus.owed > 0 && Final(last) && last.verb < 128
    modifies s.bus`made, s.bus`produced, s.bus`owed, s.bus.ring, s.bus.free
    ensures s.Valid() && s.bus.owed == old(s.bus.owed) - 1
  {
    hide Slot, Polarity, And, Final, CountFinal;
    var slot := Slot(s.bus.made, s.bus.n);
    assert s.bus.free[slot];
    s.bus.StoreBody(slot, last.stat, last.rest);
    s.bus.Respond(last);
  }

  lemma {:induction false} SomeFinal(s: seq<Response>) returns (k: nat)
    requires CountFinal(s) > 0
    ensures k < |s| && Final(s[k])
  {
    k := |s| - 1;
    if !Final(s[k]) {
      k := SomeFinal(s[..k]);
    }
  }

  /**
     Unless the token was lost it can be had back from any point of any run: hardware only has to finish the
     command it holds, with whatever last response or result, and the user to consume and poll.
   */
  method Recover(s: Swp, seen: Seen, last: Response) returns (seen': Seen)
    requires Agree(s, seen) && !seen.lost && Final(last) && last.verb < 128
    modifies s, s.bus, s.bus.ring, s.bus.free, s.bus.toks
    ensures Agree(s, seen') && s.busy == 1 && s.pulls == s.givenBack == old(s.pulls)
  {
    hide Slot, Polarity, And, Final, CountFinal, Bus.RingInv, Bus.StorageInv;
    seen' := seen;
    if s.storage.Some? {
      RecoverFromStorage(s, s.storage.value);
    } else if s.busy == 0 {
      seen' := RecoverFromRing(s, seen, last);
    }
  }

  method RecoverFromStorage(s: Swp, cell: nat)
    requires s.Valid() && !s.bus.lost && s.storage == Some(cell)
    modifies s`busy, s`storage, s`givenBack, s.bus`await, s.bus`lost
    modifies s.bus`made, s.bus`owed, s.bus`due, s.bus`later, s.bus`produced, s.bus.ring, s.bus.free, s.bus.toks
    ensures s.Valid() && s.busy == 1 && !s.bus.lost
  {
    hide Slot, Polarity, And, Final, CountFinal, Bus.RingInv;
    if s.bus.due.Some? {
      s.bus.FirstResult();
    }
    var done := s.CheckCommandComplete(cell);
  }

  method RecoverFromRing(s: Swp, seen: Seen, last: Response) returns (seen': Seen)
    requires Agree(s, seen) && s.busy == 0 && s.storage.None? && Final(last) && last.verb < 128
    modifies s`nextIdx, s`validBit, s`resetBug, s`busy, s`givenBack, s.bus, s.bus.ring, s.bus.free, s.bus.toks
    ensures Agree(s, seen') && s.busy == 1 && s.storage.None? && seen'.lost == seen.lost
    ensures s.bus.OthersKept(old(s.bus.due), old(s.bus.later), old(s.bus.toks[..]))
  {
    hide Slot, Polarity, And, Final, CountFinal, Bus.RingInv, Bus.StorageInv;
    seen' := Receive(s, seen);
    seen' := ConsumeAll(s, seen');
    if s.bus.owed > 0 {
      HardwareFinishes(s, last);
    }
    if s.busy == 0 {
      ghost var k := SomeFinal(s.bus.produced[s.bus.next..]);
      seen' := PollUntil(s, seen', s.bus.next + k);
    }
  }

  /** Polling until a given last response was taken. */
  method PollUntil(s: Swp, seen: Seen, ghost f: nat) returns (seen': Seen)
    requires Agree(s, seen) && s.busy == 0
    requires s.bus.next <= f < |s.bus.produced| && Final(s.bus.produced[f])
    modifies s`nextIdx, s`validBit, s`resetBug, s`busy, s`givenBack, s.bus, s.bus.ring, s.bus.free, s.bus.toks
    ensures Agree(s, seen') && s.busy == 1 && seen'.lost == seen.lost
    ensures s.bus.OthersKept(old(s.bus.due), old(s.bus.later), old(s.bus.toks[..]))
  {
    hide Slot, Polarity, And, Final, CountFinal, Bus.RingInv, Bus.StorageInv;
    seen' := seen;
    while s.busy == 0
      invariant Agree(s, seen') && seen'.lost == seen.lost
      invariant s.bus.OthersKept(old(s.bus.due), old(s.bus.later), old(s.bus.toks[..]))
      invariant s.busy == 0 ==> s.bus.next <= f < |s.bus.produced| && Final(s.bus.produced[f])
      decreases f + 1 - s.bus.next
    {
      seen' := Receive(s, seen');
    }
  }
}
