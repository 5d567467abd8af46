/**
 Everything hardware shares with software on the dequeue side: the DQRR ring it fills, the volatile dequeue
 command, and the result storage it writes.  `Run` takes any number of hardware steps.
 */
module DequeueBus {
  import opened Bits
  import opened RingIndex
  import opened Options
  import PullDesc

  /** A dequeue response: verb (without valid bit), status and the rest of its 64 bytes. */
  datatype Response = Response(verb: nat, stat: nat, rest: seq<nat>)

  /** The last response of a volatile dequeue, as hardware marks it: a frame dequeue, volatile and expired. */
  predicate Final(e: Response) {
    e.verb % 128 == 0x60 && (e.stat / 2) % 2 == 1 && e.stat % 2 == 1
  }

  /** A response as it lies in the ring. */
  function Stored(e: Response, p: bool): Response {
    e.(verb := e.verb + ValidBit(p))
  }

  lemma StoredFacts(e: Response, p: bool)
    requires e.verb < 128
    ensures And(Stored(e, p).verb, VALID_BIT) == ValidBit(p)
    ensures Final(Stored(e, p)) == Final(e)
  {
    hide And, Slot, Lap, Pow2;
    Powers();
    AndValid(e.verb + ValidBit(p));
  }

  function CountFinal(s: seq<Response>): nat {
    if s == [] then 0 else CountFinal(s[..|s| - 1]) + if Final(s[|s| - 1]) then 1 else 0
  }

  lemma CountFinalPush(s: seq<Response>, e: Response)
    ensures CountFinal(s + [e]) == CountFinal(s) + if Final(e) then 1 else 0
  {
    assert (s + [e])[..|s|] == s;
  }

  lemma {:induction false} CountFinalPop(s: seq<Response>)
    requires s != []
    ensures CountFinal(s) == CountFinal(s[1..]) + if Final(s[0]) then 1 else 0
  {
    var k := |s| - 1;
    if k > 0 {
      CountFinalPop(s[..k]);
      assert s[..k][1..] == s[1..][..k - 1];
    } else {
      assert s[..k] == [] && s[1..] == [];
    }
  }

  function Cells(lo: nat, hi: nat): (r: set<nat>)
    ensures forall c :: c in r <==> lo <= c < hi
    decreases hi - lo
  {
    if lo >= hi then {} else {lo} + Cells(lo + 1, hi)
  }

  class Bus {
    const n: nat
    /** The DQRR producer index register counts modulo this. */
    const piModulus: nat
    /** The token of this portal's volatile dequeues. */
    const token: nat
    const ring: array<Response>
    /** Slots hardware may overwrite: never filled, or consumed since. */
    const free: array<bool>
    /** Token byte of each cell of result storage. */
    const toks: array<nat>

    var made: nat
    /** Volatile dequeues into DQRR that hardware has not finished. */
    var owed: nat
    /** The storage cell for the first result of a dequeue to storage, until hardware writes it. */
    var due: Option<nat>
    /** Cells for further results of dequeues to storage. */
    var later: set<nat>
    /** Polarity hardware expects of the next volatile dequeue command. */
    var vdqPolarity: bool

    /** Slots returned to the user and not consumed yet. */
    var held: set<nat>

    ghost var produced: seq<Response>
    /** The volatile dequeue commands hardware received. */
    ghost var commands: seq<PullDesc.Command>
    /** The awaited result was written, and its token byte cleared by something that does not give the token back. */
    ghost var lost: bool
    /** Whether the ring came up without stale entries of lap polarity. */
    ghost var clean: bool
    /** Software's side: responses returned so far, and the storage cell whose result gives the token back. */
    ghost var next: nat
    ghost var await: Option<nat>

    /** A portal in its power-on state; the ring may hold anything left over from before. */
    constructor (n: nat, piModulus: nat, token: nat, initial: seq<Response>, toks: array<nat>)
      requires 0 < n == |initial| && token != 0
      ensures Inv() && fresh(ring) && fresh(free) && this.toks == toks && !lost
      ensures this.n == n && this.piModulus == piModulus && this.token == token && later == {}
      ensures made == next == 0 && produced == [] && held == {} && Debt() == 0 && vdqPolarity
      ensures clean <==> forall s :: 0 <= s < n ==> And(initial[s].verb, VALID_BIT) == 0
    {
      this.n, this.piModulus, this.token := n, piModulus, token;
      ring := new Response[n](i requires 0 <= i < n => initial[i]);
      free := new bool[n](i => true);
      this.toks := toks;
      made, owed, due, later, vdqPolarity := 0, 0, None, {}, true;
      produced, next, await, held, lost := [], 0, None, {}, false;
      clean := forall s :: 0 <= s < n ==> And(initial[s].verb, VALID_BIT) == 0;
    }

    /** The slot of entry `j` shows its polarity and, until it may be overwritten, holds entry `j`. */
    ghost predicate Kept(j: nat)
      requires n > 0 && ring.Length == free.Length == n
      reads this`produced, ring, free
    {
      && j < |produced|
      && And(ring[Slot(j, n)].verb, VALID_BIT) == ValidBit(Polarity(j, n, true))
      && (free[Slot(j, n)] || ring[Slot(j, n)] == Stored(produced[j], Polarity(j, n, true)))
    }

    ghost predicate Shape()
      reads this`made, this`next, this`produced
    {
      && n > 0 && ring.Length == free.Length == n
      && made == |produced| && next <= made <= next + n
      && (forall j :: 0 <= j < |produced| ==> produced[j].verb < 128)
    }

    ghost predicate RingInv()
      requires n > 0 && ring.Length == free.Length == n
      reads this`made, this`next, this`produced, this`clean, this`held, ring, free
    {
      && Entries() && Slots()
      && (clean ==> forall s: nat :: made <= s < n ==> And(ring[s].verb, VALID_BIT) == 0)
    }

    /** The last ring full of entries. */
    ghost predicate Entries()
      requires n > 0 && ring.Length == free.Length == n
      reads this`made, this`produced, ring, free
    {
      forall j: nat :: made <= j + n && j < made ==> Kept(j)
    }

    /** Hardware may overwrite a slot unless a response waits in it or the user holds it. */
    ghost predicate Slots()
      requires n > 0 && ring.Length == free.Length == n
      reads this`made, this`next, this`held, free
    {
      && (forall j: nat {:trigger Slot(j, n)} :: next <= j < made ==> !free[Slot(j, n)])
      && (forall j: nat {:trigger Slot(j, n)} :: made <= j < next + n && Slot(j, n) !in held ==> free[Slot(j, n)])
      && (forall s :: s in held ==> s < n && !free[s])
      && (forall s, j: nat {:trigger s in held, Slot(j, n)} :: s in held && next <= j < made ==> Slot(j, n) != s)
    }

    ghost predicate StorageInv()
      reads this, toks
    {
      StorageOk(toks[..])
    }

    /** Token bytes `ts` fit what is due and awaited. */
    ghost predicate StorageOk(ts: seq<nat>)
      reads this`await, this`due, this`later, this`lost
    {
      && token != 0
      && (await.Some? ==> await.value < |ts| && await.value !in later)
      && (due.Some? ==> due == await && ts[due.value] == 0)
      && (await.Some? && due.None? && !lost ==> ts[await.value] == token)
      && (lost ==> await.Some? && due.None? && ts[await.value] != token)
      && (forall c :: c in later ==> c < |ts|)
    }

    /** Only the awaited cell matters, and once the token is lost only that this portal's does not come back there. */
    lemma StorageKept(ts: seq<nat>, ts': seq<nat>)
      requires StorageOk(ts) && |ts'| == |ts|
      requires await.Some? ==> ts'[await.value] == ts[await.value] || (lost && ts'[await.value] != token)
      ensures StorageOk(ts')
    {
    }

    /** The storage cells hardware may still write to. */
    function Claims(): set<nat>
      reads this`due, this`later
    {
      later + if due.Some? then {due.value} else {}
    }

    /** Hardware gave up claims by writing this portal's token to their cells, and did nothing else to storage. */
    ghost predicate OthersKept(due0: Option<nat>, later0: set<nat>, toks0: seq<nat>)
      requires |toks0| == toks.Length
      reads this, toks
    {
      && (due == due0 || due.None?) && later <= later0
      && forall c :: 0 <= c < toks.Length ==>
           toks[c] == if (Some(c) == due0 && due.None?) || (c in later0 && c !in later) then token else toks0[c]
    }

    ghost predicate Inv()
      reads this, ring, free, toks
    {
      Shape() && RingInv() && StorageInv()
    }

    /** Accepted volatile dequeues that software has not seen the end (or first stored result) of. */
    ghost function Debt(): nat
      requires next <= |produced|
      reads this`owed, this`produced, this`next, this`await
    {
      owed + CountFinal(produced[next..]) + if await.Some? then 1 else 0
    }

    // ---------------------------------------------------------------- hardware

    /**
     Any hardware steps.  A response is stored body first and verb last, into a slot that was consumed, so that it
     appears complete; the body may be changed any number of times before.
     */
    method Run()
      requires Inv()
      modifies this`made, this`owed, this`due, this`later, this`produced, ring, free, toks
      ensures Inv() && Debt() == old(Debt()) && made >= old(made)
      ensures old(produced) <= produced && OthersKept(old(due), old(later), old(toks[..]))
      ensures forall s :: 0 <= s < n && !old(free[s]) ==> !free[s] && ring[s] == old(ring[s])
    {
      hide Slot, Polarity, And, Final, CountFinal, RingInv;
      var steps: nat := *;
      while steps > 0
        invariant Inv() && Debt() == old(Debt()) && made >= old(made)
        invariant old(produced) <= produced && OthersKept(old(due), old(later), old(toks[..]))
        invariant forall s :: 0 <= s < n && !old(free[s]) ==> !free[s] && ring[s] == old(ring[s])
      {
        var kind: nat := *;
        if kind == 0 {
          RespondSome();
        } else if kind == 1 {
          var s: nat, stat: nat, rest: seq<nat> := *, *, *;
          if s < n && free[s] {
            StoreBody(s, stat, rest);
          }
        } else if kind == 2 && due.Some? {
          FirstResult();
        } else if kind == 3 && later != {} {
          var c :| c in later;
          LaterResult(c);
        }
        steps := steps - 1;
      }
    }

    /** Some verb for the body in the next slot, if the slot was consumed; a final one only if it is owed. */
    method RespondSome()
      requires Inv()
      modifies this`made, this`owed, this`produced, ring, free
      ensures Inv() && Debt() == old(Debt()) && made >= old(made) && old(produced) <= produced
      ensures forall s :: 0 <= s < n && !old(free[s]) ==> !free[s] && ring[s] == old(ring[s])
    {
      hide Slot, Polarity, And, Final, CountFinal, RingInv;
      var verb: nat := *;
      var s := Slot(made, n);
      var e := ring[s].(verb := verb);
      if free[s] && verb < 128 && (Final(e) ==> owed > 0) {
        Respond(e);
      }
    }

    /** A body lies in the next slot: its verb is stored, and a last response settles what is owed. */
    method Respond(e: Response)
      requires Inv() && free[Slot(made, n)] && e.verb < 128 && e == ring[Slot(made, n)].(verb := e.verb)
      requires Final(e) ==> owed > 0
      modifies this`made, this`produced, this`owed, ring, free
      ensures Inv() && Debt() == old(Debt()) && produced == old(produced) + [e]
      ensures owed == old(owed) - if Final(e) then 1 else 0
      ensures forall s :: 0 <= s < n && !old(free[s]) ==> !free[s] && ring[s] == old(ring[s])
    {
      hide Slot, Polarity, And, Final, CountFinal, RingInv;
      PendingAfter(e);
      StoreVerb(e);
      if Final(e) {
        owed := owed - 1;
      }
    }

    method StoreVerb(e: Response)
      requires Inv() && free[Slot(made, n)] && e.verb < 128 && e == ring[Slot(made, n)].(verb := e.verb)
      modifies this`made, this`produced, ring, free
      ensures Inv() && produced == old(produced) + [e]
      ensures forall s :: 0 <= s < n && !old(free[s]) ==> !free[s] && ring[s] == old(ring[s])
    {
      hide Slot, Polarity, And, Final, CountFinal;
      var s := Slot(made, n);
      FirstLap(made, n);
      RoomAhead();
      WindowBehind(made, n);
      WindowOthers(made, made, n);
      StoredFacts(e, Polarity(made, n, true));
      ring[s], free[s] := ring[s].(verb := e.verb + ValidBit(Polarity(made, n, true))), false;
      produced, made := produced + [e], made + 1;
      forall j: nat | made <= j + n && j < made ensures Kept(j) {
        if j < made - 1 { assert old(Kept(j)); }
      }
    }

    /** The body of a response, into a slot that was consumed. */
    method StoreBody(s: nat, stat: nat, rest: seq<nat>)
      requires Inv() && s < n && free[s]
      modifies ring
      ensures Inv() && ring[s] == old(ring[s]).(stat := stat, rest := rest)
      ensures forall u :: 0 <= u < n && u != s ==> ring[u] == old(ring[u])
    {
      hide Slot, Polarity, And, Final, CountFinal;
      ring[s] := ring[s].(stat := stat, rest := rest);
      forall j: nat | made <= j + n && j < made ensures Kept(j) {
        assert old(Kept(j));
      }
    }

    lemma PendingAfter(e: Response)
      requires next <= |produced|
      ensures CountFinal((produced + [e])[next..]) == CountFinal(produced[next..]) + if Final(e) then 1 else 0
    {
      CountFinalPush(produced[next..], e);
      assert (produced + [e])[next..] == produced[next..] + [e];
    }

    /** Only a consumed slot is free, so hardware never runs more than a ring ahead of software. */
    lemma RoomAhead()
      requires Inv() && free[Slot(made, n)]
      ensures made < next + n
    {
      assert Slot(next + n, n) == Slot(next, n);
    }

    method FirstResult()
      requires Inv() && due.Some?
      modifies this`due, toks
      ensures Inv() && Debt() == old(Debt()) && due.None?
      ensures toks[..] == old(toks[..])[old(due.value) := token]
    {
      toks[due.value] := token;
      due := None;
    }

    method LaterResult(c: nat)
      requires Inv() && c in later
      modifies this`later, toks
      ensures Inv() && Debt() == old(Debt()) && later == old(later) - {c}
      ensures toks[..] == old(toks[..])[c := token]
    {
      toks[c] := token;
      later := later - {c};
    }

    // ---------------------------------------------------------------- software's accesses

    /** The DQRR producer index; only its low four bits mean anything. */
    method ReadPi() returns (v: nat)
      requires Inv() && 0 < piModulus <= 16
      modifies this`made, this`owed, this`due, this`later, this`produced, ring, free, toks
      ensures Inv() && Debt() == old(Debt()) && made >= old(made)
      ensures old(produced) <= produced && OthersKept(old(due), old(later), old(toks[..]))
      ensures forall s :: 0 <= s < n && !old(free[s]) ==> !free[s] && ring[s] == old(ring[s])
      ensures And(v, 0xf) == Slot(made, piModulus)
    {
      Run();
      var low := Slot(made, piModulus);
      Powers();
      AndLowMask(low, 4);
      v :| And(v, 0xf) == low;
    }

    /** Software's cursor moves over a response: its slot is the user's until consumed. */
    method HandOut(s: nat)
      requires Inv() && next < made && s == Slot(next, n)
      modifies this`next, this`held
      ensures Inv() && next == old(next) + 1 && held == old(held) + {s}
    {
      WindowOthers(next, next, n);
      SlotLap(next, n);
      hide Slot, Polarity, And;
      next, held := next + 1, held + {s};
    }

    /** Writing DCAP for a returned response: hardware may overwrite its slot. */
    method Consume(s: nat)
      requires Inv() && s in held
      modifies free, this`held
      ensures Inv() && held == old(held) - {s} && free[..] == old(free[..])[s := true]
    {
      hide Slot, Polarity, And, Final, CountFinal;
      free[s] := true;
      held := held - {s};
      forall j: nat | made <= j + n && j < made ensures Kept(j) {
        assert old(Kept(j));
      }
    }

    /** Storage a dequeue may use: the first cell is zeroed and hardware has nothing left to write to any. */
    predicate Storable(storage: Option<nat>, numFrames: nat)
      reads this, toks
    {
      0 < numFrames && (storage.Some? ==>
        && storage.value + numFrames <= toks.Length
        && toks[storage.value] == 0
        && forall c :: storage.value <= c < storage.value + numFrames ==> c !in later)
    }

    /**
     The four words of a volatile dequeue command, of the polarity hardware expects and with this portal's token,
     into DQRR or, with RLS set, to the storage that software will look at.
     */
    method WriteVdqcr(words: seq<nat>, storage: Option<nat>)
      requires |words| == 4 && HasValid(words[0]) == vdqPolarity
      requires var c := PullDesc.Understood(words); c.token == token && (PullDesc.ToStorage(c) <==> storage.Some?)
      modifies this`owed, this`due, this`later, this`await, this`vdqPolarity, this`commands
      ensures var c := PullDesc.Understood(words);
              && commands == old(commands) + [c]
              && await == storage && vdqPolarity == !old(vdqPolarity)
              && owed == old(owed) + (if storage.Some? then 0 else 1)
              && due == (if storage.Some? then storage else old(due))
              && later == old(later)
                          + (if storage.Some? then Cells(storage.value + 1, storage.value + c.numFrames) else {})
              && (old(Inv() && Debt() == 0 && Storable(storage, c.numFrames)) ==> Inv() && Debt() == 1)
    {
      hide RingInv, Slot, HasValid, CountFinal, PullDesc.Understood;
      var c := PullDesc.Understood(words);
      commands := commands + [c];
      vdqPolarity := !vdqPolarity;
      await := storage;
      if PullDesc.ToStorage(c) {
        due := storage;
        later := later + Cells(storage.value + 1, storage.value + c.numFrames);
      } else {
        owed := owed + 1;
      }
    }
  }

  lemma FirstLap(j: nat, n: nat)
    requires n > 0
    ensures j < n ==> Slot(j, n) == j
  {
  }
}
