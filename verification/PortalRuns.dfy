/** Whole runs over several portals, interleaved with hardware, against the ideal of module Ledger. */
module PortalRuns {
  import opened Bits
  import opened Options
  import opened DequeueBus
  import opened Dequeue
  import PullDesc
  import opened Ledger
  import opened PortalTable

  function ToAnswer(yes: bool): Answer {
    if yes then Yes else No
  }

  predicate WellFormed(call: Call)
    requires call.Init?
  {
    && call.i < MAX_PORTALS && |call.initial| == (if call.before41 then 4 else 8)
    && if call.before41 then |call.initial| < call.piModulus <= 16
       else forall s :: 0 <= s < |call.initial| ==> And(call.initial[s].verb, VALID_BIT) == 0
  }

  /**
     One call, after any hardware steps; a call its precondition rules out at this point is skipped.  `wrote` are the
     portals whose awaited result hardware wrote.
   */
  method Step(d: Driver, call: Call) returns (a: Answer, ghost wrote: set<nat>)
    requires d.Valid()
    modifies d, d.home.Keys
    ensures d.Valid() && fresh(d.home.Keys - old(d.home.Keys))
    ensures d.ledger == After(old(d.ledger), wrote, call, a) && Honest(Wrote(old(d.ledger), wrote), call, a)
  {
    hide Driver.Strays, Driver.StraysElsewhere, Driver.Owned, Good, HasValid, And, Wrote, Ideal, Honest;
    wrote := d.Hardware();
    if call.Next? {
      ghost var more;
      a, more := PollRing(d, call.i);
      WroteTwice(old(d.ledger), wrote, more);
      wrote := wrote + more;
    } else if call.HasNew? || call.CheckNew? || call.Complete? {
      a := PollCell(d, call);
    } else {
      a := Manage(d, call);
    }
  }

  /** The poll of a ring, during which hardware may write a result, too. */
  method PollRing(d: Driver, i: nat) returns (a: Answer, ghost wrote: set<nat>)
    requires d.Valid()
    modifies d`ledger, d.home.Keys
    ensures d.Valid() && d.ledger == After(old(d.ledger), wrote, Next(i), a)
    ensures Honest(Wrote(old(d.ledger), wrote), Next(i), a)
  {
    hide Driver.Strays, Driver.StraysElsewhere, Driver.Owned, Good, Wrote;
    a, wrote := Skipped, {};
    WroteNone(d.ledger);
    if d.Live(i) {
      WroteMore(d.ledger, {}, i);
      var last;
      ghost var one;
      last, one := d.Next(i);
      a := ToAnswer(last);
      wrote := if one then {} + {i} else {};
    }
  }

  /** Set-up, consumption and pulls. */
  method Manage(d: Driver, call: Call) returns (a: Answer)
    requires d.Valid() && (call.Init? || call.Finish? || call.Consume? || call.Pull?)
    modifies d, d.home.Keys
    ensures d.Valid() && fresh(d.home.Keys - old(d.home.Keys))
    ensures d.ledger == Ideal(old(d.ledger), call, a) && Honest(old(d.ledger), call, a)
  {
    hide Driver.Strays, Driver.StraysElsewhere, Driver.Owned, Good, HasValid, And;
    a := Skipped;
    match call
    case Init(i, before41, piModulus, initial) =>
      if WellFormed(call) {
        d.Init(i, before41, piModulus, initial);
        a := Yes;
      }
    case Finish(i) =>
      if d.Live(i) {
        d.Finish(i);
        a := Yes;
      }
    case Consume(i, slot) =>
      if d.Live(i) && slot in d.portalIdxMap[i].bus.held {
        d.Consume(i, slot);
        a := Yes;
      }
    case Pull(i, desc) =>
      if d.Live(i) && d.MayPull(i, desc) {
        var ok := d.Pull(i, desc);
        a := ToAnswer(ok);
      }
  }

  /** The polls of a storage cell. */
  method PollCell(d: Driver, call: Call) returns (a: Answer)
    requires d.Valid() && (call.HasNew? || call.CheckNew? || call.Complete?)
    modifies d`ledger, d.home.Keys
    ensures d.Valid() && d.ledger == Ideal(old(d.ledger), call, a) && Honest(old(d.ledger), call, a)
  {
    hide Driver.Strays, Driver.StraysElsewhere, Driver.Owned, Good, Settled, Swallowed, Released;
    a := Skipped;
    if call.cell < d.toks.Length {
      d.CellExact(call.cell);
      match call
      case HasNew(i, cell) =>
        if d.Live(i) {
          var isNew := d.HasNew(i, cell);
          a := ToAnswer(isNew);
        }
      case CheckNew(cell) =>
        var isNew := d.CheckNew(cell);
        a := ToAnswer(isNew);
      case Complete(cell) =>
        a := d.CheckCommandComplete(cell);
    }
  }

  /**
     Any run over any portals: what the calls return and do is what the ideal allows, on every live portal the token
     is taken exactly while the user waits for a dequeue of that portal, and it is lost exactly where the ideal says
     so.  No two portals wait for one cell, so a completion settles the issuer alone.
   */
  method Run(d: Driver, script: seq<Call>) returns (answers: seq<Answer>, ghost wrote: seq<set<nat>>)
    requires d.Valid()
    modifies d, d.home.Keys
    ensures d.Valid() && |answers| == |wrote| == |script|
    ensures d.ledger == Replay(old(d.ledger), script, wrote, answers)
    ensures AllHonest(old(d.ledger), script, wrote, answers)
    ensures forall i: nat :: i in d.ledger <==> d.Live(i)
    ensures forall i :: i in d.ledger ==> d.portalIdxMap[i].busy == if d.ledger[i] == Nothing then 1 else 0
    ensures forall i :: i in d.ledger ==> (d.portalIdxMap[i].bus.lost <==> d.ledger[i].Lost?)
    ensures forall i, j, c :: i in d.ledger && j in d.ledger && Awaits(d.ledger[i], c) && Awaits(d.ledger[j], c) ==>
              i == j
  {
    hide Driver.Strays, Driver.StraysElsewhere, Driver.Owned, Good, Honest, After, AllHonest, Replay;
    answers, wrote := [], [];
    ghost var l := d.ledger;
    NothingCalled(l);
    assert script[..0] == [];
    for k := 0 to |script|
      invariant d.Valid() && fresh(d.home.Keys - old(d.home.Keys)) && |answers| == |wrote| == k
      invariant d.ledger == Replay(l, script[..k], wrote, answers) && AllHonest(l, script[..k], wrote, answers)
    {
      var a;
      ghost var w;
      a, w := Step(d, script[k]);
      OneMoreCall(l, script, wrote, answers, w, a);
      answers, wrote := answers + [a], wrote + [w];
    }
    assert script[..|script|] == script;
    d.BusyIsLedger();
    d.OneWaiter();
  }

  /**
     A lost token can come back, at another portal's cost: portal `i` reuses the cell, hardware writes it, and the
     poll of portal `k` takes the result of `i`.
   */
  method Reuse(d: Driver, k: nat, i: nat, desc: PullDesc.Desc, cell: nat, last: Response)
    requires d.Valid() && d.Live(k) && d.Live(i) && d.ledger[k] == Lost(cell) && d.ledger[i] == Nothing
    requires d.MayPull(i, desc) && desc.storage == Some(cell) && Final(last) && last.verb < 128
    modifies d, d.home.Keys
    ensures d.Valid() && d.ledger == old(d.ledger)[k := Nothing][i := Lost(cell)]
  {
    hide Driver.Strays, Driver.StraysElsewhere, Driver.Owned, Good, HasValid, Final, Driver.MayPull;
    hide Swallowed, Released;
    Refill(d, i, desc, cell, last);
    TakenOver(d.ledger, k, i, cell);
    var isNew := d.HasNew(k, cell);
  }

  /** A whole dequeue into a cell nobody has a use for, up to hardware's result. */
  method Refill(d: Driver, i: nat, desc: PullDesc.Desc, cell: nat, last: Response)
    requires d.Valid() && d.Live(i) && d.ledger[i] == Nothing
    requires d.MayPull(i, desc) && desc.storage == Some(cell) && Final(last) && last.verb < 128
    modifies d, d.home.Keys
    ensures d.Valid() && d.ledger == old(d.ledger)[i := ToCell(cell, true)] && d.home == old(d.home)
    ensures d.portalIdxMap[..] == old(d.portalIdxMap[..]) && cell < d.toks.Length && d.toks[cell] == i + 1
    ensures forall j :: j in d.ledger && Awaits(d.ledger[j], cell) ==> j == i
  {
    hide Driver.Strays, Driver.StraysElsewhere, Driver.Owned, Good, HasValid, Final, Driver.MayPull;
    var granted := d.Pull(i, desc);
    d.Complete(i, last);
    d.OnlyWaiter(i, cell);
    d.CellExact(cell);
  }

  lemma NothingCalled(l: Ledger)
    ensures Replay(l, [], [], []) == l && AllHonest(l, [], [], [])
  {
  }
}
