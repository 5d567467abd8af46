/**
 The ideal dequeue side of any number of portals: what the user waits for on each, how calls and hardware change
 it, and what calls may return.
 */
module Ledger {
  import opened Options
  import opened DequeueBus
  import PullDesc

  /**
     What the user waits for on a portal: nothing, a last response in the ring, the result in a cell, which hardware
     has written or not; or a result that was swallowed before it gave the token back.
   */
  datatype Pending = Nothing | ToRing | ToCell(cell: nat, written: bool) | Lost(cell: nat)

  /** What a call returns to the user; Fault is a NULL dereference. */
  datatype Answer = Skipped | No | Yes | Fault

  type Ledger = map<nat, Pending>

  predicate Awaits(w: Pending, cell: nat) {
    w.ToCell? && w.cell == cell
  }

  /** The driver's note of the awaited storage names the cell. */
  predicate Points(w: Pending, cell: nat) {
    (w.ToCell? || w.Lost?) && w.cell == cell
  }

  function Written(w: Pending): Pending {
    if w.ToCell? then w.(written := true) else w
  }

  function Issued(storage: Option<nat>): Pending {
    if storage.Some? then ToCell(storage.value, false) else ToRing
  }

  /** Hardware writes the awaited results of some portals. */
  function Wrote(l: Ledger, portals: set<nat>): (l': Ledger)
    ensures l'.Keys == l.Keys
  {
    map i | i in l :: if i in portals then Written(l[i]) else l[i]
  }

  /** Completion: whoever waits for the cell is not waiting any more; no other changes. */
  function Settled(l: Ledger, cell: nat): (l': Ledger)
    ensures l'.Keys == l.Keys
  {
    map i | i in l :: if Awaits(l[i], cell) then Nothing else l[i]
  }

  /** The result in the cell is gone: whoever waits for it waits in vain. */
  function Swallowed(l: Ledger, cell: nat): (l': Ledger)
    ensures l'.Keys == l.Keys
  {
    map i | i in l :: if Awaits(l[i], cell) then Lost(cell) else l[i]
  }

  /** The hook of a poll on one portal. */
  function Released(l: Ledger, i: nat, cell: nat): Ledger {
    if i in l && Points(l[i], cell) then l[i := Nothing] else l
  }

  lemma WroteMore(l: Ledger, portals: set<nat>, i: nat)
    requires i in l
    ensures Wrote(l, portals)[i := Written(Wrote(l, portals)[i])] == Wrote(l, portals + {i})
  {
  }

  lemma WroteTwice(l: Ledger, first: set<nat>, second: set<nat>)
    ensures Wrote(Wrote(l, first), second) == Wrote(l, first + second)
  {
  }

  lemma WroteNone(l: Ledger)
    ensures Wrote(l, {}) == l
  {
  }

  /** Where only one portal can wait for the cell. */
  lemma AtMostOne(l: Ledger, i: nat, cell: nat)
    requires forall j :: j in l && Awaits(l[j], cell) ==> j == i
    ensures Settled(l, cell) == if i in l && Awaits(l[i], cell) then l[i := Nothing] else l
    ensures Swallowed(l, cell) == if i in l && Awaits(l[i], cell) then l[i := Lost(cell)] else l
  {
  }

  /** A lost portal's poll takes the result of the portal that waits for the cell. */
  lemma TakenOver(l: Ledger, k: nat, i: nat, cell: nat)
    requires k in l && l[k] == Lost(cell) && i in l && Awaits(l[i], cell)
    requires forall j :: j in l && Awaits(l[j], cell) ==> j == i
    ensures Swallowed(Released(l, k, cell), cell) == l[k := Nothing][i := Lost(cell)]
  {
    AtMostOne(l[k := Nothing], i, cell);
  }

  // ------------------------------------------------------------------ calls

  datatype Call =
    | Init(i: nat, before41: bool, piModulus: nat, initial: seq<Response>)
    | Finish(i: nat)
    | Next(i: nat)
    | Consume(i: nat, slot: nat)
    | Pull(i: nat, d: PullDesc.Desc)
    | HasNew(i: nat, cell: nat)
    | CheckNew(cell: nat)
    | Complete(cell: nat)

  /** What a call does to what the user waits for, given what it returned. */
  function Ideal(l: Ledger, call: Call, a: Answer): Ledger {
    if a != Yes then l else
      match call
      case Init(i, _, _, _) => l[i := Nothing]
      case Finish(i) => l - {i}
      case Next(i) => l[i := Nothing]
      case Consume(_, _) => l
      case Pull(i, d) => l[i := Issued(d.storage)]
      case HasNew(i, cell) => Swallowed(Released(l, i, cell), cell)
      case CheckNew(cell) => Swallowed(l, cell)
      case Complete(cell) => Settled(l, cell)
  }

  /** A poll of a cell somebody waits for finds it exactly when hardware has written it since the dequeue. */
  predicate Exact(l: Ledger, cell: nat, a: Answer) {
    forall i :: i in l && Awaits(l[i], cell) ==> a == if l[i].written then Yes else No
  }

  /**
     What may be returned: a pull is granted exactly while nothing is awaited on its portal, a last response found
     only while one is, and a cell found written only if it was.
   */
  predicate Honest(l: Ledger, call: Call, a: Answer) {
    a == Skipped ||
      match call
      case Pull(i, _) => i in l && (a == Yes <==> l[i] == Nothing)
      case Next(i) => i in l && (a == Yes ==> l[i] == ToRing)
      case HasNew(i, cell) => i in l && Exact(l, cell, a)
      case CheckNew(cell) => Exact(l, cell, a)
      case Complete(cell) => Exact(l, cell, a)
      case _ => true
  }

  /** Hardware's part of a step, then the call. */
  function After(l: Ledger, wrote: set<nat>, call: Call, a: Answer): Ledger {
    Ideal(Wrote(l, wrote), call, a)
  }

  function Replay(l: Ledger, script: seq<Call>, wrote: seq<set<nat>>, answers: seq<Answer>): Ledger
    requires |answers| == |wrote| == |script|
  {
    if script == [] then l else
      var k := |script| - 1;
      After(Replay(l, script[..k], wrote[..k], answers[..k]), wrote[k], script[k], answers[k])
  }

  /** Every answer of the run was one that may be returned at that point. */
  predicate AllHonest(l: Ledger, script: seq<Call>, wrote: seq<set<nat>>, answers: seq<Answer>)
    requires |answers| == |wrote| == |script|
  {
    script != [] ==>
      var k := |script| - 1;
      && AllHonest(l, script[..k], wrote[..k], answers[..k])
      && Honest(Wrote(Replay(l, script[..k], wrote[..k], answers[..k]), wrote[k]), script[k], answers[k])
  }

  lemma OneMoreCall(l: Ledger, script: seq<Call>, wrote: seq<set<nat>>, answers: seq<Answer>, w: set<nat>, a: Answer)
    requires |answers| == |wrote| < |script|
    requires AllHonest(l, script[..|answers|], wrote, answers)
    requires Honest(Wrote(Replay(l, script[..|answers|], wrote, answers), w), script[|answers|], a)
    ensures var k := |answers|;
            && AllHonest(l, script[..k + 1], wrote + [w], answers + [a])
            && Replay(l, script[..k + 1], wrote + [w], answers + [a])
               == After(Replay(l, script[..k], wrote, answers), w, script[k], a)
  {
    hide Honest, Ideal;
    var k := |answers|;
    assert script[..k + 1][..k] == script[..k] && (answers + [a])[..k] == answers && (wrote + [w])[..k] == wrote;
  }

  // ------------------------------------------------------------------ losing the token

  /** A call that clears the awaited, written result of portal `k` without giving `k`'s token back. */
  predicate Swallows(call: Call, cell: nat, k: nat) {
    (call.CheckNew? && call.cell == cell) || (call.HasNew? && call.cell == cell && call.i != k)
  }

  /** What ends a loss: new set-up, or a poll of the portal that finds the cell written by another dequeue. */
  predicate Ends(call: Call, cell: nat, k: nat) {
    (call.Init? && call.i == k) || (call.Finish? && call.i == k) || (call == HasNew(k, cell))
  }

  /** A portal becomes lost exactly when such a call returns 1, and then its awaited result had been written. */
  lemma LostExactly(l: Ledger, call: Call, a: Answer, k: nat, cell: nat)
    requires k in l && l[k] != Lost(cell) && Honest(l, call, a)
    ensures k in Ideal(l, call, a) && Ideal(l, call, a)[k] == Lost(cell)
       <==> a == Yes && Swallows(call, cell, k) && l[k] == ToCell(cell, true)
  {
  }

  /** It stays lost exactly until one of the others returns 1. */
  lemma LostUntil(l: Ledger, call: Call, a: Answer, k: nat, cell: nat)
    requires k in l && l[k] == Lost(cell) && Honest(l, call, a)
    ensures k in Ideal(l, call, a) && Ideal(l, call, a)[k] == Lost(cell) <==> a != Yes || !Ends(call, cell, k)
  {
  }

  /** In a run without such an end a lost portal stays lost, and every pull of it is refused. */
  lemma {:induction false} LostStays(l: Ledger, script: seq<Call>, wrote: seq<set<nat>>, answers: seq<Answer>, k: nat,
                                     cell: nat)
    requires |answers| == |wrote| == |script| && AllHonest(l, script, wrote, answers)
    requires k in l && l[k] == Lost(cell)
    requires forall m :: 0 <= m < |script| ==> answers[m] != Yes || !Ends(script[m], cell, k)
    ensures var l' := Replay(l, script, wrote, answers); k in l' && l'[k] == Lost(cell)
    ensures forall m :: 0 <= m < |script| && script[m].Pull? && script[m].i == k ==> answers[m] != Yes
  {
    if script != [] {
      var m := |script| - 1;
      LostStays(l, script[..m], wrote[..m], answers[..m], k, cell);
      var l' := Replay(l, script[..m], wrote[..m], answers[..m]);
      LostUntil(Wrote(l', wrote[m]), script[m], answers[m], k, cell);
      assert forall n :: 0 <= n < m ==> script[n] == script[..m][n] && answers[n] == answers[..m][n];
    }
  }
}
