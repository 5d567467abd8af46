/**
 Several portals at once: the global table from which qbman_check_command_complete finds the portal that issued a
 volatile dequeue, by the token the dequeue carried, and the result storage the portals share.
 */
module PortalTable {
  import opened Bits
  import opened RingIndex
  import opened Options
  import opened DequeueBus
  import opened Dequeue
  import opened Ledger
  import PullDesc
  import DequeueRuns

  /** The driver's view of a portal, and hardware's, agree with what the user waits for. */
  ghost predicate Matches(p: Swp, w: Pending)
    reads p`busy, p`storage, p.bus`due, p.bus`lost
  {
    && p.busy == (if w == Nothing then 1 else 0)
    && p.storage == (if w.ToCell? || w.Lost? then Some(w.cell) else None)
    && (p.bus.lost <==> w.Lost?)
    && (w.ToCell? ==> (w.written <==> p.bus.due.None?))
  }

  /**
     A portal at table index `i` is sound: its rings and registers are, the user waits for `w` on it, and the token
     bytes `ts` of the cells it has a use for, which are all its own, fit what it expects.
   */
  ghost predicate Good(p: Swp, i: nat, w: Pending, ts: seq<nat>, owner: map<nat, nat>)
    reads p, p.bus, p.bus.ring, p.bus.free
  {
    && p.Local() && p.bus.StorageOk(ts) && Matches(p, w)
    && forall c :: c in p.Cells() ==> c in owner && owner[c] == i
  }

  /** It stays sound whatever happens to cells and claims of others. */
  lemma GoodStays(p: Swp, i: nat, w: Pending, ts: seq<nat>, owner: map<nat, nat>, ts': seq<nat>, owner': map<nat, nat>)
    requires Good(p, i, w, ts, owner) && |ts'| == |ts|
    requires forall c :: c in p.Cells() ==> c in owner' && owner'[c] == i
    requires forall c :: c in p.Cells() && c < |ts| ==> ts'[c] == ts[c]
    requires w.Lost? && w.cell < |ts| ==> ts'[w.cell] == ts[w.cell] || ts'[w.cell] != p.bus.token
    ensures Good(p, i, w, ts', owner')
  {
    if p.storage.Some? && !w.Lost? {
      assert p.storage.value in p.Cells();
    }
    p.bus.StorageKept(ts, ts');
  }

  /** Clearing a cell it does not wait for does not matter to it. */
  lemma GoodElsewhere(p: Swp, i: nat, w: Pending, ts: seq<nat>, owner: map<nat, nat>, cell: nat)
    requires Good(p, i, w, ts, owner) && !Awaits(w, cell) && cell < |ts|
    ensures Good(p, i, w, ts[cell := 0], owner)
  {
    p.bus.StorageKept(ts, ts[cell := 0]);
  }

  /** A cell a portal waits for is set exactly when hardware has written it, and then with that portal's token. */
  lemma WaiterToken(p: Swp, i: nat, w: Pending, ts: seq<nat>, owner: map<nat, nat>, cell: nat)
    requires Good(p, i, w, ts, owner) && Points(w, cell)
    ensures cell < |ts| && (Awaits(w, cell) ==> ts[cell] == if w.written then p.bus.token else 0)
    ensures Awaits(w, cell) && !w.written ==> cell in p.bus.Claims()
    ensures w.Lost? ==> ts[cell] != p.bus.token
    ensures p.bus.token != 0
  {
  }

  lemma ClaimsInRange(p: Swp, ts: seq<nat>)
    requires p.bus.StorageOk(ts)
    ensures forall c :: c in p.bus.Claims() ==> c < |ts|
  {
  }

  /** `m` with every element of a set given to `v`. */
  function Give<K>(m: map<K, nat>, keys: set<K>, v: nat): (r: map<K, nat>)
    ensures r.Keys == m.Keys + keys
    ensures forall c :: c in r ==> r[c] == if c in keys then v else m[c]
  {
    m + map c | c in keys :: v
  }

  class Driver {
    const portalIdxMap: array<Swp?>
    /** The token byte of each cell of result storage. */
    const toks: array<nat>
    /** Results hardware still owes to portals that are gone: cell and token. */
    var stray: map<nat, nat>
    ghost var ledger: Ledger
    /** The table index of the portal a cell was last given to. */
    ghost var owner: map<nat, nat>
    /** Every object of the model, and the table index of the portal it belongs to. */
    ghost var home: map<object, nat>

    predicate Live(i: nat)
      requires portalIdxMap.Length == MAX_PORTALS
      reads portalIdxMap
    {
      i < MAX_PORTALS && portalIdxMap[i] != null
    }

    ghost predicate Shape()
      reads this`home, this`ledger, portalIdxMap
    {
      && portalIdxMap.Length == MAX_PORTALS
      && portalIdxMap in home && home[portalIdxMap] == MAX_PORTALS
      && toks in home && home[toks] == MAX_PORTALS && this !in home
      && (forall i: nat :: i in ledger <==> Live(i))
      && (forall i: nat :: Live(i) ==> Owned(portalIdxMap[i], i))
    }

    ghost predicate Owned(p: Swp, i: nat)
      reads this`home
    {
      && p.idx == i && p.bus.token == i + 1 && p.bus.toks == toks
      && p in home && home[p] == i && p.bus in home && home[p.bus] == i
      && p.bus.ring in home && home[p.bus.ring] == i && p.bus.free in home && home[p.bus.free] == i
    }

    ghost predicate Strays()
      reads this`stray, this`owner
    {
      forall c :: c in stray ==> c < toks.Length && stray[c] != 0 && c in owner && owner[c] == MAX_PORTALS
    }

    /** No stray result brings the token of a lost portal to its cell. */
    ghost predicate StraysElsewhere()
      reads this`stray, this`ledger
    {
      forall c, k :: c in stray && k in ledger && ledger[k] == Lost(c) ==> stray[c] != k + 1
    }

    ghost predicate Valid()
      reads this, home.Keys, portalIdxMap
    {
      && Shape() && Strays() && StraysElsewhere()
      && forall i: nat :: Live(i) ==> Good(portalIdxMap[i], i, ledger[i], toks[..], owner)
    }

    constructor (cells: nat)
      ensures Valid() && fresh(home.Keys) && ledger == map[] && toks.Length == cells
    {
      portalIdxMap := new Swp?[MAX_PORTALS](i => null);
      toks := new nat[cells](i => 0);
      stray, ledger, owner := map[], map[], map[];
      new;
      ghost var table: object, cells': object := portalIdxMap, toks;
      home := map[table := MAX_PORTALS, cells' := MAX_PORTALS];
    }

    /** Busy is 1 exactly when nothing is awaited on the portal, and else 0. */
    lemma BusyIsLedger()
      requires Valid()
      ensures forall i: nat :: i in ledger <==> Live(i)
      ensures forall i :: i in ledger ==> portalIdxMap[i].busy == if ledger[i] == Nothing then 1 else 0
      ensures forall i :: i in ledger ==> (portalIdxMap[i].bus.lost <==> ledger[i].Lost?)
    {
      hide Swp.Local, Bus.StorageOk;
      forall i | i in ledger
        ensures portalIdxMap[i].busy == if ledger[i] == Nothing then 1 else 0
        ensures portalIdxMap[i].bus.lost <==> ledger[i].Lost?
      {
        assert Good(portalIdxMap[i], i, ledger[i], toks[..], owner);
      }
    }

    /** If `i` waits for a cell, no other portal does. */
    lemma OnlyWaiter(i: nat, cell: nat)
      requires Valid() && i in ledger && Awaits(ledger[i], cell)
      ensures cell < toks.Length && forall j :: j in ledger && Awaits(ledger[j], cell) ==> j == i
    {
      hide Good;
      OneWaiter();
      WaiterToken(portalIdxMap[i], i, ledger[i], toks[..], owner, cell);
    }

    /** No two portals wait for the same cell. */
    lemma OneWaiter()
      requires Valid()
      ensures forall i, j, c :: i in ledger && j in ledger && Awaits(ledger[i], c) && Awaits(ledger[j], c) ==> i == j
    {
      hide Swp.Local, Bus.StorageOk;
      forall i, j, c | i in ledger && j in ledger && Awaits(ledger[i], c) && Awaits(ledger[j], c) ensures i == j {
        assert c in portalIdxMap[i].Cells() && c in portalIdxMap[j].Cells();
      }
    }

    /** After something happened to portal `i` alone: every portal is sound, `i` for `w`. */
    ghost predicate AllBut(i: nat, w: Pending)
      reads this, home.Keys, portalIdxMap
    {
      && Shape() && Strays() && StraysElsewhere() && Live(i)
      && (w.Lost? && w.cell in stray ==> stray[w.cell] != i + 1)
      && forall j: nat :: Live(j) ==> Good(portalIdxMap[j], j, if j == i then w else ledger[j], toks[..], owner)
    }

    /** The user's note of it. */
    ghost method Note(i: nat, w: Pending)
      requires AllBut(i, w)
      modifies this`ledger
      ensures Valid() && ledger == old(ledger)[i := w]
    {
      hide Good, Owned, Strays;
      ledger := ledger[i := w];
    }

    // ---------------------------------------------------------------- hardware

    /** Hardware working for portal `i`; `wrote` says whether it wrote a result the user waits for. */
    method PortalHardware(i: nat) returns (ghost wrote: bool)
      requires Valid() && Live(i)
      modifies home.Keys, this`ledger
      ensures Valid() && portalIdxMap[..] == old(portalIdxMap[..])
      ensures ledger == if wrote then old(ledger)[i := Written(old(ledger)[i])] else old(ledger)
    {
      hide Good, Strays, StraysElsewhere, Owned;
      ghost var w := HardwareAmong(i);
      wrote := w != ledger[i];
      Note(i, w);
    }

    method HardwareAmong(i: nat) returns (ghost w: Pending)
      requires Valid() && Live(i)
      modifies home.Keys
      ensures portalIdxMap[..] == old(portalIdxMap[..]) && AllBut(i, w) && w in {ledger[i], Written(ledger[i])}
    {
      hide CountFinal, Slot, Polarity, And, Final, Swp.Local, Bus.StorageOk, Matches;
      ghost var ts := toks[..];
      w := HardwareOf(portalIdxMap[i], i, ledger[i]);
      forall j: nat | Live(j) && j != i ensures Good(portalIdxMap[j], j, ledger[j], toks[..], owner) {
        GoodStays(portalIdxMap[j], j, ledger[j], ts, owner, toks[..], owner);
      }
    }

    /** The same seen from the portal alone. */
    method HardwareOf(p: Swp, ghost i: nat, ghost w: Pending) returns (ghost w': Pending)
      requires p.bus.toks == toks && Good(p, i, w, toks[..], owner)
      modifies p.bus`made, p.bus`owed, p.bus`due, p.bus`later, p.bus`produced, p.bus.ring, p.bus.free, toks
      ensures w' in {w, Written(w)} && Good(p, i, w', toks[..], owner)
      ensures p.bus.OthersKept(old(p.bus.due), old(p.bus.later), old(toks[..]))
    {
      hide CountFinal, Slot, Polarity, And, Final, Bus.RingInv, Bus.StorageOk, Swp.Cursor, Swp.Token;
      p.Hardware();
      w' := if p.bus.due.None? then Written(w) else w;
    }

    /** Hardware finishing a dequeue of a portal that is gone. */
    method StrayResult(c: nat)
      requires Valid() && c in stray
      modifies toks, this`stray
      ensures Valid()
    {
      hide CountFinal, Slot, Polarity, And, Final, Swp.Local, Bus.StorageOk, Matches;
      ghost var ts := toks[..];
      toks[c] := stray[c];
      stray := stray - {c};
      forall j: nat | Live(j) ensures Good(portalIdxMap[j], j, ledger[j], toks[..], owner) {
        GoodStays(portalIdxMap[j], j, ledger[j], ts, owner, toks[..], owner);
      }
    }

    lemma InLedger(i: nat)
      requires Shape() && Live(i)
      ensures i in ledger
    {
    }

    /** Any steps of hardware, for any portals; `wrote` are those whose awaited result it wrote. */
    method Hardware() returns (ghost wrote: set<nat>)
      requires Valid()
      modifies home.Keys, this`stray, this`ledger
      ensures Valid() && portalIdxMap[..] == old(portalIdxMap[..]) && ledger == Wrote(old(ledger), wrote)
    {
      hide Strays, StraysElsewhere, Good, Owned;
      wrote := {};
      WroteNone(ledger);
      var steps: nat := *;
      while steps > 0
        invariant Valid() && portalIdxMap[..] == old(portalIdxMap[..]) && ledger == Wrote(old(ledger), wrote)
      {
        var i: nat := *;
        if Live(i) {
          InLedger(i);
          WroteMore(old(ledger), wrote, i);
          ghost var one := PortalHardware(i);
          wrote := wrote + if one then {i} else {};
        } else if stray.Keys != {} {
          var c :| c in stray;
          StrayResult(c);
        }
        steps := steps - 1;
      }
    }

    // ---------------------------------------------------------------- set-up

    /** qbman_swp_finish, and what overwriting a table entry amounts to: hardware may still owe results. */
    method Finish(i: nat)
      requires Valid() && Live(i)
      modifies portalIdxMap, this`stray, this`ledger, this`owner
      ensures Valid() && portalIdxMap[..] == old(portalIdxMap[..])[i := null] && ledger == old(ledger) - {i}
    {
      hide Good, Owned, Strays, StraysElsewhere;
      var cells := Leave(i);
      Orphan(i, cells);
    }

    /** The table entry goes; the cells hardware may still write are left. */
    method Leave(i: nat) returns (cells: set<nat>)
      requires Valid() && Live(i)
      modifies portalIdxMap, this`ledger
      ensures Valid() && portalIdxMap[..] == old(portalIdxMap[..])[i := null] && ledger == old(ledger) - {i}
      ensures forall c :: c in cells ==> c < toks.Length && c in owner && owner[c] == i
    {
      hide Good, Owned, Strays, Bus.Claims;
      cells := portalIdxMap[i].bus.Claims();
      ClaimsOwned(i);
      portalIdxMap[i] := null;
      ledger := ledger - {i};
    }

    lemma ClaimsOwned(i: nat)
      requires Valid() && Live(i)
      ensures forall c :: c in portalIdxMap[i].bus.Claims() ==> c < toks.Length && c in owner && owner[c] == i
    {
      hide Swp.Local, Bus.StorageOk, Matches;
      var p := portalIdxMap[i];
      assert Good(p, i, ledger[i], toks[..], owner);
      ClaimsInRange(p, toks[..]);
      assert forall c :: c in p.bus.Claims() ==> c in p.Cells();
    }

    /** The claims of a portal that is no longer in the table. */
    method Orphan(i: nat, cells: set<nat>)
      requires Valid() && i < MAX_PORTALS && !Live(i)
      requires forall c :: c in cells ==> c < toks.Length && c in owner && owner[c] == i
      modifies this`stray, this`owner
      ensures Valid()
    {
      hide CountFinal, Slot, Polarity, And, Final, Swp.Local, Bus.StorageOk, Matches, Owned, Give;
      ghost var owner' := Give(owner, cells, MAX_PORTALS);
      forall j: nat | Live(j) ensures Good(portalIdxMap[j], j, ledger[j], toks[..], owner') {
        GoodStays(portalIdxMap[j], j, ledger[j], toks[..], owner, toks[..], owner');
      }
      hide Good;
      stray := Give(stray, cells, i + 1);
      owner := owner';
    }

    /** The table entry of a new portal. */
    method Install(p: Swp, i: nat)
      requires Valid() && i < MAX_PORTALS && !Live(i) && Owned(p, i) && Good(p, i, Nothing, toks[..], owner)
      modifies portalIdxMap, this`ledger
      ensures Valid() && portalIdxMap[..] == old(portalIdxMap[..])[i := p] && ledger == old(ledger)[i := Nothing]
    {
      hide Good, Owned, Strays;
      portalIdxMap[i] := p;
      ledger := ledger[i := Nothing];
    }

    /** The objects of a new portal. */
    ghost method Enroll(p: Swp, i: nat)
      requires Valid() && Objects(p) !! home.Keys + {this} && p.idx == i && p.bus.token == i + 1 && p.bus.toks == toks
      modifies this`home
      ensures Valid() && Owned(p, i) && home.Keys == old(home.Keys) + Objects(p)
    {
      hide Good, Give, Strays;
      home := Give(home, Objects(p), i);
    }

    ghost function Objects(p: Swp): set<object> {
      {p, p.bus, p.bus.ring, p.bus.free}
    }

    /** A portal in its power-on state. */
    method NewPortal(i: nat, before41: bool, piModulus: nat, initial: seq<Response>) returns (p: Swp)
      requires i < MAX_PORTALS && |initial| == (if before41 then 4 else 8)
      requires if before41 then |initial| < piModulus <= 16
               else forall s :: 0 <= s < |initial| ==> And(initial[s].verb, VALID_BIT) == 0
      ensures fresh(Objects(p)) && p.idx == i && p.bus.token == i + 1 && p.bus.toks == toks
      ensures Good(p, i, Nothing, toks[..], owner)
    {
      hide CountFinal, Slot, Polarity, And, Final, Bus.RingInv;
      var bus := new Bus(|initial|, piModulus, i + 1, initial, toks);
      p := new Swp(bus, i, before41);
    }

    /** qbman_swp_init: the dequeue side of the portal and its table entry. */
    method Init(i: nat, before41: bool, piModulus: nat, initial: seq<Response>)
      requires Valid() && i < MAX_PORTALS && |initial| == (if before41 then 4 else 8)
      requires if before41 then |initial| < piModulus <= 16
               else forall s :: 0 <= s < |initial| ==> And(initial[s].verb, VALID_BIT) == 0
      modifies portalIdxMap, this`stray, this`owner, this`home, this`ledger
      ensures Valid() && Live(i) && fresh(home.Keys - old(home.Keys)) && home.Keys >= old(home.Keys)
      ensures ledger == old(ledger)[i := Nothing]
    {
      hide Good, And, Strays, Owned;
      if Live(i) {
        Finish(i);
      }
      var p := NewPortal(i, before41, piModulus, initial);
      Enroll(p, i);
      Install(p, i);
    }

    // ---------------------------------------------------------------- calls on one portal

    /** qbman_swp_dqrr_next on portal `i`; whether it found the last response of a volatile dequeue. */
    method Next(i: nat) returns (last: bool, ghost wrote: bool)
      requires Valid() && Live(i)
      modifies home.Keys, this`ledger
      ensures Valid() && portalIdxMap[..] == old(portalIdxMap[..])
      ensures last ==> old(ledger)[i] == ToRing && !wrote
      ensures ledger == if last then old(ledger)[i := Nothing]
                        else if wrote then old(ledger)[i := Written(old(ledger)[i])]
                        else old(ledger)
    {
      hide Good, Strays, StraysElsewhere, Owned;
      ghost var w;
      last, w := NextAmong(i);
      wrote := !last && w != ledger[i];
      Note(i, w);
    }

    method NextAmong(i: nat) returns (last: bool, ghost w: Pending)
      requires Valid() && Live(i)
      modifies home.Keys
      ensures portalIdxMap[..] == old(portalIdxMap[..]) && AllBut(i, w)
      ensures if last then ledger[i] == ToRing && w == Nothing else w in {ledger[i], Written(ledger[i])}
    {
      hide CountFinal, Slot, Polarity, And, Final, Swp.Local, Bus.StorageOk, Stored, Matches;
      ghost var ts := toks[..];
      last, w := NextOf(portalIdxMap[i], i, ledger[i]);
      forall j: nat | Live(j) && j != i ensures Good(portalIdxMap[j], j, ledger[j], toks[..], owner) {
        GoodStays(portalIdxMap[j], j, ledger[j], ts, owner, toks[..], owner);
      }
    }

    /** The same seen from the portal alone. */
    method NextOf(p: Swp, ghost i: nat, ghost w: Pending) returns (last: bool, ghost w': Pending)
      requires p.bus.toks == toks && Good(p, i, w, toks[..], owner)
      modifies p`nextIdx, p`validBit, p`resetBug, p`busy, p`givenBack
      modifies p.bus`made, p.bus`owed, p.bus`due, p.bus`later, p.bus`produced, p.bus`next, p.bus`held
      modifies p.bus.ring, p.bus.free, toks
      ensures if last then w == ToRing && w' == Nothing else w' in {w, Written(w)}
      ensures Good(p, i, w', toks[..], owner)
      ensures p.bus.OthersKept(old(p.bus.due), old(p.bus.later), old(toks[..]))
    {
      hide CountFinal, Slot, Polarity, And, Final, Stored, Bus.RingInv, Bus.StorageOk, Swp.Cursor;
      var r := p.DqrrNextDirect();
      last := false;
      if r.Some? {
        ghost var e := p.bus.produced[old(p.bus.next)];
        StoredFacts(e, Polarity(old(p.bus.next), p.bus.n, true));
        last := Final(p.bus.ring[r.value]);
      }
      w' := if last then Nothing else if p.bus.due.None? then Written(w) else w;
    }

    method Consume(i: nat, slot: nat)
      requires Valid() && Live(i) && slot in portalIdxMap[i].bus.held
      modifies home.Keys
      ensures Valid() && portalIdxMap[..] == old(portalIdxMap[..])
      ensures old(portalIdxMap[i]).bus.held == old(portalIdxMap[i].bus.held) - {slot}
    {
      hide CountFinal, Slot, Polarity, And, Final, Bus.RingInv, Bus.StorageOk, Swp.Cursor, Swp.Token;
      portalIdxMap[i].Consume(slot);
    }

    /** A cell nobody has a use for: hardware owes it nothing, and it does not hold a result some portal waits for. */
    predicate Unclaimed(c: nat)
      requires Shape() && c < toks.Length
      reads this, home.Keys, portalIdxMap
    {
      && c !in stray
      && forall j: nat :: j < MAX_PORTALS && Live(j) ==>
           && c !in portalIdxMap[j].bus.Claims()
           && !(portalIdxMap[j].storage == Some(c) && toks[c] == portalIdxMap[j].idx + 1)
    }

    ghost predicate Free(c: nat)
      requires Shape()
      reads this, home.Keys, portalIdxMap
    {
      c !in stray && forall j: nat :: Live(j) ==> c !in portalIdxMap[j].Cells()
    }

    lemma UnclaimedIsFree(c: nat)
      requires Valid() && c < toks.Length && Unclaimed(c)
      ensures Free(c)
    {
      hide Swp.Local, Bus.StorageOk, Strays, StraysElsewhere;
      forall j: nat | Live(j) ensures c !in portalIdxMap[j].Cells() {
        var p := portalIdxMap[j];
        assert Good(p, j, ledger[j], toks[..], owner);
        if p.storage == Some(c) {
          WaiterToken(p, j, ledger[j], toks[..], owner, c);
        }
      }
    }

    /** What an accepted dequeue asks of the user: zeroed storage that nobody has a use for. */
    predicate MayPull(i: nat, d: PullDesc.Desc)
      requires Shape() && Live(i)
      reads this, home.Keys, portalIdxMap
    {
      portalIdxMap[i].busy == 1 ==>
        && PullDesc.Consistent(d) && portalIdxMap[i].bus.Storable(d.storage, d.numf + 1)
        && (d.storage.Some? ==> forall c :: d.storage.value <= c <= d.storage.value + d.numf ==> Unclaimed(c))
    }

    /** qbman_swp_pull on portal `i`. */
    method Pull(i: nat, d: PullDesc.Desc) returns (ok: bool)
      requires Valid() && Live(i) && MayPull(i, d)
      modifies home.Keys, this`owner, this`ledger
      ensures Valid() && portalIdxMap[..] == old(portalIdxMap[..])
      ensures ok <==> old(ledger)[i] == Nothing
      ensures ledger == if ok then old(ledger)[i := Issued(d.storage)] else old(ledger)
      ensures var p := old(portalIdxMap[i]);
              p.bus.commands == old(portalIdxMap[i].bus.commands) + if ok then [p.CommandOf(d)] else []
    {
      hide Good, PullDesc.Consistent, Unclaimed, Free, Strays, StraysElsewhere;
      if portalIdxMap[i].busy == 1 && d.storage.Some? {
        forall c | d.storage.value <= c <= d.storage.value + d.numf ensures Free(c) {
          UnclaimedIsFree(c);
        }
        Claim(i, DequeueBus.Cells(d.storage.value, d.storage.value + d.numf + 1));
      }
      ok := PullOwned(i, d);
    }

    /** The same once the storage is the portal's own. */
    method PullOwned(i: nat, d: PullDesc.Desc) returns (ok: bool)
      requires Valid() && Live(i)
      requires portalIdxMap[i].busy == 1 ==> PullDesc.Consistent(d) && portalIdxMap[i].bus.Storable(d.storage, d.numf + 1)
      requires portalIdxMap[i].busy == 1 && d.storage.Some? ==>
                 forall c :: d.storage.value <= c <= d.storage.value + d.numf ==> c in owner && owner[c] == i
      modifies home.Keys, this`ledger
      ensures Valid() && portalIdxMap[..] == old(portalIdxMap[..])
      ensures ok <==> old(ledger)[i] == Nothing
      ensures ledger == if ok then old(ledger)[i := Issued(d.storage)] else old(ledger)
      ensures var p := old(portalIdxMap[i]);
              p.bus.commands == old(portalIdxMap[i].bus.commands) + if ok then [p.CommandOf(d)] else []
    {
      hide Good, PullDesc.Consistent, Bus.Storable, Strays;
      ok := PullOf(portalIdxMap[i], i, ledger[i], d);
      hide Owned, StraysElsewhere;
      ghost var w := if ok then Issued(d.storage) else ledger[i];
      assert AllBut(i, w);
      Note(i, w);
    }

    /** Cells nobody has a use for become a portal's own. */
    ghost method Claim(i: nat, cells: set<nat>)
      requires Valid() && Live(i)
      requires forall c :: c in cells ==> Free(c)
      modifies this`owner
      ensures Valid() && forall c :: c in cells ==> c in owner && owner[c] == i
    {
      hide CountFinal, Slot, Polarity, And, Final, Swp.Local, Bus.StorageOk, Matches, Owned, Give, Swp.Cells;
      var owner' := Give(owner, cells, i);
      forall j: nat | Live(j) ensures Good(portalIdxMap[j], j, ledger[j], toks[..], owner') {
        GoodStays(portalIdxMap[j], j, ledger[j], toks[..], owner, toks[..], owner');
      }
      hide Good;
      owner := owner';
    }

    /** The same seen from the portal alone. */
    method PullOf(p: Swp, ghost i: nat, ghost w: Pending, d: PullDesc.Desc) returns (ok: bool)
      requires p.bus.toks == toks && Good(p, i, w, toks[..], owner)
      requires p.busy == 1 ==> PullDesc.Consistent(d) && p.bus.Storable(d.storage, d.numf + 1)
      requires p.busy == 1 && d.storage.Some? ==>
                 forall c :: d.storage.value <= c <= d.storage.value + d.numf ==> c in owner && owner[c] == i
      modifies p`busy, p`storage, p`vdqValid, p`pulls
      modifies p.bus`owed, p.bus`due, p.bus`later, p.bus`await, p.bus`vdqPolarity, p.bus`commands
      ensures (ok <==> w == Nothing) && Good(p, i, if ok then Issued(d.storage) else w, toks[..], owner)
      ensures p.bus.commands == old(p.bus.commands) + if ok then [p.CommandOf(d)] else []
    {
      hide CountFinal, Slot, Polarity, And, Xor, Final, Bus.RingInv, Bus.StorageOk, PullDesc.Consistent;
      ok := p.Pull(d);
    }

    // ---------------------------------------------------------------- calls on a cell

    /** The hook both polls share, on portal `i` and a cell whose token byte is set. */
    method Hook(i: nat, cell: nat)
      requires Valid() && Live(i) && cell < toks.Length && toks[cell] != 0
      modifies home.Keys, this`ledger
      ensures Valid() && portalIdxMap[..] == old(portalIdxMap[..]) && toks[..] == old(toks[..])
      ensures ledger == Released(old(ledger), i, cell)
    {
      hide Good, Strays;
      ghost var w := if Points(ledger[i], cell) then Nothing else ledger[i];
      HookOf(portalIdxMap[i], i, ledger[i], cell);
      hide Owned, StraysElsewhere;
      assert AllBut(i, w);
      Note(i, w);
    }

    /** The same seen from the portal alone. */
    method HookOf(p: Swp, ghost i: nat, ghost w: Pending, cell: nat)
      requires p.bus.toks == toks && Good(p, i, w, toks[..], owner) && cell < toks.Length && toks[cell] != 0
      modifies p`busy, p`storage, p`givenBack, p.bus`await, p.bus`lost
      ensures Good(p, i, if Points(w, cell) then Nothing else w, toks[..], owner)
    {
      hide CountFinal, Slot, Polarity, And, Final, Bus.RingInv, Bus.StorageOk, Swp.Cursor;
      p.Acknowledge(cell);
    }

    /**
     Clearing the token byte of a cell, which is all qbman_check_new_result does.  A portal waiting for the cell
     loses its token.
     */
    method CheckNew(cell: nat) returns (isNew: bool)
      requires Valid() && cell < toks.Length
      modifies home.Keys, this`ledger
      ensures Valid() && portalIdxMap[..] == old(portalIdxMap[..]) && toks[..] == old(toks[..])[cell := 0]
      ensures isNew <==> old(toks[cell]) != 0
      ensures ledger == if isNew then Swallowed(old(ledger), cell) else old(ledger)
    {
      hide Good, Strays, StraysElsewhere, Owned, Swallowed;
      isNew := toks[cell] != 0;
      if isNew {
        ghost var k := Waiter(cell);
        AtMostOne(ledger, k, cell);
        ClearAmong(cell, k);
        if k in ledger && Awaits(ledger[k], cell) {
          Note(k, Lost(cell));
        }
      }
    }

    /** The same before the user has taken note. */
    method ClearAmong(cell: nat, ghost k: nat)
      requires Valid() && cell < toks.Length && toks[cell] != 0
      requires k < MAX_PORTALS ==> Live(k) && Awaits(ledger[k], cell)
      requires forall j: nat :: Live(j) && Awaits(ledger[j], cell) ==> j == k
      modifies home.Keys
      ensures portalIdxMap[..] == old(portalIdxMap[..]) && toks[..] == old(toks[..])[cell := 0]
      ensures if k < MAX_PORTALS then AllBut(k, Lost(cell)) else Valid()
    {
      hide Good, Strays, StraysElsewhere;
      ghost var ts := toks[..];
      SpoilAmong(cell, k);
      toks[cell] := 0;
      assert toks[..] == ts[cell := 0];
    }

    /** What the user's note and hardware's make of it, before the byte is cleared. */
    ghost method SpoilAmong(cell: nat, k: nat)
      requires Valid() && cell < toks.Length && toks[cell] != 0
      requires k < MAX_PORTALS ==> Live(k) && Awaits(ledger[k], cell)
      requires forall j: nat :: Live(j) && Awaits(ledger[j], cell) ==> j == k
      modifies if Live(k) then {portalIdxMap[k].bus} else {}
      ensures Shape() && Strays() && StraysElsewhere() && (k < MAX_PORTALS ==> cell !in stray)
      ensures forall j: nat :: Live(j) ==>
                Good(portalIdxMap[j], j, if j == k then Lost(cell) else ledger[j], toks[..][cell := 0], owner)
    {
      hide CountFinal, Slot, Polarity, And, Final, Swp.Local, Bus.StorageOk;
      ghost var ts := toks[..];
      forall j: nat | Live(j) && j != k ensures Good(portalIdxMap[j], j, ledger[j], ts[cell := 0], owner) {
        GoodElsewhere(portalIdxMap[j], j, ledger[j], ts, owner, cell);
      }
      if k < MAX_PORTALS {
        assert cell in portalIdxMap[k].Cells() by { assert Good(portalIdxMap[k], k, ledger[k], ts, owner); }
        hide Matches;
        Spoil(portalIdxMap[k], k, ledger[k], ts, owner, cell);
      }
    }

    /** The one portal waiting for a cell, or none. */
    lemma Waiter(cell: nat) returns (k: nat)
      requires Valid()
      ensures k < MAX_PORTALS ==> Live(k) && Awaits(ledger[k], cell)
      ensures k >= MAX_PORTALS ==> k !in ledger
      ensures forall j: nat :: Live(j) && Awaits(ledger[j], cell) ==> j == k
      ensures forall j :: j in ledger && Awaits(ledger[j], cell) ==> j == k
    {
      hide Good;
      OneWaiter();
      if j: nat :| Live(j) && Awaits(ledger[j], cell) {
        k := j;
      } else {
        k := MAX_PORTALS;
      }
    }

    /** The awaited result is gone from storage. */
    ghost method Spoil(p: Swp, i: nat, w: Pending, ts: seq<nat>, owner: map<nat, nat>, cell: nat)
      requires Good(p, i, w, ts, owner) && Awaits(w, cell) && cell < |ts| && ts[cell] != 0
      modifies p.bus`lost
      ensures Good(p, i, Lost(cell), ts[cell := 0], owner)
    {
      hide CountFinal, Slot, Polarity, And, Final, Bus.RingInv, Swp.Cursor;
      p.bus.lost := true;
    }

    // ---------------------------------------------------------------- the storage polls

    /** A cell somebody waits for is set exactly when hardware has written it, with the token of who waits. */
    lemma CellExact(cell: nat)
      requires Valid() && cell < toks.Length
      ensures forall k :: k in ledger && Awaits(ledger[k], cell) ==>
                toks[cell] == if ledger[k].written then k + 1 else 0
      ensures forall k :: k in ledger && ledger[k] == Lost(cell) ==> toks[cell] != k + 1
    {
      hide Good;
      forall k | k in ledger && Points(ledger[k], cell)
        ensures Awaits(ledger[k], cell) ==> toks[cell] == if ledger[k].written then k + 1 else 0
        ensures ledger[k].Lost? ==> toks[cell] != k + 1
      {
        WaiterToken(portalIdxMap[k], k, ledger[k], toks[..], owner, cell);
      }
    }

    /**
     qbman_result_has_new_result on portal `i`: it gives that portal's token back if the driver's note names the
     cell, and any other portal waiting for the cell loses its token.
     */
    method HasNew(i: nat, cell: nat) returns (isNew: bool)
      requires Valid() && Live(i) && cell < toks.Length
      modifies home.Keys, this`ledger
      ensures Valid() && portalIdxMap[..] == old(portalIdxMap[..])
      ensures isNew <==> old(toks[cell]) != 0
      ensures ledger == if isNew then Swallowed(Released(old(ledger), i, cell), cell) else old(ledger)
      ensures isNew ==> forall k :: k != i && k in old(ledger) && Awaits(old(ledger)[k], cell) ==>
                k in ledger && ledger[k] == Lost(cell)
    {
      hide Good, Strays, StraysElsewhere, Owned;
      isNew := toks[cell] != 0;
      if isNew {
        Hook(i, cell);
        var cleared := CheckNew(cell);
      }
    }

    /**
     qbman_check_command_complete: the portal is looked up by the token in the cell.  It is the one that waits for
     the cell, if any does.  NULL is dereferenced if the token is that of a portal that is gone.
     */
    method CheckCommandComplete(cell: nat) returns (r: Answer)
      requires Valid() && cell < toks.Length
      modifies home.Keys, this`ledger
      ensures Valid() && portalIdxMap[..] == old(portalIdxMap[..]) && toks[..] == old(toks[..])
      ensures r == if toks[cell] == 0 then No else if Live(toks[cell] - 1) then Yes else Fault
      ensures ledger == if r == Yes then Settled(old(ledger), cell) else old(ledger)
    {
      hide Strays, StraysElsewhere, Owned, Good, Settled;
      if toks[cell] == 0 {
        return No;
      }
      var i := toks[cell] - 1;
      CellExact(cell);
      AtMostOne(ledger, i, cell);
      if !Live(i) {
        return Fault;
      }
      Hook(i, cell);
      r := Yes;
    }

    /**
     Why storage must be zeroed first.  A poll right after an accepted dequeue, with the command still in hardware's
     hands, reports completion exactly when the cell kept a token; it gives this portal's token back exactly when
     that was the portal's own.
     */
    method PullThenCheck(i: nat, d: PullDesc.Desc, cell: nat) returns (ok: bool, done: bool)
      requires Valid() && Live(i) && cell < toks.Length && PullDesc.Consistent(d) && d.storage == Some(cell)
      requires toks[cell] != 0 ==> Live(toks[cell] - 1)
      modifies home.Keys
      ensures ok <==> old(ledger)[i] == Nothing
      ensures ok ==> (done <==> old(toks[cell]) != 0) && old(portalIdxMap[i]).bus.due == Some(cell)
      ensures ok ==> old(portalIdxMap[i]).busy == if old(toks[cell]) == i + 1 then 1 else 0
    {
      hide PullDesc.Consistent, Xor, Strays, StraysElsewhere, Swp.Valid, Swp.Registers, Good, Bus.Storable;
      var p := portalIdxMap[i];
      done := false;
      Register(i);
      ok := p.Pull(d);
      if ok && toks[cell] != 0 {
        var s := portalIdxMap[toks[cell] - 1];
        s.Acknowledge(cell);
        done := true;
      }
    }

    /**
     The same with qbman_result_has_new_result, which does not look at whose token it is: any token left in the cell
     gives this portal's back.
     */
    method PullThenHasNew(i: nat, d: PullDesc.Desc, cell: nat) returns (ok: bool, isNew: bool)
      requires Valid() && Live(i) && cell < toks.Length && PullDesc.Consistent(d) && d.storage == Some(cell)
      modifies home.Keys
      ensures ok <==> old(ledger)[i] == Nothing
      ensures ok ==> (isNew <==> old(toks[cell]) != 0) && old(portalIdxMap[i]).bus.due == Some(cell)
      ensures ok ==> old(portalIdxMap[i]).busy == if old(toks[cell]) != 0 then 1 else 0
    {
      hide PullDesc.Consistent, Xor, Strays, StraysElsewhere, Swp.Valid, Swp.Registers, Good, Bus.Storable;
      var p := portalIdxMap[i];
      isNew := false;
      Register(i);
      ok := p.Pull(d);
      if ok && toks[cell] != 0 {
        toks[cell] := 0;
        p.Acknowledge(cell);
        isNew := true;
      }
    }

    // ---------------------------------------------------------------- the token can be had back

    /** Unless portal `i` is lost its token can be had back, and no other portal is affected. */
    method Recover(i: nat, last: Response)
      requires Valid() && Live(i) && !ledger[i].Lost? && Final(last) && last.verb < 128
      modifies home.Keys, this`ledger
      ensures Valid() && portalIdxMap[..] == old(portalIdxMap[..]) && ledger == old(ledger)[i := Nothing]
    {
      hide Good, Strays, StraysElsewhere, Owned, Final, Settled;
      Register(i);
      var cell := portalIdxMap[i].storage;
      if portalIdxMap[i].busy == 0 {
        Complete(i, last);
      }
      if cell.Some? {
        CompleteOwn(i, cell.value);
      }
    }

    /** Hardware finishing what it holds for portal `i`, and the user polling its ring. */
    method Complete(i: nat, last: Response)
      requires Valid() && Live(i) && Final(last) && last.verb < 128 && (ledger[i].ToRing? || ledger[i].ToCell?)
      modifies home.Keys, this`ledger
      ensures Valid() && portalIdxMap[..] == old(portalIdxMap[..])
      ensures ledger == old(ledger)[i := if old(ledger)[i].ToCell? then Written(old(ledger)[i]) else Nothing]
    {
      hide Good, Strays, StraysElsewhere, Owned, Final, AllBut;
      ghost var w := RecoverAmong(i, last);
      Note(i, w);
    }

    /** A poll of the cell a portal waits for, once hardware has written it. */
    method CompleteOwn(i: nat, cell: nat)
      requires Valid() && Live(i) && ledger[i] == ToCell(cell, true)
      modifies home.Keys, this`ledger
      ensures Valid() && portalIdxMap[..] == old(portalIdxMap[..]) && ledger == old(ledger)[i := Nothing]
    {
      hide Good, Strays, StraysElsewhere, Owned, Settled;
      OnlyWaiter(i, cell);
      CellExact(cell);
      AtMostOne(ledger, i, cell);
      var r := CheckCommandComplete(cell);
    }

    lemma Register(i: nat)
      requires Valid() && Live(i)
      ensures Matches(portalIdxMap[i], ledger[i]) && portalIdxMap[i].bus.toks == toks && portalIdxMap[i].Registers()
    {
      hide Swp.Cursor, Bus.RingInv, Bus.StorageOk, Matches;
      assert Good(portalIdxMap[i], i, ledger[i], toks[..], owner);
    }

    /** The same before the user has taken note. */
    method RecoverAmong(i: nat, last: Response) returns (ghost w: Pending)
      requires Valid() && Live(i) && Final(last) && last.verb < 128 && (ledger[i].ToRing? || ledger[i].ToCell?)
      modifies home.Keys
      ensures portalIdxMap[..] == old(portalIdxMap[..])
      ensures AllBut(i, w) && w == if ledger[i].ToCell? then Written(ledger[i]) else Nothing
    {
      hide CountFinal, Slot, Polarity, And, Final, Swp.Local, Bus.StorageOk, Matches;
      ghost var ts := toks[..];
      w := RecoverOf(portalIdxMap[i], i, ledger[i], last);
      forall j: nat | Live(j) && j != i ensures Good(portalIdxMap[j], j, ledger[j], toks[..], owner) {
        GoodStays(portalIdxMap[j], j, ledger[j], ts, owner, toks[..], owner);
      }
    }

    /** The same seen from the portal alone. */
    method RecoverOf(p: Swp, ghost i: nat, ghost w: Pending, last: Response) returns (ghost w': Pending)
      requires p.bus.toks == toks && Good(p, i, w, toks[..], owner)
      requires Final(last) && last.verb < 128 && (w.ToRing? || w.ToCell?)
      modifies p`nextIdx, p`validBit, p`resetBug, p`busy, p`givenBack, p.bus, p.bus.ring, p.bus.free, toks
      ensures w' == (if w.ToCell? then Written(w) else Nothing) && Good(p, i, w', toks[..], owner)
      ensures p.bus.OthersKept(old(p.bus.due), old(p.bus.later), old(toks[..]))
    {
      hide CountFinal, Slot, Polarity, And, Final, Bus.RingInv, Bus.StorageOk, Swp.Cursor;
      w' := if w.ToCell? then Written(w) else Nothing;
      if p.storage.None? {
        var seen := DequeueRuns.RecoverFromRing(p, DequeueRuns.Seen([], 0, 0, p.bus.held, false), last);
      } else if p.bus.due.Some? {
        p.bus.FirstResult();
      }
    }
  }
}
