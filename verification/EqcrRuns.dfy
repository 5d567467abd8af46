/**
 Whole runs of the enqueue side: batches against repeated single enqueues, and any script of calls against the
 commands hardware executes.
 */
module EqcrRuns {
  import opened Bits
  import opened RingIndex
  import opened EqcrBus
  import opened Eqcr

  // ------------------------------------------------------------------ batch equals repeated single

  /** One single enqueue that reads `eqcrCi` if it has to refresh its credit. */
  function Single(n: nat, r: Ring, eqcrCi: nat, cmd: Line): (r': Ring)
    requires RingSize(n) && |r.line| == n
    ensures |r'.line| == n
  {
    var f := Refreshed(n, r, eqcrCi);
    if f.available == 0 then f else Put(n, f, cmd)
  }

  function Singles(n: nat, r: Ring, eqcrCi: nat, cmds: seq<Line>): (r': Ring)
    requires RingSize(n) && |r.line| == n
    ensures |r'.line| == n
  {
    if cmds == [] then r
    else Single(n, Singles(n, r, eqcrCi, cmds[..|cmds| - 1]), eqcrCi, cmds[|cmds| - 1])
  }

  /**
     A batch that places `cmds` leaves the registers and every line as the same commands enqueued one by one with
     the same consumer-index reading.
   */
  lemma {:induction false} BatchIsSingles(n: nat, r: Ring, eqcrCi: nat, cmds: seq<Line>)
    requires RingSize(n) && |r.line| == n
    requires 0 < |cmds| <= Refreshed(n, r, eqcrCi).available
    ensures Singles(n, r, eqcrCi, cmds) == PutAll(n, Refreshed(n, r, eqcrCi), cmds)
  {
    var f, k := Refreshed(n, r, eqcrCi), |cmds| - 1;
    if k > 0 {
      BatchIsSingles(n, r, eqcrCi, cmds[..k]);
      PutAllCredit(n, f, cmds[..k]);
    } else {
      assert Singles(n, r, eqcrCi, cmds[..0]) == r && PutAll(n, f, cmds[..0]) == f;
    }
  }

  lemma {:induction false} PutAllCredit(n: nat, r: Ring, cmds: seq<Line>)
    requires RingSize(n) && |r.line| == n
    ensures PutAll(n, r, cmds).available == r.available - |cmds| && PutAll(n, r, cmds).ci == r.ci
  {
    if cmds != [] {
      PutAllCredit(n, r, cmds[..|cmds| - 1]);
    }
  }

  /** Once a refreshed batch has used up its credit, a further single with the same reading is refused. */
  lemma ExhaustedIsBusy(n: nat, r: Ring, eqcrCi: nat, cmds: seq<Line>, more: Line)
    requires RingSize(n) && |r.line| == n && r.available == 0
    requires |cmds| == Refreshed(n, r, eqcrCi).available
    ensures var r' := PutAll(n, Refreshed(n, r, eqcrCi), cmds); Single(n, r', eqcrCi, more) == r'
  {
    PutAllCredit(n, Refreshed(n, r, eqcrCi), cmds);
  }

  // ------------------------------------------------------------------ any script of calls

  datatype Request =
    | One(desc: Desc, fd: Frame)
    | Many(desc: Desc, fds: seq<Frame>, flags: Flags)
    | ManyDesc(descs: seq<Desc>, fds: seq<Frame>)

  predicate WellFormed(q: Request) {
    match q
    case One(_, _) => true
    case Many(_, fds, flags) => Covers(flags, |fds|)
    case ManyDesc(descs, fds) => |descs| == |fds|
  }

  /** The commands a request asks for. */
  function Asked(q: Request): seq<Line>
    requires WellFormed(q)
  {
    match q
    case One(desc, fd) => [desc + fd]
    case Many(desc, fds, flags) => Commands(seq(|fds|, i => desc), fds, flags)
    case ManyDesc(descs, fds) => Commands(descs, fds, NoFlags)
  }

  /** No DCA store can be seen half done: needed only where lines may become visible before their flush. */
  predicate Untorn(q: Request)
    requires WellFormed(q)
  {
    q.Many? ==> forall i :: 0 <= i < |q.fds| ==> TearFree(q.desc, q.flags, i)
  }

  /** The commands accepted by a run: of each request, as many as the call returned. */
  ghost function Accepted(script: seq<Request>, counts: seq<nat>): seq<Line>
    requires |counts| == |script|
    requires forall i :: 0 <= i < |script| ==> WellFormed(script[i]) && counts[i] <= |Asked(script[i])|
  {
    if script == [] then [] else
      var k := |script| - 1;
      Accepted(script[..k], counts[..k]) + Asked(script[k])[..counts[k]]
  }

  lemma OneMoreCall(script: seq<Request>, counts: seq<nat>, num: nat)
    requires |counts| < |script|
    requires forall i :: 0 <= i < |script| ==> WellFormed(script[i])
    requires forall i :: 0 <= i < |counts| ==> counts[i] <= |Asked(script[i])|
    requires num <= |Asked(script[|counts|])|
    ensures var k := |counts|;
            && (forall i :: 0 <= i <= k ==> (counts + [num])[i] <= |Asked(script[i])|)
            && Accepted(script[..k + 1], counts + [num])
               == Accepted(script[..k], counts) + Asked(script[k])[..num]
  {
    hide Asked, WellFormed;
    var k := |counts|;
    assert script[..k + 1][..k] == script[..k] && (counts + [num])[..k] == counts;
  }

  lemma NothingAccepted()
    ensures Accepted([], []) == []
  {
  }

  /**
     Any run: whatever calls software makes and however hardware interleaves with their stores, the commands
     hardware executed are, in order and complete, a prefix of those the calls accepted.
   */
  method Run(s: Swp, script: seq<Request>) returns (counts: seq<nat>)
    requires s.Valid()
    requires forall i :: 0 <= i < |script| ==> WellFormed(script[i])
    requires s.bus.mode.Direct? && s.bus.early ==> forall i :: 0 <= i < |script| ==> Untorn(script[i])
    modifies s, s.bus, s.bus.line, s.bus.seen
    ensures s.Valid() && |counts| == |script|
    ensures forall i :: 0 <= i < |script| ==> counts[i] <= |Asked(script[i])|
    ensures s.bus.log == old(s.bus.log) + Accepted(script, counts)
    ensures s.bus.consumed <= old(s.bus.log) + Accepted(script, counts)
  {
    hide Slot, Lap, And, Or, Xor, Polarity, HasValid, Commands, Asked, Accepted, TearFree;
    counts := [];
    NothingAccepted();
    assert script[..0] == [];
    for k := 0 to |script|
      invariant s.Valid() && |counts| == k
      invariant forall i :: 0 <= i < k ==> counts[i] <= |Asked(script[i])|
      invariant s.bus.log == old(s.bus.log) + Accepted(script[..k], counts)
    {
      var num := Call(s, script[k]);
      OneMoreCall(script, counts, num);
      counts := counts + [num];
    }
    assert script[..|script|] == script;
  }

  method Call(s: Swp, q: Request) returns (num: nat)
    requires s.Valid() && WellFormed(q) && (s.bus.mode.Direct? && s.bus.early ==> Untorn(q))
    modifies s, s.bus, s.bus.line, s.bus.seen
    ensures s.Valid() && num <= |Asked(q)| && s.bus.log == old(s.bus.log) + Asked(q)[..num]
    ensures num == Min(|Asked(q)|, s.bus.observed + s.bus.n - |old(s.bus.log)|)
    ensures s.bus.observed == if old(s.available) == 0 then old(s.bus.shown) else old(s.bus.observed)
    ensures |old(s.bus.log)| < old(s.bus.shown) + s.bus.n && Asked(q) != [] ==> num > 0
  {
    hide Slot, And, Polarity, HasValid, TearFree, PutAll, Put, Refreshed, Command, Bus.DirectInv, Bus.MemoryInv;
    ghost var eqcrCi;
    match q
    case One(desc, fd) =>
      var ok;
      ok, eqcrCi := s.EnqueueRingMode(desc, fd);
      num := if ok then 1 else 0;
    case Many(desc, fds, flags) =>
      num, eqcrCi := s.EnqueueMultiple(desc, fds, flags);
    case ManyDesc(descs, fds) =>
      num, eqcrCi := s.EnqueueMultipleDesc(descs, fds);
  }

  /** After any run, hardware left to itself executes exactly the accepted commands: none is lost. */
  method RunAndDrain(s: Swp, script: seq<Request>) returns (counts: seq<nat>)
    requires s.Valid()
    requires forall i :: 0 <= i < |script| ==> WellFormed(script[i])
    requires s.bus.mode.Direct? && s.bus.early ==> forall i :: 0 <= i < |script| ==> Untorn(script[i])
    modifies s, s.bus, s.bus.line, s.bus.seen
    ensures |counts| == |script|
    ensures forall i :: 0 <= i < |script| ==> counts[i] <= |Asked(script[i])|
    ensures s.bus.consumed == old(s.bus.log) + Accepted(script, counts)
  {
    counts := Run(s, script);
    TakeAndShowAll(s);
  }

  /**
     Credit comes back: once hardware has taken and shown everything, whatever the run before, a request for anything
     is accepted at least in part; and if it used up the credit, the next one is accepted up to a whole ring.
   */
  method CreditReturns(s: Swp, script: seq<Request>, q: Request, more: Request) returns (num: nat, rest: nat)
    requires s.Valid() && WellFormed(q) && WellFormed(more)
    requires forall i :: 0 <= i < |script| ==> WellFormed(script[i])
    requires s.bus.mode.Direct? && s.bus.early ==> forall i :: 0 <= i < |script| ==> Untorn(script[i])
    requires s.bus.mode.Direct? && s.bus.early ==> Untorn(q) && Untorn(more)
    modifies s, s.bus, s.bus.line, s.bus.seen
    ensures Asked(q) != [] ==> num > 0
    ensures num < |Asked(q)| ==> rest == Min(|Asked(more)|, s.bus.n)
  {
    hide Asked, WellFormed, Untorn, Slot, And, Polarity, Accepted, Bus.Inv;
    var counts := Run(s, script);
    TakeAndShowAll(s);
    num := Call(s, q);
    TakeAndShowAll(s);
    rest := Call(s, more);
  }

  /** Hardware left to itself. */
  method TakeAndShowAll(s: Swp)
    requires s.Valid()
    modifies s.bus`taken, s.bus`consumed, s.bus`shown
    ensures s.Valid() && s.bus.shown == |s.bus.log| && s.bus.consumed == s.bus.log
  {
    hide Slot, Bus.DirectInv, Bus.MemoryInv;
    s.bus.Drain();
    s.bus.Show(s.bus.taken);
  }

  /**
     Tear-freedom is needed: for any frame whose DCA store would change its line, a batch of that frame has a run,
     stopped between its two stores, in which hardware executed something else than what the batch is to accept.
   */
  method TornRun(s: Swp, desc: Desc, fd: Frame, flags: Flags)
    requires s.Valid() && s.bus.mode.Direct? && s.bus.early && s.available > 0
    requires Covers(flags, 1) && !TearFree(desc, flags, 0)
    modifies s.bus`taken, s.bus`consumed, s.bus`shown, s.bus`log, s.bus.seen, s.bus.line
    ensures s.bus.Inv() && s.bus.consumed == old(s.bus.log) + [desc + fd]
    ensures !(s.bus.consumed <= old(s.bus.log) + Asked(Many(desc, [fd], flags)))
  {
    hide Asked, Command, TearFree, And, Slot, Polarity, HasValid;
    FlagTears(desc, fd, flags);
    ghost var p := |s.bus.log|;
    MaskSlot(s.pi, s.bus.n);
    DoubleIndex(p, s.bus.n);
    var slot := And(s.pi, s.piCiMask / 2);
    s.PlaceOne(slot, desc, fd);
    s.bus.TakeUnpublished(slot);
    assert s.bus.consumed[p] == desc + fd;
  }

  lemma FlagTears(desc: Desc, fd: Frame, flags: Flags)
    requires Covers(flags, 1) && !TearFree(desc, flags, 0)
    ensures var asked := Asked(Many(desc, [fd], flags)); |asked| == 1 && asked[0] != desc + fd
  {
    TearFreeExact(desc, flags, 0);
    hide Flagged, TearFree;
    var cmd := Command(desc, fd, flags, 0);
    assert cmd[0] == Flagged(desc[0], flags, 0) && (desc + fd)[0] == desc[0];
    assert Asked(Many(desc, [fd], flags)) == [cmd];
  }

  /** The polarity software writes is tied to the lap bit of its producer index throughout. */
  lemma LapBitFixesPolarity(s: Swp)
    requires s.Valid()
    ensures s.piVb == VALID_BIT <==> (s.pi < s.bus.n) == s.bus.first
  {
    DoubleIndex(|s.bus.log|, s.bus.n);
  }
}
