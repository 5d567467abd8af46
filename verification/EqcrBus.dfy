/**
 The enqueue command ring as memory shared with hardware.  The bus owns the cachelines and plays the hardware
 agent: `Run` lets hardware take any number of steps and ends every processor access, so each method that uses
 the bus is verified for every interleaving of its stores with hardware.
 */
module EqcrBus {
  import opened Bits
  import opened RingIndex

  /** Sixteen 32-bit words: eight of enqueue descriptor, eight of frame descriptor. */
  type Line = l: seq<nat> | |l| == 16 witness seq(16, i => 0)

  /** Direct: hardware watches the valid bit of each line.  MemoryBacked: it follows the EQCR_PI register. */
  datatype Mode = Direct | MemoryBacked

  /** A command as it lies in the ring: its verb carries the lap's polarity. */
  function Encoded(cmd: Line, p: bool): Line {
    cmd[0 := Or(cmd[0], ValidBit(p))]
  }

  /** What hardware executes: the line without the valid bit. */
  function Stripped(l: Line): Line {
    if HasValid(l[0]) then l[0 := l[0] - VALID_BIT] else l
  }

  lemma StrippedEncoded(cmd: Line, p: bool)
    requires !HasValid(cmd[0])
    ensures HasValid(Encoded(cmd, p)[0]) == p && Stripped(Encoded(cmd, p)) == cmd
  {
    OrValid(cmd[0], p);
  }

  class Bus {
    const n: nat
    const mode: Mode
    /** Direct mode only: a dirty line may reach hardware before it is flushed (cache eviction). */
    const early: bool
    /** Polarity of lap 0. */
    const first: bool
    /** The lines as the processor stored them, and as hardware sees them in direct mode. */
    const line: array<Line>
    const seen: array<Line>
    /** The EQCR_PI register. */
    var piReg: nat
    /** Entries hardware has taken, and the commands it read from memory when it took them. */
    var taken: nat
    var consumed: seq<Line>

    /** The count the EQCR_CI register shows, and the one it showed when software last read it. */
    var shown: nat
    ghost var observed: nat

    /** Every command whose verb was written, and the number made visible. */
    ghost var log: seq<Line>
    ghost var published: nat

    /**
     A portal in its power-on state: every command before entry `start` is taken, and in direct mode no line
     carries the polarity hardware waits for.
     */
    constructor (n: nat, mode: Mode, early: bool, first: bool, start: nat, initial: seq<Line>)
      requires RingSize(n) && |initial| == n
      requires mode.Direct? ==> forall j: nat {:trigger Slot(j, n)} ::
                 start <= j < start + n ==> HasValid(initial[Slot(j, n)][0]) != Polarity(j, n, first)
      ensures Inv() && fresh(this) && fresh(line) && fresh(seen)
      ensures this.n == n && this.mode == mode && this.early == early && this.first == first
      ensures |log| == observed == shown == published == taken == start
      ensures And(piReg, 2 * n - 1) == Slot(start, 2 * n) && HasValid(piReg) == Polarity(start, n, first)
    {
      this.n, this.mode, this.early, this.first := n, mode, early, first;
      line := new Line[n](i requires 0 <= i < n => initial[i]);
      seen := new Line[n](i requires 0 <= i < n => initial[i]);
      piReg := PiWord(Slot(start, 2 * n), ValidBit(Polarity(start, n, first)));
      taken, shown, observed, published := start, start, start, start;
      log, consumed := seq(start, i => seq(16, w => 0)), seq(start, i => seq(16, w => 0));
      PiWordDecodes(Slot(start, 2 * n), Polarity(start, n, first), n);
      new;
      if mode.Direct? {
        forall j: nat | taken <= j < taken + n ensures Clear(j) {
          assert Slot(j, n) < n;
        }
      }
    }

    ghost predicate Matches(l: Line, j: nat)
      requires n > 0
    {
      HasValid(l[0]) == Polarity(j, n, first)
    }

    ghost predicate Holds(l: Line, j: nat)
      requires n > 0
      reads this`log
    {
      j < |log| && l == Encoded(log[j], Polarity(j, n, first)) && Matches(l, j)
    }

    ghost predicate Shape()
      reads this
    {
      && RingSize(n) && line.Length == seen.Length == n && line != seen
      && observed <= shown <= taken <= |log| <= observed + n
      && published <= |log|
      && (forall j :: 0 <= j < |log| ==> !HasValid(log[j][0]))
      && consumed == log[..taken]
    }

    /** The facts about one entry of the ring ahead of hardware, in direct mode. */
    ghost predicate Clear(j: nat)
      requires n > 0 && line.Length == seen.Length == n
      reads this`log, this`published, line, seen
    {
      && (Matches(seen[Slot(j, n)], j) ==> Holds(seen[Slot(j, n)], j) && Matches(line[Slot(j, n)], j))
      && (Matches(seen[Slot(j, n)], j) && !early ==> j < published)
      && (Matches(line[Slot(j, n)], j) ==> j < |log|)
      && (Matches(line[Slot(j, n)], j) && early ==> Holds(line[Slot(j, n)], j))
      && (j < published ==> Holds(seen[Slot(j, n)], j))
    }

    /** Direct mode: within the ring ahead of hardware, the polarity test finds complete commands only. */
    ghost predicate DirectInv()
      requires n > 0 && line.Length == seen.Length == n
      reads this, line, seen
    {
      && (!early ==> taken <= published)
      && (forall j: nat :: taken <= j < taken + n ==> Clear(j))
    }

    /** Memory-backed mode: everything up to the published producer index is complete. */
    ghost predicate MemoryInv()
      requires n > 0 && line.Length == n
      reads this, line
    {
      && taken <= published
      && And(piReg, 2 * n - 1) == Slot(published, 2 * n)
      && (forall j: nat {:trigger Slot(j, n)} :: taken <= j < published ==> Holds(line[Slot(j, n)], j))
    }

    ghost predicate Inv()
      reads this, line, seen
    {
      Shape() && (if mode.Direct? then DirectInv() else MemoryInv())
    }

    // ---------------------------------------------------------------- hardware

    /**
     Any number of hardware steps: consumption in ring order, showing any part of it in EQCR_CI and, in direct mode,
     evictions.
     */
    method Run()
      requires Inv()
      modifies this`taken, this`consumed, this`shown, seen
      ensures Inv() && taken >= old(taken) && shown >= old(shown)
    {
      var steps: nat := *;
      while steps > 0
        invariant Inv() && taken >= old(taken) && shown >= old(shown)
      {
        var kind: nat, k: nat := *, *;
        if kind == 0 && early && mode.Direct? && k < n {
          Evict(k);
        } else if kind == 1 && shown <= k <= taken {
          Show(k);
        } else {
          Consume();
        }
        steps := steps - 1;
      }
    }

    method Show(k: nat)
      requires Inv() && shown <= k <= taken
      modifies this`shown
      ensures Inv() && shown == k
    {
      shown := k;
    }

    method Evict(k: nat)
      requires Inv() && mode.Direct? && early && k < n
      modifies seen
      ensures Inv() && seen[..] == old(seen[..])[k := line[k]]
    {
      seen[k] := line[k];
      forall j: nat | taken <= j < taken + n ensures Clear(j) {
        assert old(Clear(j));
      }
    }

    /** Hardware's own test for a new entry at its position. */
    predicate Ready()
      requires Inv()
      reads this, line, seen
    {
      if mode.Direct? then HasValid(seen[Slot(taken, n)][0]) == Polarity(taken, n, first)
      else CycDiff(n, Slot(taken, 2 * n), And(piReg, 2 * n - 1)) != 0
    }

    /** What hardware reads when it takes that entry. */
    function Front(): Line
      requires Inv()
      reads this, line, seen
    {
      if mode.Direct? then seen[Slot(taken, n)] else line[Slot(taken, n)]
    }

    /** The test never fires on a stale or half-written line. */
    lemma ReadyIsComplete()
      requires Inv() && Ready()
      ensures Holds(Front(), taken) && (mode.MemoryBacked? || !early ==> taken < published)
    {
      if mode.MemoryBacked? { CycDiffExact(taken, published, n); } else { assert Clear(taken); }
    }

    /** Everything published is visible: hardware's test fires whenever a published command is left. */
    lemma PublishedIsReady()
      requires Inv() && taken < published
      ensures Ready()
    {
      if mode.MemoryBacked? { CycDiffExact(taken, published, n); } else { assert Clear(taken); }
    }

    /** Hardware left to itself takes every published command. */
    method Drain()
      requires Inv()
      modifies this`taken, this`consumed
      ensures Inv() && !Ready() && taken >= published
      ensures published == |log| ==> consumed == log
    {
      while Ready()
        invariant Inv()
        decreases |log| - taken
      {
        Consume();
      }
      if taken < published { PublishedIsReady(); }
    }

    /** A line visible before its flush is taken like any other. */
    method TakeUnpublished(s: nat)
      requires Inv() && mode.Direct? && early && published + 1 == |log| && s == Slot(published, n)
      requires Holds(line[s], published)
      modifies this`taken, this`consumed, seen
      ensures Inv() && consumed == log
    {
      hide Slot, Polarity, HasValid, DirectInv;
      ghost var p := published;
      Evict(s);
      assert seen[..][s] == seen[s] == line[s];
      Drain();
      if taken == p { assert false; }
    }

    /** How many entries from `j` on hardware's polarity test would accept. */
    ghost function PolarityBacklog(j: nat): nat
      requires Inv() && taken <= j <= taken + n
      reads this, line, seen
      decreases taken + n - j
    {
      if j < taken + n && Matches(seen[Slot(j, n)], j) then 1 + PolarityBacklog(j + 1) else 0
    }

    /** The backlog by slot polarity, and the backlog by producer index, are the true one. */
    lemma {:induction false} BacklogExact(j: nat)
      requires Inv() && published == |log| && taken <= j <= |log|
      ensures mode.Direct? ==> PolarityBacklog(j) == |log| - j
      ensures mode.MemoryBacked? ==> CycDiff(n, Slot(taken, 2 * n), And(piReg, 2 * n - 1)) == |log| - taken
      decreases |log| - j
    {
      if mode.MemoryBacked? {
        CycDiffExact(taken, published, n);
      } else {
        if j < taken + n { assert Clear(j); }
        if j < |log| { BacklogExact(j + 1); }
      }
    }

    method Consume()
      requires Inv()
      modifies this`taken, this`consumed
      ensures Inv() && old(taken) <= taken <= old(taken) + 1
      ensures taken > old(taken) <==> old(Ready())
    {
      if Ready() {
        ReadyIsComplete();
        StrippedEncoded(log[taken], Polarity(taken, n, first));
        if mode.Direct? { FreedSlot(); }
        consumed, taken := consumed + [Stripped(Front())], taken + 1;
        if mode.Direct? {
          forall j: nat | taken <= j < taken + n ensures Clear(j) {
            assert old(Clear(j));
          }
        }
      }
    }

    /** The slot of an entry that hardware can take carries the wrong polarity for the next lap. */
    lemma FreedSlot()
      requires Inv() && mode.Direct? && Ready()
      ensures Clear(taken + n)
    {
      assert Slot(taken + n, n) == Slot(taken, n) && Lap(taken + n, n) == 1 + Lap(taken, n);
      assert Clear(taken);
    }

    // ---------------------------------------------------------------- processor accesses

    /** One word of the body of a free line; `q` is the entry being prepared. */
    method StoreBody(s: nat, w: nat, v: nat, ghost q: nat)
      requires Inv() && |log| <= q < observed + n && s == Slot(q, n) && 1 <= w < 16
      modifies this`taken, this`consumed, this`shown, seen, line
      ensures Inv() && taken >= old(taken)
      ensures line[..] == old(line[..])[s := old(line[s])[w := v]]
    {
      line[s] := line[s][w := v];
      WindowOthers(taken, q, n);
      if mode.Direct? {
        forall j: nat | taken <= j < taken + n ensures Clear(j) {
          assert old(Clear(j));
        }
      }
      ghost var now := line[..];
      assert now == old(line[..])[s := old(line[s])[w := v]];
      Run();
    }

    /** The verb word: from here on the line carries the polarity of its entry, so the command is issued. */
    method StoreVerb(s: nat, v: nat, ghost cmd: Line)
      requires Inv() && |log| < observed + n && s == Slot(|log|, n) && !HasValid(cmd[0])
      requires HasValid(v) == Polarity(|log|, n, first)
      requires mode.Direct? && early ==> line[s][0 := v] == Encoded(cmd, Polarity(|log|, n, first))
      modifies this`taken, this`consumed, this`shown, this`log, seen, line
      ensures Inv() && taken >= old(taken) && log == old(log) + [cmd]
      ensures line[..] == old(line[..])[s := old(line[s])[0 := v]]
    {
      line[s] := line[s][0 := v];
      log := log + [cmd];
      WindowOthers(taken, |log| - 1, n);
      if mode.Direct? {
        forall j: nat | taken <= j < taken + n ensures Clear(j) {
          assert old(Clear(j));
        }
      }
      ghost var now := line[..];
      assert now == old(line[..])[s := old(line[s])[0 := v]];
      Run();
    }

    /** The consumption-acknowledgement byte, stored after the verb of the last issued command. */
    method StoreDca(s: nat, v: nat)
      requires Inv() && published < |log| && s == Slot(|log| - 1, n)
      requires HasValid(v) == Polarity(|log| - 1, n, first) == HasValid(line[s][0])
      requires mode.Direct? && early ==> v == line[s][0]
      modifies this`taken, this`consumed, this`shown, seen, line
      ensures Inv() && taken >= old(taken)
      ensures line[..] == old(line[..])[s := old(line[s])[0 := v]]
    {
      assert v == line[s][0] ==> line[s][0 := v] == line[s];
      line[s] := line[s][0 := v];
      if taken < |log| { WindowOthers(taken, |log| - 1, n); }
      if mode.Direct? {
        forall j: nat | taken <= j < taken + n ensures Clear(j) {
          assert old(Clear(j));
        }
      }
      ghost var now := line[..];
      assert now == old(line[..])[s := old(line[s])[0 := v]];
      Run();
    }

    /** Cache flush of a finished line: direct mode's publish point. */
    method Flush(s: nat)
      requires Inv() && mode.Direct? && published < |log| <= published + n && s == Slot(published, n)
      requires Holds(line[s], published)
      modifies this`taken, this`consumed, this`shown, this`published, seen
      ensures Inv() && taken >= old(taken) && published == old(published) + 1
    {
      seen[s] := line[s];
      assert Slot(published + n, n) == s && Lap(published + n, n) == 1 + Lap(published, n);
      if published >= taken { WindowOthers(taken, published, n); } else { WindowOthers(taken, published + n, n); }
      published := published + 1;
      forall j: nat | taken <= j < taken + n ensures Clear(j) {
        assert old(Clear(j));
      }
      Run();
    }

    /** Writing EQCR_PI: memory-backed mode's publish point. */
    method WritePi(v: nat)
      requires Inv() && mode.MemoryBacked?
      requires And(v, 2 * n - 1) == Slot(|log|, 2 * n)
      requires HasValid(v) == Polarity(|log|, n, first) && (v / 0x100) % 2 == 1
      requires forall j: nat {:trigger Slot(j, n)} :: published <= j < |log| ==> Holds(line[Slot(j, n)], j)
      modifies this`taken, this`consumed, this`shown, this`published, this`piReg, seen
      ensures Inv() && taken >= old(taken) && published == |log| && piReg == v
    {
      piReg, published := v, |log|;
      Run();
    }

    /**
     EQCR_CI: the count of taken entries modulo 2N, possibly out of date but never going back, with unrelated
     high bits.
     */
    method ReadCi() returns (v: nat)
      requires Inv()
      modifies this`taken, this`consumed, this`shown, this`observed, seen
      ensures Inv() && taken >= old(taken) && observed == old(shown) && shown >= old(shown)
      ensures And(v, 2 * n - 1) == Slot(observed, 2 * n)
    {
      observed := shown;
      var low := Slot(shown, 2 * n);
      assert And(low, 2 * n - 1) == low by { MaskSlot(low, n); }
      v :| And(v, 2 * n - 1) == low;
      Run();
    }
  }
}
