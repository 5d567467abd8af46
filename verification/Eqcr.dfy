/**
 The software side of the enqueue ring: the registers of `struct qbman_swp` and the six ring-mode enqueues,
 each proved against `Put`, the effect of one enqueue, and verified for every interleaving with hardware.
 */
module Eqcr {
  import opened Bits
  import opened RingIndex
  import opened EqcrBus

  /** An enqueue descriptor; its setters leave the valid bit clear (module EqDesc). */
  type Desc = d: seq<nat> | |d| == 8 && !HasValid(d[0]) witness seq(8, i => 0)
  type Frame = f: seq<nat> | |f| == 8 witness seq(8, i => 0)

  /** The flags argument of qbman_swp_enqueue_multiple; a null pointer is NoFlags. */
  datatype Flags = NoFlags | Flags(word: seq<nat>)

  const FLAG_DCA := 0x8000_0000
  const DCA_IDXMASK := 0x0f
  const DCA_EN := 0x80

  predicate Covers(flags: Flags, count: nat) {
    flags.Flags? ==> count <= |flags.word|
  }

  predicate WantsDca(flags: Flags, i: nat)
    requires Covers(flags, i + 1)
  {
    flags.Flags? && And(flags.word[i], FLAG_DCA) != 0
  }

  /** Storing to byte 1 of a word. */
  function WithByte1(w: nat, b: nat): nat {
    w % 256 + 256 * b + 65536 * (w / 65536)
  }

  function DcaByte(flag: nat): nat {
    Or(DCA_EN, And(flag, DCA_IDXMASK))
  }

  function Flagged(w: nat, flags: Flags, i: nat): nat
    requires Covers(flags, i + 1)
  {
    if WantsDca(flags, i) then WithByte1(w, DcaByte(flags.word[i])) else w
  }

  /** The command software asks for with frame `i` of a batch. */
  function Command(desc: Desc, fd: Frame, flags: Flags, i: nat): (cmd: Line)
    requires Covers(flags, i + 1)
  {
    (desc + fd)[0 := Flagged(desc[0], flags, i)]
  }

  function Commands(descs: seq<Desc>, fds: seq<Frame>, flags: Flags): (cmds: seq<Line>)
    requires |descs| == |fds| && Covers(flags, |fds|)
    ensures |cmds| == |fds|
  {
    seq(|fds|, i requires 0 <= i < |fds| => Command(descs[i], fds[i], flags, i))
  }

  lemma OneMoreCommand(descs: seq<Desc>, fds: seq<Frame>, flags: Flags, i: nat)
    requires i < |fds| == |descs| && Covers(flags, |fds|)
    ensures var cmds := Commands(descs, fds, flags);
            cmds[..i + 1] == cmds[..i] + [Command(descs[i], fds[i], flags, i)]
  {
  }

  lemma Byte1KeepsValid(w: nat, b: nat)
    ensures HasValid(WithByte1(w, b)) == HasValid(w)
  {
    LowByteValid(w % 256, b + 256 * (w / 65536));
    LowByteValid(w % 256, w / 256);
  }

  lemma LowByteParts(low: nat, high: nat)
    requires low < 256
    ensures var w := low + 256 * high; w % 256 == low && w / 256 == high && w / 65536 == high / 256
  {
    assert (low + 256 * high) / 65536 == (low + 256 * high) / 256 / 256;
  }

  /** The valid bit is in the low byte. */
  lemma LowByteValid(low: nat, high: nat)
    requires low < 256
    ensures HasValid(low + 256 * high) == (low >= 128)
  {
    assert (low + 256 * high) / 128 == low / 128 + 2 * high;
  }

  lemma Byte1AddsToValid(w: nat, b: nat)
    requires !HasValid(w)
    ensures WithByte1(w + VALID_BIT, b) == WithByte1(w, b) + VALID_BIT
  {
    var c, low := w / 256, w % 256;
    LowByteValid(low, c);
    LowByteParts(low, c);
    LowByteParts(low + VALID_BIT, c);
  }

  /** The DCA byte and the valid bit lie in different bytes, so the order of the two stores does not matter. */
  lemma DcaThenValid(w: nat, p: bool, flags: Flags, i: nat)
    requires !HasValid(w) && Covers(flags, i + 1)
    ensures !HasValid(Flagged(w, flags, i))
    ensures Flagged(Or(w, ValidBit(p)), flags, i) == Or(Flagged(w, flags, i), ValidBit(p))
    ensures HasValid(Flagged(Or(w, ValidBit(p)), flags, i)) == p
  {
    OrValid(w, p);
    if WantsDca(flags, i) {
      var b := DcaByte(flags.word[i]);
      Byte1KeepsValid(w, b);
      Byte1AddsToValid(w, b);
      OrValid(WithByte1(w, b), p);
    }
  }

  // ------------------------------------------------------------------ DCA flags and early visibility

  /** The DCA store leaves the line as the verb store made it. */
  predicate TearFree(desc: Desc, flags: Flags, i: nat)
    requires Covers(flags, i + 1)
  {
    WantsDca(flags, i) ==> (desc[0] / 256) % 256 == DcaByte(flags.word[i])
  }

  lemma DcaByteIsByte(flag: nat)
    ensures DcaByte(flag) == 128 + flag % 16
  {
    hide And, Or, Slot, Lap, Bit;
    Powers();
    AndLowMask(flag, 4);
    SlotAndLap(flag, 16);
    var low := And(flag, DCA_IDXMASK);
    assert low == flag % 16;
    OrCommutes(DCA_EN, low);
    BitSeven(low);
    OrPow2(low, 7);
  }

  lemma SameByte1(w: nat, b: nat)
    requires b < 256
    ensures WithByte1(w, b) == w <==> (w / 256) % 256 == b
  {
    var c := w / 256;
    assert w == 256 * c + w % 256 && w / 65536 == c / 256 && c == 256 * (c / 256) + c % 256;
  }

  /** Bit 31 of a frame's flags asks for DCA. */
  lemma FlagBit(flags: Flags, i: nat)
    requires Covers(flags, i + 1)
    ensures WantsDca(flags, i) <==> flags.Flags? && (flags.word[i] / 0x8000_0000) % 2 == 1
  {
    if flags.Flags? {
      hide And, Bit;
      SignBit();
      AndPow2(flags.word[i], 31);
      TopBit(flags.word[i]);
    }
  }

  /**
     Bit 31 of a frame's flags changes the DCA byte of its own command to enable and the DQRR index in the low four
     bits, and nothing else of the batch; any other frame's command is its descriptor and its frame as they are.
   */
  lemma FlagChangesOneByte(descs: seq<Desc>, fds: seq<Frame>, flags: Flags, i: nat)
    requires i < |fds| == |descs| && Covers(flags, |fds|)
    ensures var plain, cmd := descs[i] + fds[i], Commands(descs, fds, flags)[i];
            if flags.Flags? && (flags.word[i] / 0x8000_0000) % 2 == 1 then
              && cmd[1..] == plain[1..]
              && cmd[0] % 256 == plain[0] % 256 && cmd[0] / 65536 == plain[0] / 65536
              && (cmd[0] / 256) % 256 == 128 + flags.word[i] % 16
            else cmd == plain
  {
    FlagBit(flags, i);
    if WantsDca(flags, i) {
      DcaByteIsByte(flags.word[i]);
      BytesOf(descs[i][0], DcaByte(flags.word[i]));
    }
  }

  lemma BytesOf(w: nat, b: nat)
    requires b < 256
    ensures var v := WithByte1(w, b);
            v % 256 == w % 256 && (v / 256) % 256 == b && v / 65536 == w / 65536
  {
    var low, high := w % 256, w / 65536;
    assert WithByte1(w, b) == 256 * (256 * high + b) + low;
    assert WithByte1(w, b) / 256 == 256 * high + b;
    assert WithByte1(w, b) / 65536 == (256 * high + b) / 256;
  }

  lemma TearFreeExact(desc: Desc, flags: Flags, i: nat)
    requires Covers(flags, i + 1)
    ensures TearFree(desc, flags, i) <==> Flagged(desc[0], flags, i) == desc[0]
  {
    if WantsDca(flags, i) {
      DcaByteIsByte(flags.word[i]);
      SameByte1(desc[0], DcaByte(flags.word[i]));
    }
  }

  /**
     Between the verb store and the DCA store the line already passes hardware's test.  If it is visible then,
     hardware executes the command software asked for exactly when the frame is tear-free.
   */
  lemma VisibleBeforeDca(desc: Desc, fd: Frame, flags: Flags, i: nat, p: bool)
    requires Covers(flags, i + 1)
    ensures var l := Encoded(desc + fd, p);
            && HasValid(l[0]) == p
            && (Stripped(l) == Command(desc, fd, flags, i) <==> TearFree(desc, flags, i))
  {
    StrippedEncoded(desc + fd, p);
    TearFreeExact(desc, flags, i);
  }

  /** A cleared descriptor with a DCA flag tears. */
  lemma DcaTears(desc: Desc)
    requires desc[0] == 0
    ensures !TearFree(desc, Flags([FLAG_DCA]), 0)
  {
    DcaByteIsByte(FLAG_DCA);
    SignBit();
    AndPow2(FLAG_DCA, 31);
    OwnBit(31);
  }

  // ------------------------------------------------------------------ the effect of an enqueue

  /** What software and the ring hold: the eqcr registers and the sixteen-word lines. */
  datatype Ring = Ring(pi: nat, vb: nat, ci: nat, available: int, line: seq<Line>)

  /** The credit refresh: only when no credit is left, from the consumer index just read. */
  function Refreshed(n: nat, r: Ring, eqcrCi: nat): Ring
    requires n > 0
  {
    if r.available != 0 then r else
      var ci := And(eqcrCi, 2 * n - 1);
      r.(ci := ci, available := CycDiff(n, r.ci, ci))
  }

  /** One command placed at the producer index. */
  function Put(n: nat, r: Ring, cmd: Line): (r': Ring)
    requires RingSize(n) && |r.line| == n
    ensures |r'.line| == n
  {
    MaskSlot(r.pi, n);
    var pi := And(r.pi + 1, 2 * n - 1);
    Ring(pi, if And(pi, n - 1) == 0 then Xor(r.vb, VALID_BIT) else r.vb, r.ci, r.available - 1,
         r.line[And(r.pi, n - 1) := cmd[0 := Or(cmd[0], r.vb)]])
  }

  /** Commands placed one after the other. */
  function PutAll(n: nat, r: Ring, cmds: seq<Line>): (r': Ring)
    requires RingSize(n) && |r.line| == n
    ensures |r'.line| == n
  {
    if cmds == [] then r else Put(n, PutAll(n, r, cmds[..|cmds| - 1]), cmds[|cmds| - 1])
  }

  ghost predicate At(n: nat, first: bool, r: Ring, p: nat)
    requires n > 0
  {
    |r.line| == n && r.pi == Slot(p, 2 * n) && r.vb == ValidBit(Polarity(p, n, first))
  }

  lemma PutAt(n: nat, first: bool, r: Ring, cmd: Line, p: nat)
    requires RingSize(n) && At(n, first, r, p)
    ensures var r' := Put(n, r, cmd);
            && At(n, first, r', p + 1) && r'.available == r.available - 1 && r'.ci == r.ci
            && r'.line == r.line[Slot(p, n) := Encoded(cmd, Polarity(p, n, first))]
  {
    MaskSlot(r.pi, n);
    DoubleIndex(p, n);
    IndexStep(p, n, first);
  }

  /** Up to N commands land in their own slots and nowhere else. */
  lemma {:induction false} PutAllAt(n: nat, first: bool, r: Ring, cmds: seq<Line>, p: nat)
    requires RingSize(n) && At(n, first, r, p) && |cmds| <= n
    ensures var r' := PutAll(n, r, cmds);
            && At(n, first, r', p + |cmds|) && r'.available == r.available - |cmds| && r'.ci == r.ci
            && forall q: nat {:trigger Slot(q, n)} :: p <= q < p + n ==>
                 r'.line[Slot(q, n)] == if q < p + |cmds| then Encoded(cmds[q - p], Polarity(q, n, first))
                                        else r.line[Slot(q, n)]
  {
    if cmds != [] {
      var k := |cmds| - 1;
      PutAllAt(n, first, r, cmds[..k], p);
      PutAt(n, first, PutAll(n, r, cmds[..k]), cmds[k], p + k);
      WindowOthers(p, p + k, n);
    }
  }

  /** Two rings of lines that agree on N successive entries are equal. */
  lemma SameLines(a: seq<Line>, b: seq<Line>, n: nat, p: nat)
    requires n > 0 && |a| == |b| == n
    requires forall q: nat {:trigger Slot(q, n)} :: p <= q < p + n ==> a[Slot(q, n)] == b[Slot(q, n)]
    ensures a == b
  {
    forall s | 0 <= s < n ensures a[s] == b[s] {
      var q := WindowCovers(p, n, s);
    }
  }

  function Min(a: int, b: int): int {
    if a < b then a else b
  }

  class Swp {
    const bus: Bus
    var pi: nat
    var piVb: nat
    var piRingSize: nat
    var piCiMask: nat
    var ci: nat
    var available: int

    /** The EQCR part of qbman_swp_init on a portal in its power-on state. */
    constructor (bus: Bus, ringSize: nat)
      requires bus.Inv() && ringSize == bus.n
      requires |bus.log| == bus.observed == bus.published
      requires And(bus.piReg, 2 * bus.n - 1) == Slot(|bus.log|, 2 * bus.n)
      requires HasValid(bus.piReg) == Polarity(|bus.log|, bus.n, bus.first)
      modifies bus`taken, bus`consumed, bus`shown, bus`observed, bus.seen
      ensures Valid() && this.bus == bus && available == bus.n
    {
      var mask := PiCiMask(ringSize);
      var eqcrPi := bus.piReg;
      var eqcrCi := eqcrPi;
      if bus.mode.Direct? {
        eqcrCi := bus.ReadCi();
      }
      this.bus := bus;
      piRingSize := ringSize;
      piCiMask := mask;
      pi := And(eqcrPi, mask);
      piVb := And(eqcrPi, VALID_BIT);
      ci := And(eqcrCi, mask);
      available := InitialCredit(ringSize, And(eqcrPi, mask), And(eqcrCi, mask));
      AndValid(eqcrPi);
      InitialCreditExact(|bus.log|, |bus.log|, bus.n);
    }

    /** The registers describe `p` commands issued and the consumer count software last read. */
    ghost predicate Registers(p: nat)
      requires bus.n > 0
      reads this, bus`observed
    {
      && piRingSize == bus.n && piCiMask == 2 * bus.n - 1
      && pi == Slot(p, 2 * bus.n) && piVb == ValidBit(Polarity(p, bus.n, bus.first))
      && ci == Slot(bus.observed, 2 * bus.n)
    }

    /** Between calls: credit is exactly the free part of the ring software knows, and all commands are out. */
    ghost predicate Valid()
      reads this, bus, bus.line, bus.seen
    {
      && bus.Inv() && Registers(|bus.log|)
      && available == bus.n - (|bus.log| - bus.observed)
      && bus.published == |bus.log|
    }

    ghost function View(): Ring
      reads this, bus.line
    {
      Ring(pi, piVb, ci, available, bus.line[..])
    }

    /** The common prologue: reread the consumer index when credit is used up. */
    method Refresh(ghost before: Ring) returns (ok: bool, ghost eqcrCi: nat)
      requires Valid() && before == View()
      modifies this`ci, this`available, bus`taken, bus`consumed, bus`shown, bus`observed, bus.seen
      ensures Valid() && View() == Refreshed(bus.n, before, eqcrCi)
      ensures And(eqcrCi, 2 * bus.n - 1) == Slot(bus.observed, 2 * bus.n)
      ensures ok <==> available != 0
      ensures bus.observed == if old(available) == 0 then old(bus.shown) else old(bus.observed)
    {
      hide Slot, And, CycDiff, Polarity;
      eqcrCi := ci;
      if available == 0 {
        var eqcrOld := ci;
        ghost var seenBefore := bus.observed;
        var v := bus.ReadCi();
        eqcrCi := v;
        ci := And(v, piCiMask);
        available := CycDiff(piRingSize, eqcrOld, ci);
        CycDiffExact(seenBefore, bus.observed, bus.n);
      } else {
        MaskSlot(ci, bus.n);
        SlotShift(bus.observed, 0, 2 * bus.n);
      }
      ok := available != 0;
    }

    /** memcpy into the body of a line, word by word. */
    method CopyWords(s: nat, at: nat, src: seq<nat>, ghost q: nat)
      requires bus.Inv() && |bus.log| <= q < bus.observed + bus.n && s == Slot(q, bus.n)
      requires 1 <= at && at + |src| <= 16
      modifies bus`taken, bus`consumed, bus`shown, bus.seen, bus.line
      ensures bus.Inv()
      ensures bus.line[..] == old(bus.line[..])[s := old(bus.line[s])[..at] + src + old(bus.line[s])[at + |src|..]]
    {
      ghost var l := bus.line[s];
      assert l[..at] + src[..0] + l[at + 0..] == l;
      for i := 0 to |src|
        invariant bus.Inv()
        invariant bus.line[..] == old(bus.line[..])[s := l[..at] + src[..i] + l[at + i..]]
      {
        ghost var now := bus.line[..];
        assert now[s] == bus.line[s];
        bus.StoreBody(s, at + i, src[i], q);
        assert (l[..at] + src[..i] + l[at + i..])[at + i := src[i]] == l[..at] + src[..i + 1] + l[at + i + 1..];
      }
      assert src[..|src|] == src;
    }

    /** Both copies of an enqueue: the whole line but its verb word. */
    method FillLine(s: nat, desc: Desc, fd: Frame, ghost q: nat)
      requires bus.Inv() && |bus.log| <= q < bus.observed + bus.n && s == Slot(q, bus.n)
      modifies bus`taken, bus`consumed, bus`shown, bus.seen, bus.line
      ensures bus.Inv()
      ensures bus.line[..] == old(bus.line[..])[s := (desc + fd)[0 := old(bus.line[s])[0]]]
    {
      ghost var l := bus.line[s];
      CopyWords(s, 1, desc[1..], q);
      ghost var m := l[..1] + desc[1..] + l[8..];
      assert bus.line[..][s] == m;
      CopyWords(s, 8, fd, q);
      assert m[..8] + fd + m[16..] == (desc + fd)[0 := l[0]];
    }

    /** Body, then verb, of the command at the producer index. */
    method PlaceOne(s: nat, desc: Desc, fd: Frame)
      requires Valid() && available > 0 && s == Slot(|bus.log|, bus.n)
      modifies bus`taken, bus`consumed, bus`shown, bus`log, bus.seen, bus.line
      ensures bus.Inv() && bus.log == old(bus.log) + [desc + fd]
      ensures var p := |old(bus.log)|;
              && bus.line[..] == old(bus.line[..])[s := Encoded(desc + fd, Polarity(p, bus.n, bus.first))]
              && bus.Holds(bus.line[s], p)
    {
      ghost var p := |bus.log|;
      OrValid(desc[0], Polarity(p, bus.n, bus.first));
      ghost var l := bus.line[..];
      FillLine(s, desc, fd, p);
      ghost var body := (desc + fd)[0 := l[s][0]];
      assert bus.line[..][s] == bus.line[s] == body;
      var v := Or(desc[0], piVb);
      assert body[0 := v] == (desc + fd)[0 := v];
      bus.StoreVerb(s, v, desc + fd);
      assert l[s := body][s := body[0 := v]] == l[s := body[0 := v]];
      assert bus.line[..][s] == bus.line[s];
    }

    /** The producer registers after one command. */
    method Advance(ghost p: nat)
      requires RingSize(bus.n) && Registers(p)
      modifies this`pi, this`piVb, this`available
      ensures Registers(p + 1) && available == old(available) - 1
    {
      IndexStep(p, bus.n, bus.first);
      MaskSlot(pi, bus.n);
      pi := And(pi + 1, piCiMask);
      available := available - 1;
      if And(pi, piCiMask / 2) == 0 {
        piVb := Xor(piVb, VALID_BIT);
      }
    }

    /** A single enqueue once credit is there: fill, set the verb, publish, advance. */
    method IssueOne(desc: Desc, fd: Frame)
      requires Valid() && available > 0
      modifies this`pi, this`piVb, this`available, bus, bus.line, bus.seen
      ensures Valid() && bus.log == old(bus.log) + [desc + fd] && bus.observed == old(bus.observed)
      ensures View() == Put(bus.n, old(View()), desc + fd)
    {
      hide Bus.DirectInv, Bus.MemoryInv, Slot, Lap, And, Or, Xor, Polarity, HasValid, Put;
      ghost var r, p := View(), |bus.log|;
      PutAt(bus.n, bus.first, r, desc + fd, p);
      var s := And(pi, piCiMask / 2);
      MaskSlot(pi, bus.n);
      DoubleIndex(p, bus.n);
      PlaceOne(s, desc, fd);
      if bus.mode.Direct? {
        bus.Flush(s);
        Advance(p);
      } else {
        Advance(p);
        PiWordDecodes(pi, Polarity(p + 1, bus.n, bus.first), bus.n);
        bus.WritePi(PiWord(pi, piVb));
      }
    }

    /** qbman_swp_enqueue_ring_mode_direct and _mem_back; false is -EBUSY. */
    method EnqueueRingMode(desc: Desc, fd: Frame) returns (ok: bool, ghost eqcrCi: nat)
      requires Valid()
      modifies this, bus, bus.line, bus.seen
      ensures Valid()
      ensures ok <==> |old(bus.log)| < bus.observed + bus.n
      ensures bus.log == old(bus.log) + if ok then [desc + fd] else []
      ensures var r := Refreshed(bus.n, old(View()), eqcrCi);
              View() == if ok then Put(bus.n, r, desc + fd) else r
      ensures And(eqcrCi, 2 * bus.n - 1) == Slot(bus.observed, 2 * bus.n)
      ensures bus.observed == if old(available) == 0 then old(bus.shown) else old(bus.observed)
    {
      ok, eqcrCi := Refresh(View());
      if ok {
        IssueOne(desc, fd);
      }
    }

    // ---------------------------------------------------------------- batches, in stages

    /** The body of a line is that of the command; its verb word is still the old one. */
    ghost predicate Filled(l: Line, desc: Desc, fd: Frame) {
      l[1..] == (desc + fd)[1..]
    }

    /** First loop: the bodies. */
    method FillBodies(descs: seq<Desc>, fds: seq<Frame>, count: nat)
      requires bus.Inv() && Registers(|bus.log|) && |bus.log| + count <= bus.observed + bus.n
      requires count <= |fds| == |descs|
      modifies bus`taken, bus`consumed, bus`shown, bus.seen, bus.line
      ensures bus.Inv()
      ensures var p := |bus.log|; forall q: nat {:trigger Slot(q, bus.n)} :: p <= q < p + bus.n ==>
                && bus.line[Slot(q, bus.n)][0] == old(bus.line[Slot(q, bus.n)][0])
                && if q < p + count then Filled(bus.line[Slot(q, bus.n)], descs[q - p], fds[q - p])
                   else bus.line[Slot(q, bus.n)] == old(bus.line[Slot(q, bus.n)])
    {
      hide Bus.DirectInv, Bus.MemoryInv, Slot, Lap, And, Or, Xor, Polarity, HasValid;
      ghost var p := |bus.log|;
      var eqcrPi := pi;
      for i := 0 to count
        invariant bus.Inv() && eqcrPi == pi + i
        invariant forall q: nat {:trigger Slot(q, bus.n)} :: p <= q < p + bus.n ==>
                    && bus.line[Slot(q, bus.n)][0] == old(bus.line[Slot(q, bus.n)][0])
                    && if q < p + i then Filled(bus.line[Slot(q, bus.n)], descs[q - p], fds[q - p])
                       else bus.line[Slot(q, bus.n)] == old(bus.line[Slot(q, bus.n)])
      {
        var s := And(eqcrPi, piCiMask / 2);
        BatchSlot(p, i, bus.n);
        WindowOthers(p, p + i, bus.n);
        ghost var before := bus.line[..];
        FillLine(s, descs[i], fds[i], p + i);
        ghost var after := bus.line[..];
        forall q: nat | p <= q < p + bus.n
          ensures q != p + i ==> bus.line[Slot(q, bus.n)] == before[Slot(q, bus.n)]
        {
          assert bus.line[Slot(q, bus.n)] == after[Slot(q, bus.n)];
        }
        assert bus.line[s] == after[s];
        eqcrPi := eqcrPi + 1;
      }
    }

    /** A verb, then possibly the DCA byte, for the entry at the producer count. */
    method WriteVerb(s: nat, desc: Desc, fd: Frame, flags: Flags, i: nat)
      requires bus.Inv() && bus.published <= |bus.log| < bus.observed + bus.n && s == Slot(|bus.log|, bus.n)
      requires piVb == ValidBit(Polarity(|bus.log|, bus.n, bus.first))
      requires Covers(flags, i + 1) && Filled(bus.line[s], desc, fd)
      requires bus.mode.Direct? && bus.early ==> TearFree(desc, flags, i)
      modifies bus`taken, bus`consumed, bus`shown, bus`log, bus.seen, bus.line
      ensures bus.Inv() && bus.log == old(bus.log) + [Command(desc, fd, flags, i)]
      ensures var p := |old(bus.log)|;
              && bus.line[..] == old(bus.line[..])[s := Encoded(bus.log[p], Polarity(p, bus.n, bus.first))]
              && bus.Holds(bus.line[s], p)
    {
      hide Bus.DirectInv, Bus.MemoryInv, Slot, Lap, And, Or, Xor, Polarity, HasValid, WithByte1, DcaByte;
      ghost var p, l := |bus.log|, bus.line[..];
      ghost var cmd := Command(desc, fd, flags, i);
      DcaThenValid(desc[0], Polarity(p, bus.n, bus.first), flags, i);
      OrValid(desc[0], Polarity(p, bus.n, bus.first));
      TearFreeExact(desc, flags, i);
      var v := Or(desc[0], piVb);
      assert l[s][0 := v] == (desc + fd)[0 := v] by { assert l[s] == [l[s][0]] + l[s][1..]; }
      assert (desc + fd)[0 := Flagged(v, flags, i)] == Encoded(cmd, Polarity(p, bus.n, bus.first));
      bus.StoreVerb(s, v, cmd);
      assert bus.line[..][s] == bus.line[s] == (desc + fd)[0 := v];
      if WantsDca(flags, i) {
        bus.StoreDca(s, WithByte1(bus.line[s][0], DcaByte(flags.word[i])));
        assert bus.line[..][s] == bus.line[s];
      }
      assert bus.line[s] == Encoded(cmd, Polarity(p, bus.n, bus.first));
      assert bus.line[..] == l[s := bus.line[s]];
    }

    /** From entry `p` on, `i` lines hold their commands and the others are those of `before`. */
    ghost predicate Verbed(before: seq<Line>, p: nat, i: nat)
      requires bus.n > 0 && |before| == bus.line.Length == bus.n
      reads bus`log, bus.line
    {
      forall q: nat {:trigger Slot(q, bus.n)} :: p <= q < p + bus.n ==>
        if q < p + i then bus.Holds(bus.line[Slot(q, bus.n)], q)
        else bus.line[Slot(q, bus.n)] == before[Slot(q, bus.n)]
    }

    /** One round of the second loop. */
    method WriteVerbOf(s: nat, descs: seq<Desc>, fds: seq<Frame>, flags: Flags, i: nat, ghost before: seq<Line>,
                       ghost p: nat)
      requires bus.Inv() && bus.published == p && |bus.log| == p + i && p + i < bus.observed + bus.n
      requires s == Slot(p + i, bus.n) && piVb == ValidBit(Polarity(p + i, bus.n, bus.first))
      requires i < |fds| == |descs| && Covers(flags, |fds|) && i < bus.n
      requires bus.mode.Direct? && bus.early ==> TearFree(descs[i], flags, i)
      requires |before| == bus.n && Verbed(before, p, i) && Filled(before[s], descs[i], fds[i])
      modifies bus`taken, bus`consumed, bus`shown, bus`log, bus.seen, bus.line
      ensures bus.Inv() && Verbed(before, p, i + 1)
      ensures bus.log == old(bus.log) + [Command(descs[i], fds[i], flags, i)]
    {
      hide Bus.DirectInv, Bus.MemoryInv, Slot, Lap, And, Or, Xor, Polarity, HasValid, Command, Commands;
      WindowOthers(p, p + i, bus.n);
      ghost var lines := bus.line[..];
      WriteVerb(s, descs[i], fds[i], flags, i);
      ghost var after := bus.line[..];
      forall q: nat | p <= q < p + bus.n
        ensures q != p + i ==> bus.line[Slot(q, bus.n)] == lines[Slot(q, bus.n)]
      {
        assert bus.line[Slot(q, bus.n)] == after[Slot(q, bus.n)];
      }
    }

    /** Second loop: the verbs. */
    method WriteVerbs(descs: seq<Desc>, fds: seq<Frame>, flags: Flags, count: nat)
      requires bus.Inv() && Registers(|bus.log|) && |bus.log| + count <= bus.observed + bus.n
      requires bus.published == |bus.log| && count <= |fds| == |descs| && Covers(flags, |fds|)
      requires bus.mode.Direct? && bus.early ==> forall i :: 0 <= i < count ==> TearFree(descs[i], flags, i)
      requires var p := |bus.log|; forall q: nat {:trigger Slot(q, bus.n)} :: p <= q < p + count ==>
                 Filled(bus.line[Slot(q, bus.n)], descs[q - p], fds[q - p])
      modifies this`piVb, bus`taken, bus`consumed, bus`shown, bus`log, bus.seen, bus.line
      ensures bus.Inv() && bus.log == old(bus.log) + Commands(descs, fds, flags)[..count]
      ensures piVb == ValidBit(Polarity(|bus.log|, bus.n, bus.first))
      ensures Verbed(old(bus.line[..]), |old(bus.log)|, count)
    {
      hide Bus.DirectInv, Bus.MemoryInv, Slot, Lap, And, Or, Xor, Polarity, HasValid, Command, Commands;
      ghost var p, before := |bus.log|, bus.line[..];
      assert Verbed(before, p, 0);
      hide Verbed;
      var eqcrPi := pi;
      for i := 0 to count
        invariant bus.Inv() && eqcrPi == pi + i && Verbed(before, p, i)
        invariant bus.log == old(bus.log) + Commands(descs, fds, flags)[..i]
        invariant piVb == ValidBit(Polarity(p + i, bus.n, bus.first))
      {
        BatchSlot(p, i, bus.n);
        WriteVerbOf(And(eqcrPi, piCiMask / 2), descs, fds, flags, i, before, p);
        OneMoreCommand(descs, fds, flags, i);
        BatchStep(p, i, bus.n, bus.first);
        eqcrPi := eqcrPi + 1;
        if And(eqcrPi, piCiMask / 2) == 0 {
          piVb := Xor(piVb, VALID_BIT);
        }
      }
    }

    /** Third loop, direct mode: flush every line. */
    method FlushAll(count: nat, ghost p: nat)
      requires bus.Inv() && bus.mode.Direct? && pi == Slot(p, 2 * bus.n) && piCiMask == 2 * bus.n - 1
      requires bus.published == p && |bus.log| == p + count && count <= bus.n
      requires forall q: nat {:trigger Slot(q, bus.n)} :: p <= q < p + count ==>
                 bus.Holds(bus.line[Slot(q, bus.n)], q)
      modifies bus`taken, bus`consumed, bus`shown, bus`published, bus.seen
      ensures bus.Inv() && bus.published == |bus.log|
    {
      hide Bus.DirectInv, Bus.MemoryInv, Slot, Lap, And, Or, Xor, Polarity, HasValid;
      var eqcrPi := pi;
      for i := 0 to count
        invariant bus.Inv() && eqcrPi == pi + i && bus.published == p + i
      {
        BatchSlot(p, i, bus.n);
        bus.Flush(And(eqcrPi, piCiMask / 2));
        eqcrPi := eqcrPi + 1;
      }
    }

    /** Last stage: make the batch visible, by flushes or by the producer index, and move the index. */
    method PublishBatch(count: nat, ghost p: nat)
      requires bus.Inv() && pi == Slot(p, 2 * bus.n) && piCiMask == 2 * bus.n - 1
      requires bus.published == p && |bus.log| == p + count && count <= bus.n
      requires piVb == ValidBit(Polarity(p + count, bus.n, bus.first))
      requires forall q: nat {:trigger Slot(q, bus.n)} :: p <= q < p + count ==>
                 bus.Holds(bus.line[Slot(q, bus.n)], q)
      modifies this`pi, bus`taken, bus`consumed, bus`shown, bus`published, bus`piReg, bus.seen
      ensures bus.Inv() && bus.published == |bus.log| && pi == Slot(p + count, 2 * bus.n)
    {
      hide Bus.DirectInv, Bus.MemoryInv, Slot, Lap, And, Or, Xor, Polarity, HasValid;
      var eqcrPi := pi + count;
      BatchSlot(p, count, bus.n);
      if bus.mode.Direct? {
        FlushAll(count, p);
        pi := And(eqcrPi, piCiMask);
      } else {
        pi := And(eqcrPi, piCiMask);
        PiWordDecodes(pi, Polarity(p + count, bus.n, bus.first), bus.n);
        bus.WritePi(PiWord(pi, piVb));
      }
    }

    /** Bodies, verbs, publication: the part the four batch enqueues share once `count` is settled. */
    method IssueBatch(descs: seq<Desc>, fds: seq<Frame>, flags: Flags, count: nat)
      requires Valid() && count <= available && count <= |fds| == |descs| && Covers(flags, |fds|)
      requires bus.mode.Direct? && bus.early ==> forall i :: 0 <= i < count ==> TearFree(descs[i], flags, i)
      modifies this`pi, this`piVb, this`available, bus, bus.line, bus.seen
      ensures Valid() && bus.observed == old(bus.observed)
      ensures bus.log == old(bus.log) + Commands(descs, fds, flags)[..count]
      ensures View() == PutAll(bus.n, old(View()), Commands(descs, fds, flags)[..count])
    {
      hide Bus.DirectInv, Bus.MemoryInv, Slot, Lap, And, Or, Xor, Polarity, HasValid, Command, Commands, PutAll;
      ghost var r, p, cmds := View(), |bus.log|, Commands(descs, fds, flags)[..count];
      PutAllAt(bus.n, bus.first, r, cmds, p);
      available := available - count;
      FillBodies(descs, fds, count);
      WriteVerbs(descs, fds, flags, count);
      PublishBatch(count, p);
      SameLines(bus.line[..], PutAll(bus.n, r, cmds).line, bus.n, p);
    }

    /** qbman_swp_enqueue_multiple_direct and _mem_back. */
    method EnqueueMultiple(desc: Desc, fds: seq<Frame>, flags: Flags) returns (num: nat, ghost eqcrCi: nat)
      requires Valid() && Covers(flags, |fds|)
      requires bus.mode.Direct? && bus.early ==> forall i :: 0 <= i < |fds| ==> TearFree(desc, flags, i)
      modifies this, bus, bus.line, bus.seen
      ensures Valid()
      ensures num == Min(|fds|, bus.observed + bus.n - |old(bus.log)|)
      ensures var cmds := Commands(seq(|fds|, i => desc), fds, flags)[..num];
              && bus.log == old(bus.log) + cmds
              && View() == PutAll(bus.n, Refreshed(bus.n, old(View()), eqcrCi), cmds)
      ensures And(eqcrCi, 2 * bus.n - 1) == Slot(bus.observed, 2 * bus.n)
      ensures bus.observed == if old(available) == 0 then old(bus.shown) else old(bus.observed)
    {
      var ok;
      ok, eqcrCi := Refresh(View());
      num := 0;
      if ok {
        num := if available < |fds| then available else |fds|;
        IssueBatch(seq(|fds|, i => desc), fds, flags, num);
      }
    }

    /** qbman_swp_enqueue_multiple_desc_direct and _mem_back. */
    method EnqueueMultipleDesc(descs: seq<Desc>, fds: seq<Frame>) returns (num: nat, ghost eqcrCi: nat)
      requires Valid() && |descs| == |fds|
      modifies this, bus, bus.line, bus.seen
      ensures Valid()
      ensures num == Min(|fds|, bus.observed + bus.n - |old(bus.log)|)
      ensures var cmds := Commands(descs, fds, NoFlags)[..num];
              && bus.log == old(bus.log) + cmds
              && View() == PutAll(bus.n, Refreshed(bus.n, old(View()), eqcrCi), cmds)
      ensures And(eqcrCi, 2 * bus.n - 1) == Slot(bus.observed, 2 * bus.n)
      ensures bus.observed == if old(available) == 0 then old(bus.shown) else old(bus.observed)
    {
      var ok;
      ok, eqcrCi := Refresh(View());
      num := 0;
      if ok {
        num := if available < |fds| then available else |fds|;
        IssueBatch(descs, fds, NoFlags, num);
      }
    }
  }
}
