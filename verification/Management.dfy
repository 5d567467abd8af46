/**
 Management commands in memory-backed mode: one command in flight, answered through the response memory, told
 apart from the previous answer by an alternating valid bit.
 */
module Management {
  import opened Bits
  import opened Options

  /** The command and response memory, and the hardware that answers. */
  class Bus {
    const cr: array<nat>
    const rr: array<nat>
    /** The read trigger was written and the command is not answered yet. */
    var triggered: bool
    /** How often software has read the first response word. */
    ghost var polls: nat
    /** The commands hardware has read and answered, and its answers. */
    var executed: seq<seq<nat>>
    var answers: seq<seq<nat>>

    ghost predicate Shape()
      reads {}
    {
      cr.Length == rr.Length == 16 && cr != rr
    }

    constructor ()
      ensures Shape() && fresh(cr) && fresh(rr) && !triggered && executed == answers == [] && polls == 0
      ensures forall w :: 0 <= w < 16 ==> rr[w] == 0
    {
      cr := new nat[16](w => 0);
      rr := new nat[16](w => 0);
      triggered, executed, answers, polls := false, [], [], 0;
    }

    /** What hardware may have done since the state given: nothing without a trigger, else perhaps one answer. */
    ghost predicate After(was: bool, executed0: seq<seq<nat>>, answers0: seq<seq<nat>>, rr0: seq<nat>)
      requires Shape() && |rr0| == 16
      reads this, cr, rr
    {
      if !was then
        !triggered && executed == executed0 && answers == answers0 && rr[..] == rr0
      else if triggered then
        executed == executed0 && answers == answers0 && (rr[0] == rr0[0] || rr[0] == 0 || rr[0] == VALID_BIT)
      else
        executed == executed0 + [cr[..]] && answers == answers0 + [rr[..]] && rr[0] % 256 == cr[0] % 256
    }

    /**
     Hardware may work on a triggered command: it stores its answer word by word, in any order but word 0, which
     echoes the verb byte, last.  Before that, word 0 may be blanked to nothing or a lone valid bit.
     */
    method Run()
      requires Shape()
      modifies this`triggered, this`executed, this`answers, rr
      ensures After(old(triggered), old(executed), old(answers), old(rr[..]))
    {
      ghost var rr0 := rr[..];
      assert rr0[0] == rr[0];
      var steps: nat := *;
      while steps > 0
        invariant After(old(triggered), old(executed), old(answers), rr0) && cr[..] == old(cr[..])
      {
        var w: nat, v: nat := *, *;
        if triggered && 0 < w < 16 {
          rr[w] := v;
        } else if triggered && w == 0 && (v == 0 || v == VALID_BIT) {
          rr[0] := v;
        } else if triggered && v % 256 == cr[0] % 256 {
          rr[0] := v;
          executed, answers, triggered := executed + [cr[..]], answers + [rr[..]], false;
        }
        steps := steps - 1;
      }
    }

    method StoreCommand(w: nat, v: nat)
      requires Shape() && w < 16 && !triggered
      modifies cr
      ensures cr[..] == old(cr[..])[w := v]
    {
      cr[w] := v;
    }

    /** Writing CR_RT. */
    method Trigger()
      requires Shape() && !triggered
      modifies this`triggered, this`executed, this`answers, rr
      ensures After(true, old(executed), old(answers), old(rr[..]))
    {
      triggered := true;
      Run();
    }

    method LoadResponse(w: nat) returns (v: nat)
      requires Shape() && w < 16
      modifies this`triggered, this`executed, this`answers, this`polls, rr
      ensures polls == old(polls) + if w == 0 then 1 else 0
      ensures v == rr[w] && After(old(triggered), old(executed), old(answers), old(rr[..]))
    {
      Run();
      v := rr[w];
      if w == 0 { polls := polls + 1; }
    }
  }

  /** A submitted command: the caller's words with the verb and the polarity in place of the first byte. */
  predicate Merged(words: seq<nat>, cmd: seq<nat>, verb: nat, p: bool)
    requires |cmd| == 16
  {
    && |words| == 16 && words[1..] == cmd[1..] && words[0] / 256 == cmd[0] / 256
    && words[0] % 128 == verb && HasValid(words[0]) == p
  }

  /** A response word of polarity `p` that holds something besides. */
  predicate Shows(w: nat, p: bool) {
    HasValid(w) == p && (w / 256 != 0 || w % 128 != 0)
  }

  /** `word & ~QB_VALID_BIT`. */
  function WithoutValid(w: nat): int {
    w - And(w, VALID_BIT)
  }

  /** It clears the valid bit and nothing else. */
  lemma WithoutValidExact(w: nat)
    ensures WithoutValid(w) == w - if HasValid(w) then 128 else 0
    ensures WithoutValid(w) == 0 <==> w / 256 == 0 && w % 128 == 0
  {
    hide And;
    AndValid(w);
  }

  lemma ResponseWord(w: nat, cmd: nat)
    requires w % 256 == cmd % 256
    ensures cmd % 128 != 0 ==> Shows(w, HasValid(cmd))
  {
    ByteReplaced(w / 256, w % 256);
    ByteReplaced(cmd / 256, cmd % 256);
  }

  class Swp {
    const bus: Bus
    var mrValid: nat

    /** Commands submitted, and whether the latest has not been answered to software. */
    ghost var sent: seq<seq<nat>>
    ghost var inFlight: bool

    ghost predicate Valid()
      reads this, bus, bus.cr, bus.rr
    {
      && bus.Shape() && mrValid in {0, VALID_BIT}
      && (!inFlight ==> !bus.triggered)
      && (inFlight ==> Latest())
      && bus.executed == (if bus.triggered then sent[..|sent| - 1] else sent)
      && |bus.answers| == |bus.executed|
      && (Shows(bus.rr[0], mrValid == VALID_BIT) <==> Answered())
    }

    /** The command memory still holds the latest command, and the response memory its answer if there is one. */
    ghost predicate Latest()
      requires bus.Shape()
      reads this, bus, bus.cr, bus.rr
    {
      && sent != [] && bus.cr[..] == sent[|sent| - 1]
      && HasValid(bus.cr[0]) == (mrValid == VALID_BIT) && bus.cr[0] % 128 != 0
      && (!bus.triggered ==> bus.rr[0] % 256 == bus.cr[0] % 256
                             && bus.answers != [] && bus.rr[..] == bus.answers[|bus.answers| - 1])
    }

    ghost predicate Answered()
      reads this, bus
    {
      inFlight && !bus.triggered
    }

    /** The driver's two tests on the response word pass exactly while the latest command's answer is waiting. */
    lemma AnswerTestExact()
      requires Valid()
      ensures Answered() <==> And(bus.rr[0], VALID_BIT) == mrValid && WithoutValid(bus.rr[0]) != 0
    {
      AndValid(bus.rr[0]);
      WithoutValidExact(bus.rr[0]);
    }

    constructor (bus: Bus)
      requires bus.Shape() && !bus.triggered && bus.executed == bus.answers == [] && !Shows(bus.rr[0], true)
      ensures Valid() && !inFlight && this.bus == bus && mrValid == VALID_BIT && sent == []
    {
      this.bus, mrValid := bus, VALID_BIT;
      sent, inFlight := [], false;
    }

    /** The words hardware is to execute: the caller's, with verb and valid bit in byte 0. */
    function Command(cmd: seq<nat>, verb: nat): seq<nat>
      requires |cmd| == 16
      reads this`mrValid
    {
      cmd[0 := cmd[0] - cmd[0] % 256 + Or(verb, mrValid)]
    }

    /** qbman_cena_write_complete: the words are stored last to first. */
    method CopyCommand(words: seq<nat>)
      requires bus.Shape() && !bus.triggered && |words| == 16
      modifies bus.cr
      ensures bus.cr[..] == words
    {
      var loop := 15;
      while loop >= 1
        invariant 0 <= loop <= 15
        invariant forall w :: loop < w < 16 ==> bus.cr[w] == words[w]
      {
        bus.StoreCommand(loop, words[loop]);
        assert forall w :: 0 <= w < 16 ==> bus.cr[w] == bus.cr[..][w];
        loop := loop - 1;
      }
      bus.StoreCommand(0, words[0]);
      assert forall w :: 0 <= w < 16 ==> bus.cr[w] == bus.cr[..][w];
    }

    /** qbman_swp_mc_submit: hardware is triggered only when the whole command is in place. */
    method Submit(cmd: seq<nat>, verb: nat)
      requires Valid() && !inFlight && |cmd| == 16 && 0 < verb < 128
      modifies this`sent, this`inFlight, bus, bus.cr, bus.rr
      ensures Valid() && inFlight && sent == old(sent) + [Command(cmd, verb)] && bus.polls == old(bus.polls)
      ensures Merged(sent[|sent| - 1], cmd, verb, mrValid == VALID_BIT)
    {
      hide HasValid, Or, And;
      var words := Command(cmd, verb);
      CommandWord(cmd[0], verb, mrValid == VALID_BIT);
      CopyCommand(words);
      assert bus.cr[..][0] == bus.cr[0];
      ghost var answer := bus.rr[..];
      assert answer[0] == bus.rr[0];
      bus.Trigger();
      assert bus.cr[..][0] == bus.cr[0] && bus.rr[..][0] == bus.rr[0];
      assert (sent + [words])[..|sent|] == sent;
      sent, inFlight := sent + [words], true;
      if !bus.triggered { ResponseWord(bus.rr[0], bus.cr[0]); }
    }

    /** Reading one word of the response memory while a command is in flight. */
    method Load(w: nat) returns (v: nat)
      requires Valid() && inFlight && w < 16
      modifies bus`triggered, bus`executed, bus`answers, bus`polls, bus.rr
      ensures bus.polls == old(bus.polls) + if w == 0 then 1 else 0
      ensures Valid() && v == bus.rr[w]
      ensures old(Answered()) ==> Answered() && bus.rr[..] == old(bus.rr[..])
    {
      v := bus.LoadResponse(w);
      assert bus.rr[..][0] == bus.rr[0];
      if !bus.triggered { ResponseWord(bus.rr[0], bus.cr[0]); }
    }

    /** qbman_cena_read: the response words are loaded first to last, while hardware may be storing them. */
    method CopyResponse() returns (shadow: seq<nat>, ghost answered: bool)
      requires Valid() && inFlight
      modifies bus`triggered, bus`executed, bus`answers, bus`polls, bus.rr
      ensures bus.polls == old(bus.polls) + 1
      ensures Valid() && |shadow| == 16 && (old(Answered()) ==> answered)
      ensures answered <==> Shows(shadow[0], mrValid == VALID_BIT)
      ensures answered ==> Answered() && shadow == bus.rr[..]
    {
      hide HasValid, Shows, And, Latest;
      var w := Load(0);
      shadow := [w];
      answered := Answered();
      while |shadow| < 16
        invariant 1 <= |shadow| <= 16 && bus.polls == old(bus.polls) + 1 && Valid() && (old(Answered()) ==> answered)
        invariant answered ==> Answered() && shadow == bus.rr[..|shadow|]
        invariant answered <==> Shows(shadow[0], mrValid == VALID_BIT)
      {
        ghost var rr0 := bus.rr[..];
        w := Load(|shadow|);
        assert answered ==> bus.rr[..|shadow|] == rr0[..|shadow|];
        shadow := shadow + [w];
      }
    }

    /**
     qbman_swp_mc_result: hardware's answer to the latest command, all sixteen words of it, and nothing before
     that answer is there.
     */
    method Result() returns (r: Option<seq<nat>>)
      requires Valid() && inFlight
      modifies this`mrValid, this`inFlight, bus`triggered, bus`executed, bus`answers, bus`polls, bus.rr
      ensures Valid() && inFlight == r.None? && bus.polls == old(bus.polls) + 1
      ensures r.Some? ==> bus.executed == sent && |bus.answers| == |sent| && r.value == bus.answers[|sent| - 1]
      ensures mrValid == if r.Some? then Xor(old(mrValid), VALID_BIT) else old(mrValid)
      ensures old(Answered()) ==> r.Some?
    {
      hide HasValid, And, Xor, WithoutValid;
      var shadow, answered := CopyResponse();
      AndValid(shadow[0]);
      WithoutValidExact(shadow[0]);
      if mrValid != And(shadow[0], VALID_BIT) {
        return None;
      }
      if WithoutValid(shadow[0]) == 0 {
        return None;
      }
      XorValid(mrValid == VALID_BIT);
      mrValid := Xor(mrValid, VALID_BIT);
      inFlight := false;
      r := Some(shadow);
    }

    /** qbman_swp_mc_complete: submit, then poll until the answer or for 1001 polls. */
    method Complete(cmd: seq<nat>, verb: nat) returns (r: Option<seq<nat>>)
      requires Valid() && !inFlight && |cmd| == 16 && 0 < verb < 128
      modifies this, bus, bus.cr, bus.rr
      ensures Valid() && |sent| == |old(sent)| + 1 && old(sent) <= sent && inFlight == r.None?
      ensures Merged(sent[|sent| - 1], cmd, verb, old(mrValid) == VALID_BIT)
      ensures r.Some? ==> bus.executed == sent && |bus.answers| == |sent| && r.value == bus.answers[|sent| - 1]
      ensures var polls := bus.polls - old(bus.polls); 1 <= polls <= 1001 && (r.None? ==> polls == 1001)
      ensures mrValid == if r.Some? then Xor(old(mrValid), VALID_BIT) else old(mrValid)
    {
      hide HasValid, Or, And, Xor, Latest, Shows, Merged, Command;
      var loopvar := 1000;
      Submit(cmd, verb);
      r := Result();
      while r.None? && loopvar != 0
        invariant Valid() && sent == old(sent) + [old(Command(cmd, verb))] && inFlight == r.None?
        invariant Merged(sent[|sent| - 1], cmd, verb, old(mrValid) == VALID_BIT)
        invariant r.Some? ==> bus.executed == sent && |bus.answers| == |sent| && r.value == bus.answers[|sent| - 1]
        invariant 0 <= loopvar <= 1000 && bus.polls - old(bus.polls) == 1001 - loopvar
        invariant mrValid == if r.Some? then Xor(old(mrValid), VALID_BIT) else old(mrValid)
        decreases loopvar
      {
        loopvar := loopvar - 1;
        r := Result();
      }
    }
  }

  lemma CommandWord(w: nat, verb: nat, p: bool)
    requires 0 < verb < 128
    ensures var c := w - w % 256 + Or(verb, ValidBit(p)); HasValid(c) == p && c % 128 == verb && c / 256 == w / 256
  {
    OrValid(verb, p);
    ByteReplaced(w / 256, verb + ValidBit(p));
  }

  lemma ByteReplaced(high: nat, low: nat)
    requires low < 256
    ensures HasValid(256 * high + low) == (low >= 128) && (256 * high + low) % 128 == low % 128
    ensures (256 * high + low) / 256 == high
  {
    assert (256 * high + low) / 128 == 2 * high + low / 128;
  }
}
