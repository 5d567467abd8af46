/** The enqueue descriptor and its setters, which update the bytes of the descriptor in place. */
module EqDesc {
  import opened Bits
  import opened RingIndex
  import Eqcr

  const RESPONSE_ALWAYS := 1
  const REJECTS_TO_FQ := 2
  const ORP_ENABLE := 0x04
  const IRQ_ON_DISPATCH := 0x08
  const TARGET_TYPE := 0x10
  const DCA_PK := 0x40
  const NLIS := 0x4000
  const IS_NESN := 0x8000

  /** The meaning of the verb byte: action code, order restoration, dispatch interrupt, queuing destination. */
  datatype Verb = Verb(ec: nat, orp: bool, eqdi: bool, qd: bool)

  function Byte(v: Verb): nat {
    v.ec + (if v.orp then 4 else 0) + (if v.eqdi then 8 else 0) + if v.qd then 16 else 0
  }

  lemma ByteBits(v: Verb)
    requires v.ec < 4
    ensures Bit(Byte(v), 0) == (v.ec % 2 == 1) && Bit(Byte(v), 1) == (v.ec >= 2)
    ensures Bit(Byte(v), 2) == v.orp && Bit(Byte(v), 3) == v.eqdi && Bit(Byte(v), 4) == v.qd
  {
    hide Bit;
    var o, e, q := if v.orp then 1 else 0, if v.eqdi then 1 else 0, if v.qd then 1 else 0;
    Quotients(v.ec, o, e, q);
    LowBits(Byte(v));
  }

  lemma Quotients(ec: nat, o: nat, e: nat, q: nat)
    requires ec < 4
    ensures var b := ec + 4 * o + 8 * e + 16 * q;
            && b % 2 == ec % 2 && (b / 2) % 2 == ec / 2
            && b / 4 == o + 2 * e + 4 * q && b / 8 == o / 2 + e + 2 * q
            && (o < 2 && e < 2 ==> b / 16 == q)
  {
  }

  lemma LowBits(b: nat)
    ensures (Bit(b, 0) <==> b % 2 == 1) && (Bit(b, 1) <==> (b / 2) % 2 == 1) && (Bit(b, 2) <==> (b / 4) % 2 == 1)
    ensures (Bit(b, 3) <==> (b / 8) % 2 == 1) && (Bit(b, 4) <==> (b / 16) % 2 == 1)
  {
    var c := b / 2;
    var d := c / 2;
    var e := d / 2;
    assert b / 4 == d && b / 8 == e && b / 16 == e / 2;
    assert Bit(b, 1) == Bit(c, 0);
    assert Bit(b, 2) == Bit(c, 1) == Bit(d, 0);
    assert Bit(b, 3) == Bit(c, 2) == Bit(d, 1) == Bit(e, 0);
    assert Bit(b, 4) == Bit(c, 3) == Bit(d, 2) == Bit(e, 1) == Bit(e / 2, 0);
  }

  /** `|=` and `&= ~` of one of the five bits the driver uses. */
  lemma SetAndClear(v: Verb)
    requires v.ec < 4
    ensures var b := Byte(v);
            && Or(b, ORP_ENABLE) == Byte(v.(orp := true)) && b - And(b, ORP_ENABLE) == Byte(v.(orp := false))
            && Or(b, IRQ_ON_DISPATCH) == Byte(v.(eqdi := true))
            && b - And(b, IRQ_ON_DISPATCH) == Byte(v.(eqdi := false))
            && Or(b, TARGET_TYPE) == Byte(v.(qd := true)) && b - And(b, TARGET_TYPE) == Byte(v.(qd := false))
  {
    var b := Byte(v);
    Powers();
    ByteBits(v);
    hide Or, And, Bit;
    OrPow2(b, 2);
    OrPow2(b, 3);
    OrPow2(b, 4);
    AndPow2(b, 2);
    AndPow2(b, 3);
    AndPow2(b, 4);
  }

  /** The action code only gains bits in `|=`; masking it out clears it. */
  lemma ActionCode(v: Verb, code: nat)
    requires v.ec < 4 && (code == 1 || code == 2)
    ensures var ec := if v.ec == 0 || v.ec == code then code else 3;
            Or(Byte(v), code) == Byte(v.(ec := ec))
    ensures Byte(v) - And(Byte(v), 3) == Byte(v.(ec := 0))
  {
    hide Or, And, Bit;
    var b := Byte(v);
    Powers();
    ByteBits(v);
    OrPow2(b, code - 1);
    LowTwo(b);
    ByteLowTwo(v);
  }

  lemma LowTwo(b: nat)
    ensures And(b, 3) == b % 4
  {
    hide And, Slot, Lap;
    Powers();
    AndLowMask(b, 2);
    SlotAndLap(b, 4);
  }

  lemma ByteLowTwo(v: Verb)
    requires v.ec < 4
    ensures Byte(v) % 4 == v.ec
  {
    var rest := (if v.orp then 1 else 0) + (if v.eqdi then 2 else 0) + if v.qd then 4 else 0;
    assert Byte(v) == 4 * rest + v.ec;
  }

  // ------------------------------------------------------------------ the sequence number and DCA fields

  /** A 16-bit sequence number field: fourteen bits of number and the two flags above them. */
  datatype SeqNum = SeqNum(number: nat, nlis: bool, nesn: bool)

  function SeqWord(v: SeqNum): nat {
    v.number + (if v.nlis then NLIS else 0) + if v.nesn then IS_NESN else 0
  }

  function SeqParts(x: nat): SeqNum {
    SeqNum(x % NLIS, (x / NLIS) % 2 == 1, (x / IS_NESN) % 2 == 1)
  }

  lemma SeqBits(x: nat)
    ensures Bit(x, 14) == SeqParts(x).nlis && Bit(x, 15) == SeqParts(x).nesn
    ensures Pow2(14) == NLIS && Pow2(15) == IS_NESN
  {
    Powers();
    Pow2Sum(7, 7);
    assert Pow2(15) == 2 * Pow2(14);
    HighBit(x);
    HighBit(x / 2);
    assert Bit(x, 15) == Bit(x / 2, 14);
  }

  lemma HighBit(x: nat)
    ensures Bit(x, 14) <==> (x / NLIS) % 2 == 1
  {
    ShiftSeven(x, 7);
    BitSeven(x / 128);
    assert x / NLIS == x / 128 / 128;
  }

  lemma SeqRoundTrip(x: nat)
    requires x < 0x1_0000
    ensures SeqWord(SeqParts(x)) == x
  {
  }

  lemma SeqPartsOf(v: SeqNum)
    requires v.number < NLIS
    ensures SeqParts(SeqWord(v)) == v
  {
  }

  /** Setting and clearing the two flags of a sequence number. */
  lemma SeqFlags(v: SeqNum)
    requires v.number < NLIS
    ensures var x := SeqWord(v);
            && Or(x, NLIS) == SeqWord(v.(nlis := true)) && x - And(x, NLIS) == SeqWord(v.(nlis := false))
            && Or(x, IS_NESN) == SeqWord(v.(nesn := true)) && x - And(x, IS_NESN) == SeqWord(v.(nesn := false))
    ensures SeqWord(v.(nlis := true)) < 0x1_0000 && SeqWord(v.(nlis := false)) < 0x1_0000
    ensures SeqWord(v.(nesn := true)) < 0x1_0000 && SeqWord(v.(nesn := false)) < 0x1_0000
  {
    hide Or, And, Bit;
    var x := SeqWord(v);
    SeqPartsOf(v);
    SeqBits(x);
    OrPow2(x, 14);
    OrPow2(x, 15);
    AndPow2(x, 14);
    AndPow2(x, 15);
  }

  /** An 8-bit DCA field: the DQRR index in the low bits, park and enable above. */
  function DcaField(idx: nat, park: bool, enable: bool): nat {
    idx % 64 + (if park then DCA_PK else 0) + if enable then Eqcr.DCA_EN else 0
  }

  lemma DcaFlags(idx: nat, park: bool, enable: bool)
    ensures var d := DcaField(idx, park, enable);
            && Or(d, DCA_PK) == DcaField(idx, true, enable) && d - And(d, DCA_PK) == DcaField(idx, false, enable)
            && DcaField(idx, true, enable) < 256 && DcaField(idx, false, enable) < 256
            && DcaField(idx, park, true) < 256 && DcaField(idx, park, false) < 256
            && Or(d, Eqcr.DCA_EN) == DcaField(idx, park, true) && d - And(d, Eqcr.DCA_EN) == DcaField(idx, park, false)
  {
    hide Or, And, Bit;
    var d := DcaField(idx, park, enable);
    Powers();
    BitSix(d);
    BitSeven(d);
    assert d / 64 == (if park then 1 else 0) + (if enable then 2 else 0);
    assert d / 128 == if enable then 1 else 0;
    OrPow2(d, 6);
    OrPow2(d, 7);
    AndPow2(d, 6);
    AndPow2(d, 7);
  }

  /** Every byte is a DCA field. */
  lemma DcaOfByte(d: nat)
    requires d < 256
    ensures d == DcaField(d, (d / 64) % 2 == 1, d / 128 == 1)
  {
  }

  class Desc {
    var verb: nat
    var dca: Uint8
    var seqnum: Uint16
    var orpid: Uint16
    var tgtid: Uint32
    var qdbin: Uint16
    var qpri: Uint8
    var wae: Uint8
    var rspid: Uint8
    var rspAddr: Uint64
    ghost var meaning: Verb

    ghost predicate Valid()
      reads this
    {
      meaning.ec < 4 && verb == Byte(meaning)
    }

    /** qbman_eq_desc_clear. */
    constructor ()
      ensures Valid() && meaning == Verb(0, false, false, false)
      ensures Words() == [0, 0, 0, 0, 0, 0, 0, 0]
    {
      verb, dca, seqnum, orpid, tgtid := 0, 0, 0, 0, 0;
      qdbin, qpri, wae, rspid, rspAddr := 0, 0, 0, 0, 0;
      meaning := Verb(0, false, false, false);
    }

    /** The eight words of the descriptor in memory. */
    function Words(): seq<nat>
      reads this
    {
      var word0: nat := verb + 256 * dca + 65536 * seqnum;
      var word4: nat, word5: nat := qdbin + 65536 * qpri, 65536 * (wae + 256 * rspid);
      var low: nat, high: nat := rspAddr % 0x1_0000_0000, rspAddr / 0x1_0000_0000;
      [word0, orpid, tgtid, 0, word4, word5, low, high]
    }

    /** The fields do not run into each other: hardware reads each of them back. */
    lemma WordsDecode()
      requires Valid()
      ensures var w := Words();
              && |w| == 8 && (forall k :: 0 <= k < 8 ==> w[k] < 0x1_0000_0000)
              && w[0] % 256 == verb && (w[0] / 256) % 256 == dca && w[0] / 65536 == seqnum
              && w[1] == orpid && w[2] == tgtid && w[4] % 65536 == qdbin && w[4] / 65536 == qpri
              && (w[5] / 65536) % 256 == wae && w[5] / 0x100_0000 == rspid
              && w[6] + 0x1_0000_0000 * w[7] == rspAddr
    {
      assert verb < 32;
      ThreeFields(verb, dca, seqnum);
      TwoFields(qdbin, qpri);
      ThreeFields(0, wae, rspid);
      ShiftedByteFields(wae, rspid);
    }

    /** After any setters the valid bit is clear, so the enqueue can substitute it. */
    lemma ValidBitClear()
      requires Valid()
      ensures |Words()| == 8 && !HasValid(Words()[0])
    {
      assert verb < 128;
      assert Words()[0] == 256 * (dca + 256 * seqnum) + verb;
      Quotient(dca + 256 * seqnum, verb);
    }

    /** The descriptor as an enqueue uses it. */
    function ForEnqueue(): Eqcr.Desc
      requires Valid()
      reads this
    {
      ValidBitClear();
      Words()
    }

    /** A flagged frame is tear-free exactly when the descriptor already asks for its DCA without park. */
    lemma TearFreeDca(flags: Eqcr.Flags, i: nat)
      requires Valid() && Eqcr.Covers(flags, i + 1)
      ensures Eqcr.TearFree(ForEnqueue(), flags, i)
         <==> (Eqcr.WantsDca(flags, i) ==> dca == DcaField(flags.word[i] % 16, false, true))
    {
      if Eqcr.WantsDca(flags, i) {
        Eqcr.DcaByteIsByte(flags.word[i]);
        ThreeFields(verb, dca, seqnum);
      }
    }

    /** qbman_eq_desc_set_dca: disabling leaves the index and the park bit. */
    method SetDca(enable: bool, dqrrIdx: Uint8, park: bool)
      requires Valid()
      modifies this`dca
      ensures Valid()
      ensures enable ==> dca == DcaField(dqrrIdx, park, true)
      ensures !enable ==> dca == DcaField(old(dca), (old(dca) / DCA_PK) % 2 == 1, false)
    {
      hide Or, And, DcaField;
      if enable {
        DcaOfByte(dqrrIdx);
        DcaFlags(dqrrIdx, (dqrrIdx / 64) % 2 == 1, dqrrIdx / 128 == 1);
        DcaFlags(dqrrIdx, park, dqrrIdx / 128 == 1);
        dca := dqrrIdx;
        if park {
          dca := Or(dca, DCA_PK);
        } else {
          dca := dca - And(dca, DCA_PK);
        }
        dca := Or(dca, Eqcr.DCA_EN);
      } else {
        DcaOfByte(dca);
        DcaFlags(dca, (dca / 64) % 2 == 1, dca / 128 == 1);
        dca := dca - And(dca, Eqcr.DCA_EN);
      }
    }

    /** qbman_eq_desc_set_response; the int is cut to its low byte. */
    method SetResponse(storagePhys: Uint64, stash: int)
      requires Valid()
      modifies this`rspAddr, this`wae
      ensures Valid() && rspAddr == storagePhys && wae == U8(stash)
    {
      rspAddr := storagePhys;
      wae := U8(stash);
    }

    method SetToken(token: Uint8)
      requires Valid()
      modifies this`rspid
      ensures Valid() && rspid == token
    {
      rspid := token;
    }

    /** The action wanted; it takes effect exactly when no other action code was set before. */
    method SetNoOrp(respondSuccess: bool)
      requires Valid()
      modifies this`verb, this`meaning
      ensures Valid()
      ensures var code, was := if respondSuccess then 1 else 2, old(meaning);
              && meaning == was.(orp := false, ec := meaning.ec)
              && (meaning.ec == code <==> was.ec == 0 || was.ec == code)
    {
      hide Or, And, Byte;
      var code := if respondSuccess then RESPONSE_ALWAYS else REJECTS_TO_FQ;
      SetAndClear(meaning);
      ActionCode(meaning.(orp := false), code);
      verb := verb - And(verb, ORP_ENABLE);
      verb := Or(verb, code);
      meaning := meaning.(orp := false, ec := if meaning.ec == 0 || meaning.ec == code then code else 3);
    }

    method SetOrp(respondSuccess: bool, oprId: Uint16, seqNum: Uint16, incomplete: bool)
      requires Valid()
      modifies this`verb, this`meaning, this`orpid, this`seqnum
      ensures Valid() && orpid == oprId && SeqParts(seqnum) == SeqParts(seqNum).(nlis := incomplete)
      ensures var code, was := if respondSuccess then 1 else 2, old(meaning);
              && meaning == was.(orp := true, ec := meaning.ec)
              && (meaning.ec == code <==> was.ec == 0 || was.ec == code)
    {
      hide Or, And, SeqWord, Byte;
      var code := if respondSuccess then RESPONSE_ALWAYS else REJECTS_TO_FQ;
      SetAndClear(meaning);
      ActionCode(meaning.(orp := true), code);
      verb := Or(verb, ORP_ENABLE);
      verb := Or(verb, code);
      orpid, seqnum := oprId, seqNum;
      SeqRoundTrip(seqNum);
      SeqFlags(SeqParts(seqNum));
      SeqPartsOf(SeqParts(seqNum).(nlis := incomplete));
      if incomplete {
        seqnum := Or(seqnum, NLIS);
      } else {
        seqnum := seqnum - And(seqnum, NLIS);
      }
      meaning := meaning.(orp := true, ec := if meaning.ec == 0 || meaning.ec == code then code else 3);
    }

    /** The verb of the next two, which do replace an earlier action. */
    method SetOrpOnly()
      requires Valid()
      modifies this`verb, this`meaning
      ensures Valid() && meaning == old(meaning).(orp := true, ec := 0)
    {
      hide Or, And, Byte;
      SetAndClear(meaning);
      ActionCode(meaning.(orp := true), 1);
      verb := Or(verb, ORP_ENABLE);
      verb := verb - And(verb, 3);
      meaning := meaning.(orp := true, ec := 0);
    }

    /** qbman_eq_desc_set_orp_hole: neither flag, only the number. */
    method SetOrpHole(oprId: Uint16, seqNum: Uint16)
      requires Valid()
      modifies this`verb, this`meaning, this`orpid, this`seqnum
      ensures Valid() && meaning == old(meaning).(orp := true, ec := 0)
      ensures orpid == oprId && SeqParts(seqnum) == SeqNum(seqNum % NLIS, false, false)
    {
      hide Or, And, SeqWord;
      SetOrpOnly();
      orpid, seqnum := oprId, seqNum;
      ghost var v := SeqParts(seqNum);
      SeqRoundTrip(seqNum);
      SeqFlags(v);
      SeqFlags(v.(nlis := false));
      SeqPartsOf(v.(nlis := false, nesn := false));
      seqnum := seqnum - And(seqnum, NLIS);
      seqnum := seqnum - And(seqnum, IS_NESN);
    }

    /** qbman_eq_desc_set_orp_nesn: the same number, marked as the next expected one. */
    method SetOrpNesn(oprId: Uint16, seqNum: Uint16)
      requires Valid()
      modifies this`verb, this`meaning, this`orpid, this`seqnum
      ensures Valid() && meaning == old(meaning).(orp := true, ec := 0)
      ensures orpid == oprId && SeqParts(seqnum) == SeqNum(seqNum % NLIS, false, true)
    {
      hide Or, And, SeqWord;
      SetOrpOnly();
      orpid, seqnum := oprId, seqNum;
      ghost var v := SeqParts(seqNum);
      SeqRoundTrip(seqNum);
      SeqFlags(v);
      SeqFlags(v.(nlis := false));
      SeqPartsOf(v.(nlis := false, nesn := true));
      seqnum := seqnum - And(seqnum, NLIS);
      seqnum := Or(seqnum, IS_NESN);
    }

    method SetFq(fqid: Uint32)
      requires Valid()
      modifies this`verb, this`meaning, this`tgtid
      ensures Valid() && meaning == old(meaning).(qd := false) && tgtid == fqid
    {
      hide Or, And, Byte;
      SetAndClear(meaning);
      verb := verb - And(verb, TARGET_TYPE);
      tgtid, meaning := fqid, meaning.(qd := false);
    }

    method SetQd(qdid: Uint32, bin: Uint16, prio: Uint8)
      requires Valid()
      modifies this`verb, this`meaning, this`tgtid, this`qdbin, this`qpri
      ensures Valid() && meaning == old(meaning).(qd := true) && tgtid == qdid && qdbin == bin && qpri == prio
    {
      hide Or, And, Byte;
      SetAndClear(meaning);
      verb := Or(verb, TARGET_TYPE);
      tgtid, qdbin, qpri, meaning := qdid, bin, prio, meaning.(qd := true);
    }

    method SetEqdi(enable: bool)
      requires Valid()
      modifies this`verb, this`meaning
      ensures Valid() && meaning == old(meaning).(eqdi := enable)
    {
      hide Or, And, Byte;
      SetAndClear(meaning);
      verb := if enable then Or(verb, IRQ_ON_DISPATCH) else verb - And(verb, IRQ_ON_DISPATCH);
      meaning := meaning.(eqdi := enable);
    }
  }

  lemma Quotient(high: nat, low: nat)
    requires low < 128
    ensures !HasValid(256 * high + low)
  {
    assert (256 * high + low) / 128 == 2 * high;
  }

  lemma ThreeFields(first: Uint8, second: Uint8, rest: nat)
    ensures var w := first + 256 * second + 65536 * rest;
            w % 256 == first && (w / 256) % 256 == second && w / 65536 == rest
  {
    var high := second + 256 * rest;
    assert first + 256 * second + 65536 * rest == 256 * high + first;
    assert (256 * high + first) / 256 == high;
    assert (256 * high + first) / 65536 == high / 256;
  }

  lemma TwoFields(low: Uint16, high: nat)
    ensures (low + 65536 * high) % 65536 == low && (low + 65536 * high) / 65536 == high
  {
  }

  lemma ShiftedByteFields(low: Uint8, high: Uint8)
    ensures var w := 65536 * (low + 256 * high); (w / 65536) % 256 == low && w / 0x100_0000 == high
  {
    assert 65536 * (low + 256 * high) / 0x100_0000 == (low + 256 * high) / 256;
  }
}
