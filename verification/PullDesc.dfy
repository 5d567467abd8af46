/** The volatile dequeue descriptor, and the command hardware reads off the four words made from it. */
module PullDesc {
  import opened Bits
  import opened RingIndex
  import opened Options

  /** The fields of `struct qbman_pull_desc`; `storage` is where software will look for the results. */
  datatype Desc = Desc(verb: Uint8, numf: Uint8, tok: Uint8, dqSrc: Uint32, rspAddr: Uint64, storage: Option<nat>)

  /** What qbman_pull_desc_set_storage leaves: the RLS bit says whether there is storage; the valid bit is clear. */
  predicate Consistent(d: Desc) {
    d.verb < 128 && ((d.verb / 16) % 2 == 1 <==> d.storage.Some?)
  }

  /** The first four 32-bit words of the descriptor in memory. */
  function Words(d: Desc): seq<nat> {
    var word0: nat, low: nat, high: nat :=
      d.verb + 256 * d.numf + 65536 * d.tok, d.rspAddr % 0x1_0000_0000, d.rspAddr / 0x1_0000_0000;
    [word0, d.dqSrc, low, high]
  }

  /** A command as hardware understands it; the verb is without its valid bit. */
  datatype Command = Command(verb: nat, numFrames: nat, token: nat, dqSrc: nat, rspAddr: nat)

  predicate ToStorage(c: Command) {
    (c.verb / 16) % 2 == 1
  }

  function Understood(words: seq<nat>): Command
    requires |words| == 4
  {
    Command(words[0] % 128, (words[0] / 256) % 256 + 1, (words[0] / 65536) % 256, words[1],
            words[2] + 0x1_0000_0000 * words[3])
  }

  /** With its valid bit set to any polarity the descriptor is understood as it was meant. */
  lemma UnderstoodAsMeant(d: Desc, p: bool)
    requires d.verb < 128
    ensures var w := Words(d);
            && |w| == 4
            && HasValid(Or(w[0], ValidBit(p))) == p
            && Understood([Or(w[0], ValidBit(p))] + w[1..])
               == Command(d.verb, d.numf + 1, d.tok, d.dqSrc, d.rspAddr)
  {
    hide HasValid, Or;
    var high := d.numf + 256 * d.tok;
    Fields(d.verb, d.numf, d.tok);
    Fields(d.verb + 128, d.numf, d.tok);
    OrValid(Words(d)[0], p);
  }

  lemma Fields(low: Uint8, mid: Uint8, high: Uint8)
    ensures var w := low + 256 * mid + 65536 * high;
            && w % 128 == low % 128 && (w / 256) % 256 == mid && (w / 65536) % 256 == high
            && HasValid(w) == (low >= 128)
  {
    var rest := mid + 256 * high;
    assert low + 256 * mid + 65536 * high == 256 * rest + low;
    assert (256 * rest + low) / 128 == 2 * rest + low / 128;
    assert (256 * rest + low) / 256 == rest;
    assert (256 * rest + low) / 65536 == rest / 256;
  }
}
