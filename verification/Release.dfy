/** Buffer release: the copy loops between host and command words, and the command word itself. */
module Release {
  import opened Bits
  import opened RingIndex

  const WORD := 0x1_0000_0000

  // ------------------------------------------------------------------ 64-bit values as words

  /** The words of 64-bit values with the two halves of each value exchanged on a big-endian host. */
  function Reordered(s: seq<nat>, bigEndian: bool): (r: seq<nat>)
    requires |s| % 2 == 0
    ensures |r| == |s|
  {
    if !bigEndian then s
    else seq(|s|, k requires 0 <= k < |s| => s[if k % 2 == 0 then k + 1 else k - 1])
  }

  /** The i-th 64-bit value of host memory. */
  function HostValue(s: seq<nat>, i: nat, bigEndian: bool): nat
    requires 2 * i + 1 < |s|
  {
    if bigEndian then s[2 * i] * WORD + s[2 * i + 1] else s[2 * i + 1] * WORD + s[2 * i]
  }

  /** Copied out, every value lies least significant word first, whatever the host's byte order. */
  lemma LeastSignificantFirst(s: seq<nat>, i: nat, bigEndian: bool)
    requires |s| % 2 == 0 && 2 * i + 1 < |s| && s[2 * i] < WORD && s[2 * i + 1] < WORD
    ensures var v, r := HostValue(s, i, bigEndian), Reordered(s, bigEndian);
            r[2 * i] == v % WORD && r[2 * i + 1] == v / WORD
  {
    var r := Reordered(s, bigEndian);
    assert (2 * i) % 2 == 0 && (2 * i + 1) % 2 == 1;
    Halves(r[2 * i + 1], r[2 * i]);
  }

  lemma Halves(high: nat, low: nat)
    requires low < WORD
    ensures (high * WORD + low) % WORD == low && (high * WORD + low) / WORD == high
  {
  }

  /** The two copies invert each other. */
  lemma ReorderedTwice(s: seq<nat>, bigEndian: bool)
    requires |s| % 2 == 0
    ensures Reordered(Reordered(s, bigEndian), bigEndian) == s
  {
  }

  /** u64_to_le32_copy from host words `s` to `d[at..]`. */
  method U64ToLe32(d: array<nat>, at: nat, s: array<nat>, cnt: nat, bigEndian: bool)
    requires d != s && at + 2 * cnt <= d.Length && 2 * cnt <= s.Length
    modifies d
    ensures d[..] == old(d[..at]) + Reordered(s[..2 * cnt], bigEndian) + old(d[at + 2 * cnt..])
  {
    var dd, ss, left := at, 0, cnt;
    ghost var want := Reordered(s[..2 * cnt], bigEndian);
    while left > 0
      invariant ss == 2 * (cnt - left) && dd == at + ss && 0 <= left <= cnt
      invariant forall k :: 0 <= k < ss ==> d[at + k] == want[k]
      invariant forall k :: 0 <= k < d.Length && !(at <= k < dd) ==> d[k] == old(d[k])
      decreases left
    {
      if bigEndian {
        d[dd] := s[ss + 1];
        d[dd + 1] := s[ss];
      } else {
        d[dd] := s[ss];
        d[dd + 1] := s[ss + 1];
      }
      dd, ss, left := dd + 2, ss + 2, left - 1;
    }
  }

  /** u64_from_le32_copy from command words `s[at..]` to host words `d`. */
  method U64FromLe32(d: array<nat>, s: array<nat>, at: nat, cnt: nat, bigEndian: bool)
    requires d != s && at + 2 * cnt <= s.Length && 2 * cnt <= d.Length
    modifies d
    ensures d[..] == Reordered(s[at..at + 2 * cnt], bigEndian) + old(d[2 * cnt..])
  {
    var dd, ss, left := 0, at, cnt;
    ghost var want := Reordered(s[at..at + 2 * cnt], bigEndian);
    while left > 0
      invariant dd == 2 * (cnt - left) && ss == at + dd && 0 <= left <= cnt
      invariant forall k :: 0 <= k < dd ==> d[k] == want[k]
      invariant forall k :: dd <= k < d.Length ==> d[k] == old(d[k])
      decreases left
    {
      if bigEndian {
        d[dd + 1] := s[ss];
        d[dd] := s[ss + 1];
      } else {
        d[dd] := s[ss];
        d[dd + 1] := s[ss + 1];
      }
      dd, ss, left := dd + 2, ss + 2, left - 1;
    }
  }

  /** Released and acquired back, buffers are unchanged on hosts of either byte order. */
  method RoundTrip(s: array<nat>, line: array<nat>, at: nat, back: array<nat>, cnt: nat, bigEndian: bool)
    requires line != s && line != back && at + 2 * cnt <= line.Length && 2 * cnt <= s.Length && s != back
    requires back.Length == 2 * cnt
    modifies line, back
    ensures back[..] == s[..2 * cnt]
  {
    U64ToLe32(line, at, s, cnt, bigEndian);
    assert line[at..at + 2 * cnt] == Reordered(s[..2 * cnt], bigEndian);
    ReorderedTwice(s[..2 * cnt], bigEndian);
    U64FromLe32(back, line, at, cnt, bigEndian);
  }

  // ------------------------------------------------------------------ the release descriptor

  const RC_VALID := 0x20
  const RCDI := 0x40
  const RAR_SUCCESS := 0x100

  datatype Setter = Bpid(bpid: nat) | Rcdi(enable: bool)

  /** What the setters since the last clear asked for: the last of each kind counts. */
  function LastBpid(setters: seq<Setter>): nat {
    if setters == [] then 0
    else match setters[|setters| - 1]
      case Bpid(b) => b
      case Rcdi(_) => LastBpid(setters[..|setters| - 1])
  }

  function LastRcdi(setters: seq<Setter>): bool {
    if setters == [] then false
    else match setters[|setters| - 1]
      case Bpid(_) => LastRcdi(setters[..|setters| - 1])
      case Rcdi(e) => e
  }

  /** The last setting of each kind counts, whatever the other setter does in between. */
  lemma LastSettings(s: seq<Setter>, b: nat, e: bool)
    ensures LastBpid(s + [Bpid(b)]) == b && LastRcdi(s + [Bpid(b)]) == LastRcdi(s)
    ensures LastRcdi(s + [Rcdi(e)]) == e && LastBpid(s + [Rcdi(e)]) == LastBpid(s)
    ensures LastBpid([]) == 0 && !LastRcdi([])
  {
    assert (s + [Bpid(b)])[..|s|] == s && (s + [Rcdi(e)])[..|s|] == s;
  }

  class Desc {
    var verb: nat
    var bpid: nat
    ghost var setters: seq<Setter>

    ghost predicate Valid()
      reads this
    {
      verb == RC_VALID + (if LastRcdi(setters) then RCDI else 0) && bpid == LastBpid(setters)
    }

    /** qbman_release_desc_clear. */
    constructor ()
      ensures Valid() && setters == []
    {
      verb, bpid, setters := RC_VALID, 0, [];
    }

    method SetBpid(bpid: nat)
      requires Valid() && bpid < 0x1_0000
      modifies this
      ensures Valid() && setters == old(setters) + [Bpid(bpid)]
    {
      this.bpid := bpid;
      setters := setters + [Bpid(bpid)];
    }

    method SetRcdi(enable: bool)
      requires Valid()
      modifies this
      ensures Valid() && setters == old(setters) + [Rcdi(enable)]
    {
      hide And, Or, Bit;
      Powers();
      BitSix(verb);
      OrPow2(verb, 6);
      AndPow2(verb, 6);
      if enable {
        verb := Or(verb, RCDI);
      } else {
        verb := verb - And(verb, RCDI);
      }
      setters := setters + [Rcdi(enable)];
    }

    /** Word 0 of the descriptor in memory: verb, a reserved byte, buffer pool. */
    function Word0(): nat
      reads this
    {
      verb + 65536 * bpid
    }
  }

  /** The fields hardware finds in a release word. */
  datatype Decoded = Decoded(num: nat, rcValid: bool, rcdi: bool, valid: bool, bpid: nat)

  function Decode(w: nat): Decoded {
    Decoded(w % 8, (w / 32) % 2 == 1, (w / 64) % 2 == 1, HasValid(w), w / 65536)
  }

  lemma ReleaseWord(verb: nat, bpid: nat, rar: nat, num: nat, rcdi: bool)
    requires verb == RC_VALID + (if rcdi then RCDI else 0) && num < 8
    ensures Decode(Or(Or(verb + 65536 * bpid, And(rar, VALID_BIT)), num))
         == Decoded(num, true, rcdi, HasValid(rar), bpid)
  {
    hide And, Or, HasValid, Decode;
    var v := ValidBit(HasValid(rar));
    var cl := verb + 65536 * bpid;
    AndValid(rar);
    FieldsOf(bpid, verb);
    OrValid(cl, HasValid(rar));
    Powers();
    var eighth := 8192 * bpid + (verb + v) / 8;
    assert cl + v == 8 * eighth;
    OrDisjoint(eighth, num, 3);
    FieldsOf(bpid, verb + v + num);
  }

  lemma EvenPlus(a: nat, x: nat)
    ensures (2 * a + x) % 2 == x % 2
  {
  }

  lemma Quotients(b: nat, low: nat)
    requires low < 256
    ensures var w := 65536 * b + low;
            && w / 32 == 2 * (1024 * b) + low / 32 && w / 64 == 2 * (512 * b) + low / 64
            && w / 128 == 2 * (256 * b) + low / 128 && w % 8 == low % 8 && w / 65536 == b
  {
  }

  lemma FieldsOf(bpid: nat, low: nat)
    requires low < 256
    ensures Decode(65536 * bpid + low)
         == Decoded(low % 8, (low / 32) % 2 == 1, (low / 64) % 2 == 1, low >= 128, bpid)
    ensures HasValid(65536 * bpid + low) == (low >= 128)
  {
    Quotients(bpid, low);
    EvenPlus(1024 * bpid, low / 32);
    EvenPlus(512 * bpid, low / 64);
    EvenPlus(256 * bpid, low / 128);
  }

  lemma SuccessBit(rar: nat)
    ensures And(rar, RAR_SUCCESS) != 0 <==> (rar / 256) % 2 == 1
  {
    hide And, Bit;
    Powers();
    AndPow2(rar, 8);
    BitEight(rar);
  }

  /**
     qbman_swp_release_direct and _mem_back, up to the choice of slot: `rar` is the value read from RAR, `p` the
     command line, and false is -EBUSY.
   */
  method Release(desc: Desc, p: array<nat>, rar: nat, buffers: array<nat>, num: nat, bigEndian: bool)
    returns (ok: bool)
    requires desc.Valid() && p.Length == 16 && p != buffers && 1 <= num <= 7 && buffers.Length == 2 * num
    modifies p
    ensures ok <==> (rar / 256) % 2 == 1
    ensures !ok ==> p[..] == old(p[..])
    ensures ok ==> Decode(p[0]) == Decoded(num, true, LastRcdi(desc.setters), HasValid(rar), LastBpid(desc.setters))
    ensures ok ==> p[1..] == [old(p[1])] + Reordered(buffers[..], bigEndian) + old(p[2 + 2 * num..])
  {
    hide And, Or, HasValid, Decode, Reordered;
    SuccessBit(rar);
    if And(rar, RAR_SUCCESS) == 0 {
      return false;
    }
    U64ToLe32(p, 2, buffers, num, bigEndian);
    assert buffers[..2 * num] == buffers[..];
    p[0] := Or(Or(desc.Word0(), And(rar, VALID_BIT)), num);
    ReleaseWord(desc.verb, desc.bpid, rar, num, LastRcdi(desc.setters));
    ok := true;
  }
}
