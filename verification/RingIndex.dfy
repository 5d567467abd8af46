/**
 Index arithmetic of the portal rings: positions modulo N, laps, lap polarity, the cyclic difference and the
 masks.  Positions are tied to absolute counts of entries, which never wrap.
 */
module RingIndex {
  import opened Bits

  /** A ring of 2^k slots whose indices modulo 2N stay clear of the valid bit. */
  ghost predicate RingSize(n: nat) {
    n > 0 && 2 * n <= 128 && exists k: nat :: IsPow2(n, k)
  }

  predicate IsPow2(n: nat, k: nat) {
    n == Pow2(k)
  }

  /** Valid-bit polarity of the j-th entry: it flips each lap; `first` is the polarity of lap 0. */
  predicate Polarity(j: nat, n: nat, first: bool)
    requires n > 0
  {
    (Lap(j, n) % 2 == 0) == first
  }

  // ------------------------------------------------------------------ windows of N entries

  lemma SlotLap(j: nat, n: nat)
    requires n > 0
    ensures Slot(j + n, n) == Slot(j, n)
  {
  }

  /** Two entries less than a ring apart never share a slot. */
  lemma {:induction false} WindowDistinct(i: nat, j: nat, n: nat)
    requires n > 0 && i < j < i + n
    ensures Slot(i, n) != Slot(j, n)
  {
    if i >= n {
      WindowDistinct(i - n, j - n, n);
    } else if j >= n {
      assert Slot(j, n) == j - n;
    }
  }

  lemma WindowOthers(lo: nat, q: nat, n: nat)
    requires n > 0 && lo <= q < lo + n
    ensures forall j: nat {:trigger Slot(j, n)} :: lo <= j < lo + n && j != q ==> Slot(j, n) != Slot(q, n)
  {
    forall j: nat | lo <= j < lo + n && j != q ensures Slot(j, n) != Slot(q, n) {
      WindowDistinct(if j < q then j else q, if j < q then q else j, n);
    }
  }

  lemma WindowBehind(q: nat, n: nat)
    requires n > 0
    ensures forall j: nat {:trigger Slot(j, n)} :: j < q < j + n ==> Slot(j, n) != Slot(q, n)
  {
    forall j: nat | j < q < j + n ensures Slot(j, n) != Slot(q, n) {
      WindowDistinct(j, q, n);
    }
  }

  /** Any N successive entries fill every slot. */
  lemma {:induction false} WindowCovers(p: nat, n: nat, s: nat) returns (q: nat)
    requires n > 0 && s < n
    ensures p <= q < p + n && Slot(q, n) == s
  {
    if p >= n {
      q := WindowCovers(p - n, n, s);
      q := q + n;
    } else {
      q := if p <= s then s else s + n;
    }
  }

  lemma {:induction false} SlotStep(j: nat, n: nat)
    requires n > 0
    ensures Slot(j + 1, n) == if Slot(j, n) + 1 == n then 0 else Slot(j, n) + 1
    ensures Lap(j + 1, n) == if Slot(j, n) + 1 == n then Lap(j, n) + 1 else Lap(j, n)
  {
    if j >= n {
      SlotStep(j - n, n);
    } else if j + 1 == n {
      assert Slot(n, n) == Slot(0, n) && Lap(n, n) == 1 + Lap(0, n);
    }
  }

  /** The polarity flips on entering slot 0 and nowhere else. */
  lemma PolarityStep(j: nat, n: nat, first: bool)
    requires n > 0
    ensures Polarity(j + 1, n, first) == (Polarity(j, n, first) != (Slot(j + 1, n) == 0))
  {
    SlotStep(j, n);
  }

  // ------------------------------------------------------------------ indices modulo 2N

  /** The low half of an index modulo 2N is the slot; the other bit is the parity of the lap. */
  lemma {:induction false} DoubleIndex(j: nat, n: nat)
    requires n > 0
    ensures Slot(Slot(j, 2 * n), n) == Slot(j, n)
    ensures Slot(j, 2 * n) < n <==> Lap(j, n) % 2 == 0
  {
    if j >= 2 * n {
      DoubleIndex(j - 2 * n, n);
      assert Slot(j, n) == Slot(j - n, n) == Slot(j - n - n, n);
      assert Lap(j, n) == 1 + Lap(j - n, n) == 2 + Lap(j - n - n, n);
    } else if j >= n {
      assert Lap(j, n) == 1 + Lap(j - n, n) == 1;
    }
  }

  /** Reducing an index before adding to it changes nothing. */
  lemma {:induction false} SlotShift(p: nat, i: nat, m: nat)
    requires m > 0
    ensures Slot(Slot(p, m) + i, m) == Slot(p + i, m)
  {
    if p >= m {
      SlotShift(p - m, i, m);
      assert Slot(p + i, m) == Slot(p + i - m, m);
    }
  }

  lemma {:induction false} HalfShift(p: nat, i: nat, n: nat)
    requires n > 0
    ensures Slot(Slot(p, 2 * n) + i, n) == Slot(p + i, n)
  {
    SlotShift(Slot(p, 2 * n), i, n);
    DoubleIndex(p, n);
    SlotShift(p, i, n);
  }

  /** Where `d` entries ahead of index `c` lie, for a distance of at most one ring. */
  lemma IndexAhead(c: nat, d: nat, n: nat)
    requires 0 < n && d <= n
    ensures var s := Slot(c, 2 * n);
            Slot(c + d, 2 * n) == if s + d < 2 * n then s + d else s + d - 2 * n
  {
    SlotShift(c, d, 2 * n);
  }

  /** Conversion to uint8_t. */
  function U8(x: int): nat {
    x % 256
  }

  lemma U8Small(x: int)
    requires 0 <= x < 256
    ensures U8(x) == x
  {
  }

  /** qm_cyc_diff: every argument and the result are uint8_t. */
  function CycDiff(ringSize: nat, first: nat, last: nat): nat {
    var r, f, l := U8(ringSize), U8(first), U8(last);
    if f <= l then l - f else U8(2 * r + l - f)
  }

  lemma CycDiffSmall(n: nat, f: nat, l: nat)
    requires 2 * n <= 128 && f < 2 * n && l < 2 * n
    ensures CycDiff(n, f, l) == if f <= l then l - f else 2 * n + l - f
  {
    hide U8;
    U8Small(n);
    U8Small(f);
    U8Small(l);
    if f > l {
      U8Small(2 * n + l - f);
    }
  }

  /** The cyclic difference of two indices is the true distance whenever that is at most one ring. */
  lemma CycDiffExact(a: nat, b: nat, n: nat)
    requires 0 < n && 2 * n <= 128 && a <= b <= a + n
    ensures CycDiff(n, Slot(a, 2 * n), Slot(b, 2 * n)) == b - a
  {
    hide Slot;
    IndexAhead(a, b - a, n);
    CycDiffAhead(n, Slot(a, 2 * n), b - a);
  }

  lemma CycDiffAhead(n: nat, s: nat, d: nat)
    requires 0 < n && 2 * n <= 128 && s < 2 * n && d <= n
    ensures CycDiff(n, s, if s + d < 2 * n then s + d else s + d - 2 * n) == d
  {
    CycDiffSmall(n, s, if s + d < 2 * n then s + d else s + d - 2 * n);
  }

  // ------------------------------------------------------------------ masks

  /** The driver's half and full mask reduce an index to its slot and to its double-ring index. */
  lemma MaskSlot(x: nat, n: nat)
    requires RingSize(n)
    ensures And(x, n - 1) == Slot(x, n)
    ensures And(x, 2 * n - 1) == Slot(x, 2 * n)
    ensures (2 * n - 1) / 2 == n - 1
  {
    var k: nat :| IsPow2(n, k);
    AndLowMask(x, k);
    AndLowMask(x, k + 1);
  }

  /** One step of the producer index as the driver takes it: increment, mask, flip the polarity at slot 0. */
  lemma IndexStep(p: nat, n: nat, first: bool)
    requires RingSize(n)
    ensures And(Slot(p, 2 * n) + 1, 2 * n - 1) == Slot(p + 1, 2 * n)
    ensures var vb := ValidBit(Polarity(p, n, first));
            (if And(Slot(p + 1, 2 * n), n - 1) == 0 then Xor(vb, VALID_BIT) else vb)
            == ValidBit(Polarity(p + 1, n, first))
  {
    hide Slot, Lap, And, Xor, Polarity;
    MaskSlot(Slot(p, 2 * n) + 1, n);
    MaskSlot(Slot(p + 1, 2 * n), n);
    SlotShift(p, 1, 2 * n);
    DoubleIndex(p + 1, n);
    PolarityStep(p, n, first);
    XorValid(Polarity(p, n, first));
  }

  /** The batch loops let a copy of the index run past the mask; its low half is still the slot. */
  lemma BatchSlot(p: nat, i: nat, n: nat)
    requires RingSize(n)
    ensures And(Slot(p, 2 * n) + i, n - 1) == Slot(p + i, n)
    ensures And(Slot(p, 2 * n) + i, 2 * n - 1) == Slot(p + i, 2 * n)
  {
    MaskSlot(Slot(p, 2 * n) + i, n);
    HalfShift(p, i, n);
    SlotShift(p, i, 2 * n);
  }

  lemma BatchStep(p: nat, i: nat, n: nat, first: bool)
    requires RingSize(n)
    ensures var vb := ValidBit(Polarity(p + i, n, first));
            (if And(Slot(p, 2 * n) + i + 1, n - 1) == 0 then Xor(vb, VALID_BIT) else vb)
            == ValidBit(Polarity(p + i + 1, n, first))
  {
    BatchSlot(p, i + 1, n);
    PolarityStep(p + i, n, first);
    XorValid(Polarity(p + i, n, first));
  }

  // ------------------------------------------------------------------ the producer-index word

  /** What the memory-backed enqueue writes to the EQCR_PI register. */
  function PiWord(pi: nat, vb: nat): nat {
    Or(Or(RT_BIT, pi), vb)
  }

  lemma {:induction false} OrCommutes(a: nat, b: nat)
    ensures Or(a, b) == Or(b, a)
  {
    if a != 0 && b != 0 { OrCommutes(a / 2, b / 2); }
  }

  lemma {:induction false} SlotAddPow2(x: nat, m: nat, d: nat)
    ensures Slot(x + Pow2(m + d), Pow2(m)) == Slot(x, Pow2(m))
    decreases d
  {
    if d > 0 {
      SlotAddPow2(x, m, d - 1);
      SlotAddPow2(x + Pow2(m + d - 1), m, d - 1);
      assert Pow2(m + d) == 2 * Pow2(m + d - 1);
    }
  }

  lemma {:induction false} Pow2Below(k: nat, j: nat)
    requires Pow2(k) <= Pow2(j)
    ensures k <= j
  {
    if k > 0 && j > 0 {
      Pow2Below(k - 1, j - 1);
    }
  }

  lemma PiWordSum(pi: nat, p: bool)
    requires pi < 128
    ensures PiWord(pi, ValidBit(p)) == RT_BIT + pi + ValidBit(p)
  {
    hide Or, Bit;
    Powers();
    OrCommutes(RT_BIT, pi);
    OrPow2(pi, 8);
    BitEight(pi);
    PiWordBits(pi, false);
    OrValid(RT_BIT + pi, p);
  }

  lemma BitEight(w: nat)
    ensures Bit(w, 8) <==> (w / 256) % 2 == 1
  {
    BitSeven(w / 2);
    assert w / 2 / 128 == w / 256;
  }

  /** Multiples of 128 leave an index modulo 2N alone when 2N <= 128. */
  lemma HighBitsDrop(x: nat, n: nat)
    requires RingSize(n)
    ensures Slot(x + 128, 2 * n) == Slot(x, 2 * n) == Slot(x + 256, 2 * n)
  {
    var k: nat :| IsPow2(n, k);
    var m := k + 1;
    assert 2 * n == Pow2(m);
    Powers();
    Pow2Below(m, 7);
    SlotAddPow2(x, m, 7 - m);
    SlotAddPow2(x, m, 8 - m);
  }

  /** The three fields of the word do not overlap: it decodes uniquely for every ring with 2N <= 128. */
  lemma PiWordDecodes(pi: nat, p: bool, n: nat)
    requires RingSize(n) && pi < 2 * n
    ensures var w := PiWord(pi, ValidBit(p));
            And(w, 2 * n - 1) == pi && HasValid(w) == p && (w / 0x100) % 2 == 1
  {
    assert Slot(pi, 2 * n) == pi;
    hide Slot, And, PiWord, HasValid;
    PiWordSum(pi, p);
    MaskSlot(PiWord(pi, ValidBit(p)), n);
    HighBitsDrop(pi, n);
    HighBitsDrop(RT_BIT + pi, n);
    PiWordBits(pi, p);
  }

  lemma PiWordBits(pi: nat, p: bool)
    requires pi < 128
    ensures var w := RT_BIT + pi + ValidBit(p);
            HasValid(w) == p && (w / 0x100) % 2 == 1
  {
    var w := RT_BIT + pi + ValidBit(p);
    assert w / 128 == if p then 3 else 2;
    assert w / RT_BIT == 1;
  }

  // ------------------------------------------------------------------ set-up

  /** The mask loop of qbman_swp_init. */
  method PiCiMask(ringSize: nat) returns (mask: nat)
    requires exists k: nat :: IsPow2(ringSize, k)
    ensures mask == 2 * ringSize - 1
  {
    ghost var k: nat :| IsPow2(ringSize, k);
    mask := 0;
    var maskSize := ringSize;
    ghost var i := 0;
    while maskSize > 0
      invariant i <= k + 1
      invariant maskSize == if i <= k then Pow2(k - i) else 0
      invariant mask == Pow2(i) - 1
      decreases maskSize
    {
      mask := 2 * mask + 1;
      maskSize := maskSize / 2;
      i := i + 1;
    }
  }

  /** The initial credit computation of qbman_swp_init, for a mask of 2N-1. */
  function InitialCredit(n: nat, pi: nat, ci: nat): int
    requires n > 0
  {
    var shifted := 2 * (2 * n - 1);
    n - CycDiff(n, And(ci, shifted), And(pi, shifted))
  }

  lemma ShiftedMask(x: nat, n: nat)
    requires RingSize(n) && x < 2 * n
    ensures And(x, 2 * (2 * n - 1)) == 2 * (x / 2)
  {
    MaskSlot(x / 2, n);
    assert Slot(x / 2, 2 * n) == x / 2;
    assert And(x, 2 * (2 * n - 1)) == 2 * And(x / 2, 2 * n - 1) by {
      if x > 0 {
        assert (2 * (2 * n - 1)) / 2 == 2 * n - 1;
      }
    }
  }

  /**
   The shift drops bit 0 of both indices, so the initial credit is the number of free slots exactly when the
   indices the registers hold have the same parity.
   */
  lemma InitialCreditExact(p: nat, c: nat, n: nat)
    requires RingSize(n) && c <= p <= c + n
    ensures var pi, ci := Slot(p, 2 * n), Slot(c, 2 * n);
            InitialCredit(n, pi, ci) == n - (p - c) <==> pi % 2 == ci % 2
  {
    hide Slot, And, CycDiff;
    IndexAhead(c, p - c, n);
    CreditOfIndices(n, Slot(p, 2 * n), Slot(c, 2 * n), p - c);
  }

  lemma CreditOfIndices(n: nat, pi: nat, ci: nat, d: nat)
    requires RingSize(n) && pi < 2 * n && ci < 2 * n && d <= n
    requires pi == ci + d || pi + 2 * n == ci + d
    ensures InitialCredit(n, pi, ci) == n - d <==> pi % 2 == ci % 2
  {
    ShiftedMask(pi, n);
    ShiftedMask(ci, n);
    CycDiffSmall(n, 2 * (ci / 2), 2 * (pi / 2));
    EvenDifference(n, ci / 2, ci % 2, pi / 2, pi % 2, d);
  }

  lemma EvenDifference(n: nat, a: nat, x: nat, b: nat, y: nat, d: nat)
    requires x < 2 && y < 2 && d <= n
    requires 2 * b + y == 2 * a + x + d || 2 * b + y + 2 * n == 2 * a + x + d
    requires 2 * a + x < 2 * n && 2 * b + y < 2 * n
    ensures (if 2 * a <= 2 * b then 2 * b - 2 * a else 2 * n + 2 * b - 2 * a) == d <==> y == x
  {
  }
}
