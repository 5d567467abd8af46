/** The WRED threshold code: thresholds are pseudo-floats of a 5-bit exponent and an 8-bit mantissa. */
module Wred {
  import opened Bits
  import opened RingIndex

  /** The value of exponent `s` and mantissa `i`. */
  function Decode(s: nat, i: nat): nat {
    if s == 0 then i else (i + 256) * Pow2(s - 1)
  }

  predicate Before(s: nat, i: nat, t: nat, j: nat) {
    s < t || (s == t && i < j)
  }

  lemma DecodeDouble(s: nat, i: nat)
    requires s > 0
    ensures Decode(s + 1, i) == 2 * Decode(s, i)
  {
    assert (i + 256) * (2 * Pow2(s - 1)) == 2 * ((i + 256) * Pow2(s - 1));
  }

  /** Codes in lexicographic order have strictly increasing values. */
  lemma {:induction false} Monotone(s: nat, i: nat, t: nat, j: nat)
    requires i < 256 && j < 256 && Before(s, i, t, j)
    ensures Decode(s, i) < Decode(t, j)
    decreases t
  {
    if s == t {
      if s > 1 {
        DecodeDouble(s - 1, i);
        DecodeDouble(s - 1, j);
        Monotone(s - 1, i, s - 1, j);
      }
    } else if t > 1 {
      DecodeDouble(t - 1, j);
      if s > 1 {
        DecodeDouble(s - 1, i);
        Monotone(s - 1, i, t - 1, j);
      } else {
        Monotone(0, 255, t - 1, j);
      }
    }
  }

  lemma OrderExact(s: nat, i: nat, t: nat, j: nat)
    requires i < 256 && j < 256
    ensures Decode(s, i) <= Decode(t, j) <==> !Before(t, j, s, i)
  {
    if Before(t, j, s, i) {
      Monotone(t, j, s, i);
    } else if Before(s, i, t, j) {
      Monotone(s, i, t, j);
    }
  }

  /** Up to exponent 23 the int computation does not overflow. */
  lemma {:induction false} DecodeBelow(s: nat, i: nat)
    requires i < 256
    ensures Decode(s, i) < Pow2(s + 8)
  {
    if s == 0 {
      Powers();
    } else if s == 1 {
      Powers();
      assert Pow2(9) == 2 * Pow2(8) && Pow2(0) == 1;
    } else {
      DecodeDouble(s - 1, i);
      DecodeBelow(s - 1, i);
    }
  }

  // ------------------------------------------------------------------ every threshold has a code

  function Encode(x: nat): (code: (nat, nat))
    ensures code.1 < 256
  {
    if x < 256 then (0, x)
    else if x < 512 then (1, x - 256)
    else var c := Encode(x / 2); (c.0 + 1, c.1)
  }

  /** A threshold of k + 8 bits has a code of exponent at most k. */
  lemma {:induction false} EncodeFits(x: nat, k: nat)
    requires x < Pow2(k + 8)
    ensures Encode(x).0 <= k
    decreases k
  {
    Powers();
    if x >= 512 && k > 0 {
      EncodeFits(x / 2, k - 1);
    }
  }

  lemma {:induction false} EncodeExponent(x: nat)
    ensures (x >= 256 <==> Encode(x).0 > 0) && (x >= 512 <==> Encode(x).0 > 1)
  {
    if x >= 512 { EncodeExponent(x / 2); }
  }

  /** Coding then decoding rounds down, by nothing below 512 and by less than one part in 256 above. */
  lemma {:induction false} DecodeEncode(x: nat)
    ensures var v := Decode(Encode(x).0, Encode(x).1);
            v <= x && (x < 512 ==> v == x) && (x >= 256 ==> 256 * (x - v) < v)
  {
    if x >= 512 {
      DecodeEncode(x / 2);
      EncodeExponent(x / 2);
      DecodeDouble(Encode(x / 2).0, Encode(x / 2).1);
      Coarse(Encode(x / 2).0, Encode(x / 2).1, x / 2);
    }
  }

  /** The rounding error is below one unit of the last place, and a value is at least 256 units. */
  lemma {:induction false} Coarse(s: nat, i: nat, x: nat)
    requires s > 0 && Encode(x) == (s, i)
    ensures x < Decode(s, i) + Pow2(s - 1) && 256 * Pow2(s - 1) <= Decode(s, i)
    decreases s
  {
    assert (i + 256) * Pow2(s - 1) == i * Pow2(s - 1) + 256 * Pow2(s - 1);
    EncodeExponent(x);
    if s > 1 {
      Coarse(s - 1, i, x / 2);
      DecodeDouble(s - 1, i);
    }
  }

  /** Decoding then coding is the identity on codes. */
  lemma {:induction false} EncodeDecode(s: nat, i: nat)
    requires i < 256
    ensures Encode(Decode(s, i)) == (s, i)
  {
    if s == 1 {
      assert Pow2(0) == 1;
    } else if s > 1 {
      EncodeDecode(s - 1, i);
      DecodeDouble(s - 1, i);
      EncodeExponent(Decode(s - 1, i));
    }
  }

  /** No code comes closer to the threshold from below. */
  lemma BestFromBelow(x: nat, s: nat, i: nat)
    requires i < 256 && Decode(s, i) <= x
    ensures Decode(s, i) <= Decode(Encode(x).0, Encode(x).1)
  {
    EncodeMonotone(Decode(s, i), x);
    EncodeDecode(s, i);
    OrderExact(s, i, Encode(x).0, Encode(x).1);
  }

  lemma {:induction false} EncodeMonotone(x: nat, y: nat)
    requires x <= y
    ensures !Before(Encode(y).0, Encode(y).1, Encode(x).0, Encode(x).1)
    decreases y
  {
    if x >= 512 {
      EncodeMonotone(x / 2, y / 2);
    } else if y >= 512 {
      EncodeExponent(y);
      EncodeExponent(x);
    }
  }

  // ------------------------------------------------------------------ taking a dp word apart

  function U64(x: int): nat {
    x % 0x1_0000_0000_0000_0000
  }

  datatype Fields = Fields(ma: nat, mn: nat, stepI: nat, stepS: nat, pn: nat)

  /** The five fields as the driver's shifts and 8-bit casts extract them. */
  function Extract(dp: nat): Fields {
    Fields(U8(dp / 0x100_0000), And(U8(dp / 0x8_0000), 0x1f), U8(dp / 0x800), And(U8(dp / 0x40), 0x1f),
           And(U8(dp), 0x3f))
  }

  /** The fields are disjoint and cover the 32-bit word. */
  lemma ExtractRecomposes(dp: nat)
    requires dp < 0x1_0000_0000
    ensures var f := Extract(dp);
            && dp == f.ma * 0x100_0000 + f.mn * 0x8_0000 + f.stepI * 0x800 + f.stepS * 0x40 + f.pn
            && f.ma < 256 && f.mn < 32 && f.stepI < 256 && f.stepS < 32 && f.pn < 64
  {
    hide And, U8;
    Shifts(dp);
    var a := dp / 0x40;
    var b := a / 32;
    var c := b / 256;
    var d := c / 32;
    LowSix(dp);
    LowFive(a);
    LowEight(b);
    LowFive(c);
    LowEight(d);
  }

  lemma Shifts(dp: nat)
    ensures dp / 0x800 == dp / 0x40 / 32
    ensures dp / 0x8_0000 == dp / 0x40 / 32 / 256
    ensures dp / 0x100_0000 == dp / 0x40 / 32 / 256 / 32
  {
    assert dp / 0x800 == dp / 0x40 / 32;
    assert dp / 0x8_0000 == dp / 0x800 / 256;
    assert dp / 0x100_0000 == dp / 0x8_0000 / 32;
  }

  lemma LowFive(x: nat)
    ensures And(U8(x), 0x1f) < 32 && x == 32 * (x / 32) + And(U8(x), 0x1f)
  {
    hide And, Slot, Lap, Pow2, U8;
    Powers();
    LowEight(x);
    AndLowMask(U8(x), 5);
    SlotAndLap(U8(x), 32);
    LowPart(x / 256, Lap(U8(x), 32), And(U8(x), 0x1f), 32);
  }

  lemma LowSix(x: nat)
    ensures And(U8(x), 0x3f) < 64 && x == 64 * (x / 64) + And(U8(x), 0x3f)
  {
    hide And, Slot, Lap, Pow2, U8;
    Powers();
    LowEight(x);
    AndLowMask(U8(x), 6);
    SlotAndLap(U8(x), 64);
    LowPart(x / 256, Lap(U8(x), 64), And(U8(x), 0x3f), 64);
  }

  lemma LowPart(high: nat, mid: nat, low: nat, m: nat)
    requires (m == 32 || m == 64) && low < m
    ensures var x := 256 * high + m * mid + low; x == m * (x / m) + low
  {
    assert m == 32 ==> 256 * high + m * mid + low == 32 * (8 * high + mid) + low;
    assert m == 64 ==> 256 * high + m * mid + low == 64 * (4 * high + mid) + low;
  }

  lemma LowEight(x: nat)
    ensures U8(x) < 256 && x == 256 * (x / 256) + U8(x)
  {
  }

  /** qbman_cgr_attr_wred_dp_decompose, for exponents whose values an int can hold. */
  method DpDecompose(dp: nat) returns (minth: nat, maxth: nat, maxp: nat)
    requires dp < 0x1_0000_0000
    requires var f := Extract(dp); f.mn <= 23 && f.stepS <= 23
    ensures var f := Extract(dp);
            && maxth == Decode(f.mn, f.ma) < Pow2(31)
            && (minth <= maxth <==> !Before(f.mn, f.ma, f.stepS, f.stepI))
            && (minth <= maxth ==> minth + Decode(f.stepS, f.stepI) == maxth)
            && 64 * maxp <= 100 * f.pn < 64 * (maxp + 1)
  {
    var f := Extract(dp);
    hide Extract, And, U8, U64, Pow2, Decode, Before;
    FieldsFit(dp);
    maxp := Percent(f.pn);
    maxth := Threshold(f.mn, f.ma);
    var step := Threshold(f.stepS, f.stepI);
    Thresholds(f.mn, f.ma, f.stepS, f.stepI);
    minth := U64(maxth - step);
  }

  /** The two conditionals, one for the maximum and one for the step. */
  method Threshold(s: nat, i: nat) returns (x: nat)
    ensures x == Decode(s, i)
  {
    if s == 0 {
      x := i;
    } else {
      x := (i + 256) * Pow2(s - 1);
    }
  }

  lemma FieldsFit(dp: nat)
    requires dp < 0x1_0000_0000
    ensures Extract(dp).ma < 256 && Extract(dp).stepI < 256 && Extract(dp).pn < 64
  {
    ExtractRecomposes(dp);
  }

  /** The subtraction of the step from the maximum wraps exactly when the step's code is above the maximum's. */
  lemma Thresholds(mn: nat, ma: nat, stepS: nat, stepI: nat)
    requires mn <= 23 && stepS <= 23 && ma < 256 && stepI < 256
    ensures var maxth, step := Decode(mn, ma), Decode(stepS, stepI);
            var minth := U64(maxth - step);
            && maxth < Pow2(31)
            && (minth <= maxth <==> !Before(mn, ma, stepS, stepI))
            && (minth <= maxth ==> minth + step == maxth)
  {
    hide Pow2, Decode, Before, U64;
    DecodeFitsInt(mn, ma);
    DecodeFitsInt(stepS, stepI);
    SignBit();
    OrderExact(stepS, stepI, mn, ma);
    WrapExact(Decode(mn, ma), Decode(stepS, stepI));
  }

  /** The drop probability code, in 64ths, as whole percent. */
  method Percent(pn: nat) returns (maxp: nat)
    requires pn < 64
    ensures 64 * maxp <= 100 * pn < 64 * (maxp + 1)
  {
    U8Small(4 * pn * 100 / 256);
    maxp := U8(4 * pn * 100 / 256);
  }

  lemma WrapExact(a: nat, b: nat)
    requires a < 0x8000_0000 && b < 0x8000_0000
    ensures U64(a - b) == if b <= a then a - b else a - b + 0x1_0000_0000_0000_0000
  {
  }

  /** The int computation overflows exactly above exponent 23. */
  lemma DecodeFitsInt(s: nat, i: nat)
    requires i < 256
    ensures Decode(s, i) < Pow2(31) <==> s <= 23
  {
    if s <= 23 {
      DecodeBelow(s, i);
      PowMonotone(s + 8, 31);
    } else {
      LeastOverflow();
      OrderExact(24, 0, s, i);
    }
  }

  lemma LeastOverflow()
    ensures Decode(24, 0) == Pow2(31)
  {
    hide Pow2;
    Powers();
    Pow2Sum(23, 8);
  }

  /** A word whose maximum threshold an int cannot hold: exponent 24, mantissa 0. */
  lemma OverflowWord()
    ensures var f := Extract(24 * 0x8_0000); f == Fields(0, 24, 0, 0, 0) && Decode(f.mn, f.ma) == Pow2(31)
  {
    hide Extract, And, U8;
    LeastOverflow();
    ExtractRecomposes(24 * 0x8_0000);
  }

  lemma {:induction false} PowMonotone(a: nat, b: nat)
    requires a <= b
    ensures Pow2(a) <= Pow2(b)
  {
    if a < b { PowMonotone(a, b - 1); }
  }
}
