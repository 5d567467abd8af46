/**
 The C bit operators on unsigned words, written out on the naturals.  The driver applies them to 32-bit
 values; every use below keeps its result in range, so no wrap-around is hidden by the unbounded type.
 */
module Bits {

  const VALID_BIT := 0x80
  const RT_BIT := 0x100

  /** The unsigned integers of C. */
  type Uint8 = x: nat | x < 0x100
  type Uint16 = x: nat | x < 0x1_0000
  type Uint32 = x: nat | x < 0x1_0000_0000
  type Uint64 = x: nat | x < 0x1_0000_0000_0000_0000

  function Pow2(k: nat): (p: nat)
    ensures p > 0
  {
    if k == 0 then 1 else 2 * Pow2(k - 1)
  }

  function And(a: nat, b: nat): nat {
    if a == 0 || b == 0 then 0 else 2 * And(a / 2, b / 2) + (a % 2) * (b % 2)
  }

  function Or(a: nat, b: nat): nat {
    if a == 0 then b else if b == 0 then a
    else 2 * Or(a / 2, b / 2) + (if a % 2 == 1 || b % 2 == 1 then 1 else 0)
  }

  function Xor(a: nat, b: nat): nat {
    if a == 0 then b else if b == 0 then a
    else 2 * Xor(a / 2, b / 2) + (if a % 2 != b % 2 then 1 else 0)
  }

  /** Bit `k` of `a`. */
  predicate Bit(a: nat, k: nat) {
    if k == 0 then a % 2 == 1 else Bit(a / 2, k - 1)
  }

  /** The valid bit of a command or result word: bit 7 of its first byte. */
  predicate HasValid(w: nat) {
    (w / 128) % 2 == 1
  }

  /** How the driver encodes a polarity in its valid_bit fields. */
  function ValidBit(p: bool): nat {
    if p then VALID_BIT else 0
  }

  /** A single-bit mask extracts that bit. */
  lemma {:induction false} AndPow2(a: nat, k: nat)
    ensures And(a, Pow2(k)) == if Bit(a, k) then Pow2(k) else 0
  {
    if k == 0 {
      assert And(a / 2, 0) == 0;
    } else if a == 0 {
      AndPow2(0, k - 1);
    } else {
      AndPow2(a / 2, k - 1);
      assert Pow2(k) / 2 == Pow2(k - 1) && Pow2(k) % 2 == 0;
    }
  }

  /** Or-ing in a bit adds it exactly when it was clear. */
  lemma {:induction false} OrPow2(a: nat, k: nat)
    ensures Or(a, Pow2(k)) == if Bit(a, k) then a else a + Pow2(k)
  {
    if a == 0 {
      ZeroHasNoBits(k);
    } else if k == 0 {
      assert Or(a / 2, 0) == a / 2;
    } else {
      OrPow2(a / 2, k - 1);
      assert Pow2(k) / 2 == Pow2(k - 1) && Pow2(k) % 2 == 0;
    }
  }

  lemma {:induction false} ZeroHasNoBits(k: nat)
    ensures !Bit(0, k)
  {
    if k > 0 { ZeroHasNoBits(k - 1); }
  }

  /** `j` reduced modulo `n`, by repeated subtraction: the position of the j-th entry in a ring of `n`. */
  function Slot(j: nat, n: nat): (r: nat)
    requires n > 0
    ensures r < n
  {
    if j < n then j else Slot(j - n, n)
  }

  /** How often a ring of `n` was filled before its j-th entry. */
  function Lap(j: nat, n: nat): nat
    requires n > 0
  {
    if j < n then 0 else 1 + Lap(j - n, n)
  }

  /** Slot and lap are remainder and quotient. */
  lemma {:induction false} SlotAndLap(j: nat, n: nat)
    requires n > 0
    ensures j == n * Lap(j, n) + Slot(j, n)
  {
    if j >= n {
      SlotAndLap(j - n, n);
      assert n * (1 + Lap(j - n, n)) == n + n * Lap(j - n, n);
    }
  }

  /** A mask of low ones reduces modulo the power of two above it. */
  lemma {:induction false} AndLowMask(a: nat, k: nat)
    ensures And(a, Pow2(k) - 1) == Slot(a, Pow2(k))
    decreases k
  {
    if k > 0 {
      var m := Pow2(k - 1);
      AndLowMask(a / 2, k - 1);
      SlotOfHalf(a, m);
      if m == 1 || a == 0 {
        assert And(a / 2, 0) == 0;
      } else {
        assert (2 * m - 1) / 2 == m - 1 && (2 * m - 1) % 2 == 1;
      }
    } else {
      SlotOfOne(a);
    }
  }

  lemma {:induction false} SlotOfOne(a: nat)
    ensures Slot(a, 1) == 0
  {
    if a > 0 { SlotOfOne(a - 1); }
  }

  lemma {:induction false} SlotOfHalf(a: nat, m: nat)
    requires m > 0
    ensures Slot(a, 2 * m) == 2 * Slot(a / 2, m) + a % 2
  {
    if a >= 2 * m {
      SlotOfHalf(a - 2 * m, m);
      assert (a - 2 * m) / 2 == a / 2 - m;
    }
  }

  /** Reading the valid bit with the driver's mask. */
  lemma AndValid(w: nat)
    ensures And(w, VALID_BIT) == ValidBit(HasValid(w))
  {
    assert VALID_BIT == Pow2(7) by { Powers(); }
    AndPow2(w, 7);
    BitSeven(w);
  }

  /** Substituting the valid bit into a word that leaves it clear. */
  lemma OrValid(w: nat, p: bool)
    requires !HasValid(w)
    ensures Or(w, ValidBit(p)) == w + ValidBit(p)
    ensures HasValid(Or(w, ValidBit(p))) == p
  {
    Powers();
    OrPow2(w, 7);
    BitSeven(w);
    assert Or(w, 128) == w + 128;
    NextBlock(w);
  }

  lemma NextBlock(w: nat)
    ensures (w + 128) / 128 == w / 128 + 1
  {
  }

  lemma ShiftSeven(w: nat, k: nat)
    ensures Bit(w, k + 7) == Bit(w / 128, k)
  {
    assert Bit(w, k + 7) == Bit(w / 2, k + 6) == Bit(w / 2 / 2, k + 5) == Bit(w / 2 / 2 / 2, k + 4);
    assert Bit(w / 2 / 2 / 2, k + 4) == Bit(w / 2 / 2 / 2 / 2, k + 3) == Bit(w / 2 / 2 / 2 / 2 / 2, k + 2);
    assert Bit(w / 2 / 2 / 2 / 2 / 2, k + 2) == Bit(w / 2 / 2 / 2 / 2 / 2 / 2, k + 1);
    assert Bit(w / 2 / 2 / 2 / 2 / 2 / 2, k + 1) == Bit(w / 2 / 2 / 2 / 2 / 2 / 2 / 2, k);
    assert w / 2 / 2 / 2 / 2 / 2 / 2 / 2 == w / 128;
  }

  lemma TopBit(w: nat)
    ensures Bit(w, 31) <==> (w / 0x8000_0000) % 2 == 1
  {
    ShiftSeven(w, 24);
    ShiftSeven(w / 128, 17);
    ShiftSeven(w / 128 / 128, 10);
    var v := w / 128 / 128 / 128;
    assert Bit(v, 10) == Bit(v / 2, 9) == Bit(v / 2 / 2, 8) == Bit(v / 2 / 2 / 2, 7);
    BitSeven(v / 2 / 2 / 2);
    assert v == w / 0x20_0000 && v / 2 / 2 / 2 == w / 0x100_0000 && w / 0x8000_0000 == w / 0x100_0000 / 128;
  }

  lemma BitSeven(w: nat)
    ensures Bit(w, 7) == HasValid(w)
  {
    assert Bit(w, 7) == Bit(w / 2, 6) == Bit(w / 2 / 2, 5) == Bit(w / 2 / 2 / 2, 4);
    assert Bit(w / 2 / 2 / 2, 4) == Bit(w / 2 / 2 / 2 / 2, 3) == Bit(w / 2 / 2 / 2 / 2 / 2, 2);
    assert Bit(w / 2 / 2 / 2 / 2 / 2, 2) == Bit(w / 2 / 2 / 2 / 2 / 2 / 2, 1) == Bit(w / 2 / 2 / 2 / 2 / 2 / 2 / 2, 0);
    assert w / 2 / 2 / 2 / 2 / 2 / 2 / 2 == w / 128;
  }

  lemma BitSix(d: nat)
    ensures Bit(d, 6) <==> (d / 64) % 2 == 1
  {
    BitSeven(2 * d);
    assert Bit(2 * d, 7) == Bit(2 * d / 2, 6);
    assert 2 * d / 128 == d / 64;
  }

  lemma Powers()
    ensures Pow2(1) == 2 && Pow2(2) == 4 && Pow2(3) == 8 && Pow2(4) == 16 && Pow2(5) == 32
    ensures Pow2(6) == 64 && Pow2(7) == 128 && Pow2(8) == 256
  {
    assert Pow2(2) == 2 * Pow2(1);
    assert Pow2(4) == 2 * Pow2(3) && Pow2(6) == 2 * Pow2(5);
  }

  /** Or is addition when the low operand fits below the high one. */
  lemma {:induction false} OrDisjoint(a: nat, b: nat, k: nat)
    requires b < Pow2(k)
    ensures Or(Pow2(k) * a, b) == Pow2(k) * a + b
    decreases k
  {
    hide Or;
    if k > 0 {
      var m := Pow2(k - 1);
      OrDisjoint(a, b / 2, k - 1);
      hide Pow2;
      assert 2 * m * a == 2 * (m * a);
      OrOfEven(m * a, b);
    } else {
      OrZero(a);
    }
  }

  lemma OrZero(a: nat)
    ensures Or(a, 0) == a
  {
  }

  lemma OrOfEven(x: nat, b: nat)
    ensures Or(2 * x, b) == 2 * Or(x, b / 2) + b % 2
  {
    if x > 0 && b > 0 {
      assert 2 * x / 2 == x && 2 * x % 2 == 0;
    }
  }

  lemma {:induction false} Pow2Sum(a: nat, b: nat)
    ensures Pow2(a + b) == Pow2(b) * Pow2(a)
  {
    if b > 0 { Pow2Sum(a, b - 1); }
  }

  lemma SignBit()
    ensures Pow2(31) == 0x8000_0000
  {
    Powers();
    Pow2Sum(8, 8);
    Pow2Sum(16, 8);
    Pow2Sum(24, 7);
  }

  lemma {:induction false} OwnBit(k: nat)
    ensures Bit(Pow2(k), k)
  {
    if k > 0 { OwnBit(k - 1); }
  }

  /** The polarity flip `^= QB_VALID_BIT`. */
  lemma XorValid(p: bool)
    ensures Xor(ValidBit(p), VALID_BIT) == ValidBit(!p)
  {
    assert Xor(128, 128) == 2 * Xor(64, 64) == 4 * Xor(32, 32) == 8 * Xor(16, 16);
    assert Xor(16, 16) == 2 * Xor(8, 8) == 4 * Xor(4, 4) == 8 * Xor(2, 2) == 16 * Xor(1, 1) == 0;
  }
}
