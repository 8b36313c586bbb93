/** The operators `&` and `|` on unsigned numbers, bit by bit, and their closed forms
    for masks and for parts that do not overlap. */
module Bits {
  import opened Machine
  import opened Numerals

  /** The last bit of a and b combined. */
  function Bit(a: nat, b: nat, both: bool): nat { if both then Min(a % 2, b % 2) else Max(a % 2, b % 2) }

  /** The bits of a and b combined: those set in both, or those set in either. */
  function Bitwise(a: nat, b: nat, both: bool): nat
    decreases a + b
  {
    if a == 0 && b == 0 then 0
    else 2 * Bitwise(a / 2, b / 2, both) + Bit(a, b, both)
  }

  function And(a: nat, b: nat): nat { Bitwise(a, b, true) }

  function Or(a: nat, b: nat): nat { Bitwise(a, b, false) }

  lemma LastBit(a: nat, b: nat, both: bool)
    ensures Bitwise(a, b, both) == 2 * Bitwise(a / 2, b / 2, both) + Bit(a, b, both)
  {
  }

  lemma Halves(a: nat, high: nat, low: nat, p: nat, power: nat)
    requires power == 2 * p && a == high * power + low
    ensures a / 2 == high * p + low / 2 && a % 2 == low % 2
  {
    assert high * power == 2 * (high * p);
  }

  lemma Doubled(x: nat, p: nat, power: nat, y: nat)
    requires power == 2 * p
    ensures 2 * (x * p + y) == x * power + 2 * y
  {
    assert x * power == 2 * (x * p);
  }

  /** High and low bits are combined apart. */
  lemma {:induction false} Split(a: nat, b: nat, ah: nat, al: nat, bh: nat, bl: nat, both: bool, k: nat, power: nat)
    requires power == Pow(2, k) && al < power && bl < power
    requires a == ah * power + al && b == bh * power + bl
    ensures Bitwise(a, b, both) == Bitwise(ah, bh, both) * power + Bitwise(al, bl, both)
  {
    if k > 0 {
      var p := Pow(2, k - 1);
      Halves(a, ah, al, p, power);
      Halves(b, bh, bl, p, power);
      Split(a / 2, b / 2, ah, al / 2, bh, bl / 2, both, k - 1, p);
      LastBit(a, b, both);
      LastBit(al, bl, both);
      Doubled(Bitwise(ah, bh, both), p, power, Bitwise(al / 2, bl / 2, both));
    }
  }

  /** Zeros keep the bits under `|` and clear them under `&`. */
  lemma {:induction false} Zeros(a: nat)
    ensures Or(a, 0) == Or(0, a) == a && And(a, 0) == 0
  {
    if a > 0 {
      Zeros(a / 2);
      LastBit(a, 0, true);
    }
  }

  /** Ones do the opposite. */
  lemma {:induction false} Ones(a: nat, k: nat, power: nat)
    requires power == Pow(2, k) && a < power
    ensures Or(a, power - 1) == power - 1 && And(a, power - 1) == a
  {
    if k > 0 {
      var p := Pow(2, k - 1);
      assert power == 2 * p && (power - 1) / 2 == p - 1 && (power - 1) % 2 == 1;
      Ones(a / 2, k - 1, p);
      LastBit(a, power - 1, true);
      LastBit(a, power - 1, false);
    }
  }

  lemma Powers()
    ensures Pow(2, 4) == 16 && Pow(2, 8) == 0x100 && Pow(2, 16) == 0x1_0000
  {
    PowOne(2);
    PowProduct(2, 1, 2, 1, 2, 4);
    PowProduct(2, 2, 4, 2, 4, 16);
    PowProduct(2, 4, 16, 4, 16, 256);
    PowProduct(2, 8, 256, 8, 256, 65536);
  }

  lemma LowNibble(x: nat)
    requires x < 0x100
    ensures And(x, 0x0F) == x % 16
  {
    Powers();
    Split(x, 0x0F, x / 16, x % 16, 0, 0x0F, true, 4, 16);
    Zeros(x / 16);
    Ones(x % 16, 4, 16);
  }

  /** The high half of a byte; higher bits are masked out. */
  lemma HighNibble(x: nat, high: nat, top: nat, low: nat)
    requires x == (top * 16 + high) * 16 + low && high < 16 && low < 16
    ensures And(x, 0xF0) == high * 16
  {
    Powers();
    Split(x, 0xF0, top * 16 + high, low, 15, 0, true, 4, 16);
    Split(top * 16 + high, 15, top, high, 0, 15, true, 4, 16);
    Zeros(top);
    Ones(high, 4, 16);
    Zeros(low);
  }

  lemma JoinNibbles(high: nat, low: nat)
    requires low < 16
    ensures Or(high * 16, low) == high * 16 + low
  {
    Powers();
    Split(high * 16, low, high, 0, 0, low, false, 4, 16);
    Zeros(high);
    Zeros(low);
  }

  /** A high byte joined with a longer number, as far as 16 bits show it. */
  lemma LowBytes(a: nat, b: nat, high: nat, top: nat, mid: nat, low: nat)
    requires high < 0x100 && mid < 0x100 && low < 0x100
    requires a == high * 0x100 && b == top * 0x1_0000 + (mid * 0x100 + low)
    requires Or(high, mid) < 0x100
    ensures Or(a, b) % 0x1_0000 == Or(high, mid) * 0x100 + low
  {
    Powers();
    Split(a, b, 0, a, top, mid * 0x100 + low, false, 16, 0x1_0000);
    Split(a, mid * 0x100 + low, high, 0, mid, low, false, 8, 0x100);
    Zeros(low);
    ModUnique(Or(a, b), 0x1_0000, Or(0, top), Or(high, mid) * 0x100 + low);
  }
}
