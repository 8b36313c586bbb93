/** Numerals in the four bases the formatter knows, and how they are read. */
module Numerals {
  import opened Machine

  predicate IsBase(b: int) { b == 2 || b == 8 || b == 10 || b == 16 }

  function Pow(b: nat, e: nat): (r: nat)
    ensures b > 0 ==> r > 0
  {
    if e == 0 then 1 else b * Pow(b, e - 1)
  }

  function DigitChar(d: nat, upper: bool): (c: cchar)
    requires d < 16
    ensures c != ' ' && c != '-' && c != '+' && c != 'x' && c != 'X' && c != NUL
    ensures c == '0' <==> d == 0
    ensures DigitValue(c) == d
  {
    if d < 10 then ('0' as int + d) as char
    else ((if upper then 'A' else 'a') as int + d - 10) as char
  }

  /** The value of a digit character; 16 for any other character. */
  function DigitValue(c: cchar): nat {
    if '0' <= c <= '9' then c as int - '0' as int
    else if 'a' <= c <= 'f' then c as int - 'a' as int + 10
    else if 'A' <= c <= 'F' then c as int - 'A' as int + 10
    else 16
  }

  predicate AllDigits(s: Text, base: nat) {
    forall i :: 0 <= i < |s| ==> DigitValue(s[i]) < base
  }

  /** A numeral read from the left, as in `strtoull`. */
  function Value(s: Text, base: nat): nat
  {
    if s == [] then 0 else Value(s[..|s| - 1], base) * base + DigitValue(s[|s| - 1])
  }

  /** The numeral of v, most significant digit first, without leading zeros. */
  function Numeral(v: nat, base: nat, upper: bool): (s: Text)
    requires IsBase(base)
    ensures |s| > 0
  {
    if v < base then [DigitChar(v, upper)] else Numeral(v / base, base, upper) + [DigitChar(v % base, upper)]
  }

  /** The digits the conversion loop leaves in a buffer with `room` free places:
      least significant first, stopping when the value or the room runs out. */
  function Digits(v: nat, base: nat, upper: bool, room: nat): (s: Text)
    requires IsBase(base) && room > 0
    ensures 0 < |s| <= room
  {
    if v / base == 0 || room == 1 then [DigitChar(v % base, upper)]
    else [DigitChar(v % base, upper)] + Digits(v / base, base, upper, room - 1)
  }

  function Reverse(s: Text): (r: Text)
    ensures |r| == |s| && forall i :: 0 <= i < |s| ==> r[i] == s[|s| - 1 - i]
  {
    seq(|s|, i requires 0 <= i < |s| => s[|s| - 1 - i])
  }

  lemma ReverseConcat(a: Text, b: Text)
    ensures Reverse(a + b) == Reverse(b) + Reverse(a)
  {
  }

  lemma ReverseFirst(c: cchar, s: Text)
    ensures Reverse([c]) == [c]
    ensures Reverse([c] + s) == Reverse(s) + [c]
  {
  }

  lemma ReverseChars(c: cchar, n: nat)
    ensures Reverse(Chars(c, n)) == Chars(c, n)
  {
  }

  lemma MulGap(a: int, b: int, n: nat)
    requires a < b
    ensures a * n + n <= b * n
  {
    assert a * n + n == (a + 1) * n;
  }

  /** Quotient and remainder are unique. */
  lemma ModUnique(v: int, n: nat, k: int, r: nat)
    requires v == k * n + r && r < n
    ensures v / n == k && v % n == r
  {
    var q := v / n;
    if q > k {
      MulGap(k, q, n);
    } else if q < k {
      MulGap(q, k, n);
    }
  }

  lemma ModTrivial(q: nat, p: nat)
    requires p == 1 || q == 0 < p
    ensures q % p == 0
  {
  }

  lemma DivSmall(v: nat, base: nat)
    requires IsBase(base)
    ensures v < base ==> v / base == 0
    ensures v >= base ==> v / base < v
  {
    if base == 2 {} else if base == 8 {} else if base == 10 {}
  }

  lemma Regroup(k: nat, p: nat, m: nat, base: nat)
    ensures (k * p + m) * base == k * (base * p) + m * base
  {
  }

  lemma DivModIs(v: nat, n: nat)
    requires n > 0
    ensures v == v / n * n + v % n && 0 <= v % n < n && 0 <= v / n
  {
  }

  /** The remainder modulo base * p, from the quotient and remainder by base. */
  lemma DivPow(v: nat, base: nat, p: nat, power: nat)
    requires base > 0 && p > 0 && power == base * p
    ensures power > 0
    ensures v % power == (v / base) % p * base + v % base
    ensures v < power <==> v / base < p
  {
    DivModIs(v, base);
    DivModIs(v / base, p);
    DivPowParts(v, base, p, power, v / base, v % base, v / base / p, (v / base) % p, (v / base) % p * base);
  }

  lemma DivPowParts(v: nat, base: nat, p: nat, power: nat, q: nat, r: nat, k: nat, m: nat, mb: nat)
    requires v == q * base + r && r < base && q == k * p + m && m < p
    requires power == base * p && mb == m * base
    ensures power > 0 && v % power == mb + r
    ensures v < power <==> q < p
  {
    MulGap(m, p, base);
    Regroup(k, p, m, base);
    ModUnique(v, power, k, mb + r);
    if q < p {
      MulGap(q, p, base);
    } else if q > p {
      MulGap(p, q, base);
    }
  }

  /** Reading one more digit. */
  lemma ValueSnoc(s: Text, c: cchar, base: nat)
    requires AllDigits(s, base) && DigitValue(c) < base
    ensures AllDigits(s + [c], base)
    ensures Value(s + [c], base) == Value(s, base) * base + DigitValue(c)
  {
    assert (s + [c])[..|s|] == s;
  }

  lemma DivMod(v: nat, base: nat, q: nat, d: nat, r: nat)
    requires base > 0 && q == v / base && d == v % base && r == q * base + d
    ensures r == v
  {
  }

  lemma NumeralStep(v: nat, base: nat, high: Text, c: cchar)
    requires base > 0 && AllDigits(high, base) && Value(high, base) == v / base && DigitValue(c) == v % base
    ensures AllDigits(high + [c], base)
    ensures Value(high + [c], base) == v
  {
    ValueSnoc(high, c, base);
    DivMod(v, base, Value(high, base), DigitValue(c), Value(high + [c], base));
  }

  lemma DecodeStep(v: nat, base: nat, p: nat, power: nat, high: Text, c: cchar)
    requires base > 0 && p > 0 && power == base * p && AllDigits(high, base) && DigitValue(c) == v % base
    requires Value(high, base) == (v / base) % p
    ensures power > 0 && AllDigits(high + [c], base)
    ensures Value(high + [c], base) == v % power
  {
    DivPow(v, base, p, power);
    ValueSnoc(high, c, base);
  }

  lemma ReverseDigits(v: nat, base: nat, upper: bool, room: nat)
    requires IsBase(base) && room > 0
    ensures v / base == 0 || room == 1 ==> Reverse(Digits(v, base, upper, room)) == [DigitChar(v % base, upper)]
    ensures v / base != 0 && room > 1 ==>
      Reverse(Digits(v, base, upper, room))
      == Reverse(Digits(v / base, base, upper, room - 1)) + [DigitChar(v % base, upper)]
  {
    ReverseFirst(DigitChar(v % base, upper),
                 if v / base == 0 || room == 1 then [] else Digits(v / base, base, upper, room - 1));
  }

  /** The digits decode to the value modulo base^room. */
  lemma {:induction false} DigitsDecode(v: nat, base: nat, upper: bool, room: nat)
    requires IsBase(base) && room > 0
    ensures AllDigits(Reverse(Digits(v, base, upper, room)), base)
    ensures Value(Reverse(Digits(v, base, upper, room)), base) == v % Pow(base, room)
  {
    var q, p := v / base, Pow(base, room - 1);
    var c := DigitChar(v % base, upper);
    ReverseDigits(v, base, upper, room);
    if q == 0 || room == 1 {
      ModTrivial(q, p);
      LastDigit(v, base, p, Pow(base, room), c);
    } else {
      DigitsDecode(q, base, upper, room - 1);
      DecodeStep(v, base, p, Pow(base, room), Reverse(Digits(q, base, upper, room - 1)), c);
    }
  }

  lemma LastDigit(v: nat, base: nat, p: nat, power: nat, c: cchar)
    requires base > 0 && p > 0 && power == base * p && DigitValue(c) == v % base && (v / base) % p == 0
    ensures power > 0 && AllDigits([c], base)
    ensures Value([c], base) == v % power
  {
    DivPow(v, base, p, power);
    assert [c][..0] == [];
  }

  /** With enough room the digits are the numeral; otherwise all room is used. */
  lemma {:induction false} DigitsAreNumeral(v: nat, base: nat, upper: bool, room: nat)
    requires IsBase(base) && room > 0
    ensures v < Pow(base, room) <==> |Numeral(v, base, upper)| <= room
    ensures v < Pow(base, room) ==> Reverse(Digits(v, base, upper, room)) == Numeral(v, base, upper)
    ensures v >= Pow(base, room) ==> |Digits(v, base, upper, room)| == room
  {
    ReverseDigits(v, base, upper, room);
    FitsOneMore(v, base, Pow(base, room - 1), Pow(base, room));
    if v >= base && room > 1 {
      DigitsAreNumeral(v / base, base, upper, room - 1);
    }
  }

  lemma DigitsThatFit(v: nat, base: nat, upper: bool, room: nat)
    requires IsBase(base) && room > 0
    ensures var digits, numeral := Digits(v, base, upper, room), Numeral(v, base, upper);
      if |numeral| <= room then Reverse(digits) == numeral else |digits| == room
  {
    DigitsAreNumeral(v, base, upper, room);
  }

  lemma FitsOneMore(v: nat, base: nat, p: nat, power: nat)
    requires IsBase(base) && p > 0 && power == base * p
    ensures v < power <==> v / base < p
    ensures v < base <==> v / base == 0
    ensures v < base ==> v % base == v
  {
    DivPow(v, base, p, power);
    DivSmall(v, base);
  }

  /** A numeral reads back as its value. */
  lemma {:induction false} NumeralReads(v: nat, base: nat, upper: bool)
    requires IsBase(base)
    ensures AllDigits(Numeral(v, base, upper), base)
    ensures Value(Numeral(v, base, upper), base) == v
  {
    var q, c := v / base, DigitChar(v % base, upper);
    DivSmall(v, base);
    if v < base {
      assert [c][..0] == [];
    } else {
      NumeralReads(q, base, upper);
      NumeralStep(v, base, Numeral(q, base, upper), c);
    }
  }

  /** A numeral has no superfluous leading zero, and none of its characters is a
      space or a sign. */
  lemma {:induction false} NumeralIsTight(v: nat, base: nat, upper: bool)
    requires IsBase(base)
    ensures Numeral(v, base, upper)[0] == '0' <==> v == 0
    ensures forall c <- Numeral(v, base, upper) :: c != ' ' && c != '-' && c != '+'
  {
    if v >= base {
      NumeralIsTight(v / base, base, upper);
    }
  }

  /** Leading zeros do not change the value read. */
  lemma {:induction false} LeadingZeros(n: nat, s: Text, base: nat)
    requires IsBase(base) && AllDigits(s, base)
    ensures AllDigits(Chars('0', n) + s, base)
    ensures Value(Chars('0', n) + s, base) == Value(s, base)
  {
    var t := Chars('0', n) + s;
    if s != [] {
      LeadingZeros(n, s[..|s| - 1], base);
      assert t[..|t| - 1] == Chars('0', n) + s[..|s| - 1];
    } else if n > 0 {
      LeadingZeros(n - 1, s, base);
      assert t[..|t| - 1] == Chars('0', n - 1) + s;
    }
  }

  lemma {:induction false} PowAdd(b: nat, m: nat, n: nat)
    ensures Pow(b, m + n) == Pow(b, m) * Pow(b, n)
  {
    if m > 0 {
      PowAdd(b, m - 1, n);
      OneMoreFactor(b, Pow(b, m - 1), Pow(b, n), Pow(b, m - 1 + n), Pow(b, m), Pow(b, m + n));
    }
  }

  lemma OneMoreFactor(b: nat, x: nat, y: nat, product: nat, bx: nat, r: nat)
    requires product == x * y && bx == b * x && r == b * product
    ensures r == bx * y
  {
  }

  lemma {:induction false} PowMonotonic(a: nat, b: nat, e: nat)
    requires a <= b
    ensures Pow(a, e) <= Pow(b, e)
  {
    if e > 0 {
      PowMonotonic(a, b, e - 1);
      MulLess(a, b, Pow(a, e - 1), Pow(b, e - 1));
    }
  }

  /** The value of a text from the values of its parts. */
  lemma {:induction false} ValueConcat(a: Text, b: Text, base: nat)
    ensures Value(a + b, base) == Value(a, base) * Pow(base, |b|) + Value(b, base)
    decreases |b|
  {
    if b == [] {
      assert a + b == a && Pow(base, |b|) == 1;
    } else {
      var n := |b| - 1;
      ValueConcat(a, b[..n], base);
      assert (a + b)[..|a + b| - 1] == a + b[..n];
      HornerStep(Value(a, base), Pow(base, n), Value(b[..n], base), DigitValue(b[n]), base);
    }
  }

  lemma HornerStep(a: nat, q: nat, b: nat, d: nat, base: nat)
    ensures (a * q + b) * base + d == a * (base * q) + (b * base + d)
  {
  }

  /** A text that does not begin with zero has a positive value. */
  lemma {:induction false} ValuePositive(s: Text, base: nat)
    requires base > 0 && s != [] && s[0] != '0'
    ensures Value(s, base) > 0
  {
    if |s| == 1 {
      assert s[..0] == [];
      assert DigitValue(s[0]) > 0;
    } else {
      var n := |s| - 1;
      ValuePositive(s[..n], base);
      MulLess(1, Value(s[..n], base), 1, base);
    }
  }

  lemma MulLess(a: nat, b: nat, x: nat, y: nat)
    requires a <= b && x <= y
    ensures a * x <= b * y
  {
    assert a * x <= a * y;
    assert a * y <= b * y;
  }

  lemma PowProduct(b: nat, m: nat, x: nat, n: nat, y: nat, z: nat)
    requires Pow(b, m) == x && Pow(b, n) == y && x * y == z
    ensures Pow(b, m + n) == z
  {
    PowAdd(b, m, n);
  }

  lemma PowOne(b: nat)
    ensures Pow(b, 1) == b
  {
    assert Pow(b, 0) == 1;
  }

  lemma PowTwo32()
    ensures Pow(2, 32) == TWO32
  {
    PowOne(2);
    PowProduct(2, 1, 2, 1, 2, 4);
    PowProduct(2, 2, 4, 2, 4, 16);
    PowProduct(2, 4, 16, 4, 16, 256);
    PowProduct(2, 8, 256, 8, 256, 65536);
    PowProduct(2, 16, 65536, 16, 65536, 0x1_0000_0000);
  }

  lemma PowEight24()
    ensures Pow(8, 24) > TWO64 && Pow(8, 32) > TWO64
  {
    PowOne(8);
    PowProduct(8, 1, 8, 1, 8, 64);
    PowProduct(8, 2, 64, 2, 64, 0x1000);
    PowProduct(8, 4, 0x1000, 4, 0x1000, 0x100_0000);
    PowProduct(8, 8, 0x100_0000, 8, 0x100_0000, 0x1_0000_0000_0000);
    PowProduct(8, 16, 0x1_0000_0000_0000, 8, 0x100_0000, 0x100_0000_0000_0000_0000);
    PowProduct(8, 24, 0x100_0000_0000_0000_0000, 8, 0x100_0000, 0x1_0000_0000_0000_0000_0000_0000);
  }

  /** 2^32 is where binary numerals outgrow 32 digits; other numerals of 64-bit
      values stay within 24 digits. */
  lemma PowBounds(base: nat)
    requires IsBase(base)
    ensures base == 2 ==> Pow(base, 32) == TWO32
    ensures base != 2 ==> Pow(base, 24) > TWO64 && Pow(base, 32) > TWO64
  {
    if base == 2 {
      PowTwo32();
    } else {
      PowEight24();
      PowMonotonic(8, base, 24);
      PowMonotonic(8, base, 32);
    }
  }
}
