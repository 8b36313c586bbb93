/** `_ftoa` (libc/stdio.c) for magnitudes up to 1e9 and precisions up to 9, over exact
    reals: rounding, layout, and exactly when the printed number is a nearest one. */
module FixedPoint {
  import opened Machine
  import opened Numerals
  import opened Format
  import opened Engine

  // ------------------------------------------------------------------- rounding

  /** The fraction of v in units of the last place. */
  function Scaled(v: real, p: nat): real {
    (v - v.Floor as real) * (Pow(10, p) as real)
  }

  /** What is left of the fraction after its last place. */
  function Excess(v: real, p: nat): real { Scaled(v, p) - Scaled(v, p).Floor as real }

  /** Whole part and fraction digits after the rounding steps. */
  function Rounded(v: real, p: nat): (int, int) {
    var whole, frac, diff := v.Floor, Scaled(v, p).Floor, Excess(v, p);
    var (w, fr) :=
      if diff > 0.5 then (if frac + 1 >= Pow(10, p) then (whole + 1, 0) else (whole, frac + 1))
      else if diff < 0.5 then (whole, frac)
      else if frac == 0 || frac % 2 == 1 then (whole, frac + 1)
      else (whole, frac);
    var rest := v - w as real;
    if p == 0 && (!(rest < 0.5) || rest > 0.5) && w % 2 == 1 then (w + 1, fr) else (w, fr)
  }

  /** The one case the rounding gets wrong: a tie behind nothing but nines. */
  predicate TieOnNines(v: real, p: nat) {
    Excess(v, p) == 0.5 && Scaled(v, p).Floor == Pow(10, p) - 1
  }

  lemma ScaledBounds(v: real, p: nat)
    ensures 0.0 <= Scaled(v, p) < Pow(10, p) as real
    ensures 0 <= Scaled(v, p).Floor < Pow(10, p)
    ensures v * (Pow(10, p) as real) == (v.Floor * Pow(10, p)) as real + Scaled(v, p)
  {
    var q, part := Pow(10, p) as real, v - v.Floor as real;
    assert 0.0 <= part < 1.0;
    Scale(part, q);
    assert v * q == (v.Floor as real) * q + part * q;
  }

  lemma Scale(part: real, q: real)
    requires 0.0 <= part < 1.0 && q > 0.0
    ensures 0.0 <= part * q < q
  {
  }

  /** The digits fit their places except after a tie on nines; in any case they are
      within half a unit of the value. */
  lemma RoundingIsNearest(v: real, p: nat)
    requires v >= 0.0 && p > 0
    ensures var (w, fr) := Rounded(v, p);
      && w >= 0 && 0 <= fr <= Pow(10, p)
      && (fr < Pow(10, p) <==> !TieOnNines(v, p))
      && -0.5 <= (w * Pow(10, p) + fr) as real - v * (Pow(10, p) as real) <= 0.5
  {
    ScaledBounds(v, p);
    TenIsEven(p);
    var (w, fr) := Rounded(v, p);
    assert (v.Floor + 1) * Pow(10, p) == v.Floor * Pow(10, p) + Pow(10, p);
  }

  lemma TenIsEven(p: nat)
    requires p > 0
    ensures Pow(10, p) % 2 == 0 && Pow(10, p) >= 10
  {
    assert Pow(10, p) == 2 * (5 * Pow(10, p - 1));
  }

  /** Without fraction digits the value is rounded to the nearest integer, ties to
      the even one. */
  lemma WholeIsHalfEven(v: real)
    requires v >= 0.0
    ensures var w := Rounded(v, 0).0;
      && w >= 0 && -0.5 <= w as real - v <= 0.5
      && (w as real - v == 0.5 || w as real - v == -0.5 ==> w % 2 == 0)
  {
    assert Pow(10, 0) == 1;
    assert Scaled(v, 0) == v - v.Floor as real;
    assert Scaled(v, 0).Floor == 0;
  }

  // --------------------------------------------------------------------- layout

  /** The scratch buffer after the number itself: fraction digits, zeros up to the
      precision, the point and the whole part. The unsigned count of missing zeros
      wraps when there is one digit too many, and the zeros then fill the buffer. */
  function FixedDigits(whole: nat, frac: nat, p: nat): (r: Text)
    ensures |r| <= BUFFER_SIZE
  {
    if p == 0 then Digits(whole, 10, false, BUFFER_SIZE)
    else
      var fd := Digits(frac, 10, false, BUFFER_SIZE);
      var b := Push(ZeroTo(fd, if |fd| <= p then p else BUFFER_SIZE), '.');
      if |b| < BUFFER_SIZE then b + Digits(whole, 10, false, BUFFER_SIZE - |b|) else b
  }

  /** The number of a value, without sign and padding. */
  function NumberText(v: real, p: nat): Text
    requires v >= 0.0
  {
    RoundedNat(v, p);
    Reverse(FixedDigits(Rounded(v, p).0, Rounded(v, p).1, p))
  }

  lemma RoundedNat(v: real, p: nat)
    requires v >= 0.0
    ensures Rounded(v, p).0 >= 0 && Rounded(v, p).1 >= 0
  {
    if p > 0 {
      RoundingIsNearest(v, p);
    } else {
      WholeIsHalfEven(v);
      ScaledBounds(v, 0);
    }
  }

  // -------------------------------------------------------------------- reading

  /** The place of the point, or the length without one. */
  function PointOf(s: Text): (k: nat)
    ensures k <= |s|
  {
    if s == [] || s[0] == '.' then 0 else 1 + PointOf(s[1..])
  }

  /** A decimal fraction: all its digits as one number, and how many follow the
      point. */
  function ReadFixed(s: Text): Option<(nat, nat)> {
    var k := PointOf(s);
    var whole, frac := s[..k], if k < |s| then s[k + 1..] else [];
    if whole == [] || !AllDigits(whole, 10) || !AllDigits(frac, 10) || (k < |s| && frac == []) then None
    else Some((Value(whole + frac, 10), |frac|))
  }

  /** A printed number is right if it has p places and is within half a unit in the
      last of them. */
  predicate Denotes(s: Text, v: real, p: nat) {
    match ReadFixed(s)
    case None => false
    case Some((n, places)) => places == p && -0.5 <= n as real - v * (Pow(10, p) as real) <= 0.5
  }

  lemma {:induction false} PointAfter(a: Text, b: Text)
    requires '.' !in a
    ensures PointOf(a + ['.'] + b) == |a|
    ensures PointOf(a) == |a|
  {
    if a == [] {
      assert a + ['.'] + b == ['.'] + b;
    } else {
      assert (a + ['.'] + b)[1..] == a[1..] + ['.'] + b;
      PointAfter(a[1..], b);
    }
  }

  lemma DigitsHaveNoPoint(s: Text)
    requires AllDigits(s, 10)
    ensures '.' !in s
  {
    assert DigitValue('.') == 16;
  }

  lemma FixedReads(w: Text, f: Text)
    requires w != [] && f != [] && AllDigits(w, 10) && AllDigits(f, 10)
    ensures ReadFixed(w + ['.'] + f) == Some((Value(w + f, 10), |f|))
    ensures ReadFixed(w) == Some((Value(w, 10), 0))
  {
    var s := w + ['.'] + f;
    DigitsHaveNoPoint(w);
    PointAfter(w, f);
    assert s[..|w|] == w && s[|w| + 1..] == f;
    assert w + [] == w && w[..|w|] == w;
  }

  lemma ValueConcatAs(w: Text, f: Text, a: nat, b: nat, p: nat)
    requires Value(w, 10) == a && Value(f, 10) == b && |f| == p
    ensures Value(w + f, 10) == a * Pow(10, p) + b
  {
    ValueConcat(w, f, 10);
  }

  // ------------------------------------------------------------ what is printed

  lemma PowTen10()
    ensures Pow(10, 10) == 10000000000
  {
    PowOne(10);
    PowProduct(10, 1, 10, 1, 10, 100);
    PowProduct(10, 2, 100, 2, 100, 10000);
    PowProduct(10, 4, 10000, 4, 10000, 100000000);
    PowProduct(10, 8, 100000000, 2, 100, 10000000000);
  }

  /** Whole parts have at most ten digits, which fit whatever is left of the buffer. */
  lemma WholeDigits(whole: nat, room: nat)
    requires whole <= 1000000001 && 10 <= room <= BUFFER_SIZE
    ensures Reverse(Digits(whole, 10, false, room)) == Numeral(whole, 10, false)
  {
    PowTen10();
    DigitsAreNumeral(whole, 10, false, 10);
    DigitsAreNumeral(whole, 10, false, room);
  }

  lemma FractionDigits(frac: nat, p: nat)
    requires 0 < p <= 9
    ensures frac < Pow(10, p) ==> |Digits(frac, 10, false, BUFFER_SIZE)| <= p
    ensures frac < Pow(10, p) ==> Reverse(Digits(frac, 10, false, BUFFER_SIZE)) == Numeral(frac, 10, false)
    ensures frac == Pow(10, p) ==> |Digits(frac, 10, false, BUFFER_SIZE)| > p
    ensures AllDigits(Reverse(Digits(frac, 10, false, BUFFER_SIZE)), 10)
  {
    FractionNumeral(frac, p);
    DigitsDecode(frac, 10, false, BUFFER_SIZE);
  }

  lemma FractionNumeral(frac: nat, p: nat)
    requires 0 < p <= 9
    ensures var fd, ft := Digits(frac, 10, false, BUFFER_SIZE), Numeral(frac, 10, false);
      if frac < Pow(10, p) then |fd| <= p && Reverse(fd) == ft else frac == Pow(10, p) ==> |fd| > p
  {
    DigitsAreNumeral(frac, 10, false, p);
    DigitsThatFit(frac, 10, false, BUFFER_SIZE);
  }

  /** The fraction digits with the zeros in front of them. */
  function Places(frac: nat, p: nat): Text {
    var ft := Numeral(frac, 10, false);
    Chars('0', Max(0, p - |ft|)) + ft
  }

  lemma PlacesAre(frac: nat, p: nat)
    requires 0 < p <= 9 && frac < Pow(10, p)
    ensures var fd := Digits(frac, 10, false, BUFFER_SIZE);
      |fd| <= p && Places(frac, p) == Chars('0', p - |fd|) + Reverse(fd) && |Places(frac, p)| == p
  {
    FractionDigits(frac, p);
  }

  /** A fraction that fits is printed with exactly p places. */
  lemma FittingLayout(whole: nat, frac: nat, p: nat)
    requires whole <= 1000000001 && 0 < p <= 9 && frac < Pow(10, p)
    ensures Reverse(FixedDigits(whole, frac, p)) == Numeral(whole, 10, false) + ['.'] + Places(frac, p)
  {
    PlacesAre(frac, p);
    WholeDigits(whole, BUFFER_SIZE - p - 1);
    LayoutReversed(Digits(frac, 10, false, BUFFER_SIZE), p, Digits(whole, 10, false, BUFFER_SIZE - p - 1));
  }

  lemma LayoutReversed(fd: Text, p: nat, wd: Text)
    requires |fd| <= p <= 9
    ensures Reverse(Push(ZeroTo(fd, p), '.') + wd) == Reverse(wd) + ['.'] + (Chars('0', p - |fd|) + Reverse(fd))
  {
    var zeros := Chars('0', p - |fd|);
    assert Push(ZeroTo(fd, p), '.') == (fd + zeros) + ['.'];
    ReverseThree(fd, zeros, wd);
    ReverseChars('0', p - |fd|);
  }

  lemma ReverseThree(a: Text, b: Text, d: Text)
    ensures Reverse(((a + b) + ['.']) + d) == Reverse(d) + ['.'] + (Reverse(b) + Reverse(a))
  {
    ReverseConcat((a + b) + ['.'], d);
    ReverseConcat(a + b, ['.']);
    ReverseConcat(a, b);
    assert Reverse(['.']) == ['.'];
    assert Reverse(d) + (['.'] + (Reverse(b) + Reverse(a))) == Reverse(d) + ['.'] + (Reverse(b) + Reverse(a));
  }

  /** A power of ten is a one before zeros. */
  lemma {:induction false} PowerNumeral(p: nat, power: nat)
    requires power == Pow(10, p)
    ensures Numeral(power, 10, false) == ['1'] + Chars('0', p)
  {
    if p == 0 {
      assert power == 1;
    } else {
      var q := Pow(10, p - 1);
      assert power == 10 * q && power >= 10 && power / 10 == q && power % 10 == 0;
      PowerNumeral(p - 1, q);
      assert ['1'] + Chars('0', p - 1) + ['0'] == ['1'] + Chars('0', p);
    }
  }

  /** One digit too many: zeros fill the 32 characters, and point and whole part are lost. */
  lemma OverflowingLayout(whole: nat, frac: nat, p: nat)
    requires 0 < p <= 9 && frac == Pow(10, p)
    ensures Reverse(FixedDigits(whole, frac, p)) == Chars('0', BUFFER_SIZE - 1 - p) + (['1'] + Chars('0', p))
  {
    var fd := Digits(frac, 10, false, BUFFER_SIZE);
    PowerNumeral(p, frac);
    FractionNumeral(frac, p);
    DigitsThatFit(frac, 10, false, BUFFER_SIZE);
    assert |fd| == p + 1;
    ReverseConcat(fd, Chars('0', BUFFER_SIZE - |fd|));
    ReverseChars('0', BUFFER_SIZE - |fd|);
  }

  lemma WholeBound(v: real, p: nat)
    requires 0.0 <= v <= 1000000000.0
    ensures 0 <= Rounded(v, p).0 <= 1000000001
  {
    ScaledBounds(v, p);
    assert v.Floor <= 1000000000;
  }

  lemma PlacesRead(frac: nat, p: nat)
    ensures AllDigits(Places(frac, p), 10) && Value(Places(frac, p), 10) == frac && Places(frac, p) != []
  {
    var ft := Numeral(frac, 10, false);
    NumeralReads(frac, 10, false);
    LeadingZeros(Max(0, p - |ft|), ft, 10);
  }

  lemma NumberValue(whole: nat, frac: nat, p: nat)
    requires |Places(frac, p)| == p
    ensures Value(Numeral(whole, 10, false) + Places(frac, p), 10) == whole * Pow(10, p) + frac
  {
    NumeralReads(whole, 10, false);
    PlacesRead(frac, p);
    ValueConcatAs(Numeral(whole, 10, false), Places(frac, p), whole, frac, p);
  }

  lemma FractionReads(whole: nat, frac: nat, p: nat, n: nat)
    requires whole <= 1000000001 && 0 < p <= 9 && frac < Pow(10, p)
    requires Value(Numeral(whole, 10, false) + Places(frac, p), 10) == n
    ensures ReadFixed(Reverse(FixedDigits(whole, frac, p))) == Some((n, p))
  {
    FittingLayout(whole, frac, p);
    PlacesAre(frac, p);
    NumeralReads(whole, 10, false);
    PlacesRead(frac, p);
    FixedReadsNumber(Numeral(whole, 10, false), Places(frac, p), n, p);
  }

  lemma FixedReadsNumber(w: Text, f: Text, n: nat, p: nat)
    requires w != [] && f != [] && AllDigits(w, 10) && AllDigits(f, 10) && |f| == p && Value(w + f, 10) == n
    ensures ReadFixed(w + ['.'] + f) == Some((n, p))
  {
    FixedReads(w, f);
  }

  lemma OverflowReads(whole: nat, frac: nat, p: nat)
    requires 0 < p <= 9 && frac == Pow(10, p)
    ensures var r := ReadFixed(Reverse(FixedDigits(whole, frac, p)));
      r == None || r.value.1 == 0
  {
    OverflowingLayout(whole, frac, p);
    assert '.' !in Reverse(FixedDigits(whole, frac, p));
    PointAfter(Reverse(FixedDigits(whole, frac, p)), []);
  }

  lemma FittingDenotes(whole: nat, frac: nat, p: nat, n: nat, v: real)
    requires whole <= 1000000001 && 0 < p <= 9 && frac < Pow(10, p)
    requires Value(Numeral(whole, 10, false) + Places(frac, p), 10) == n
    requires -0.5 <= n as real - v * (Pow(10, p) as real) <= 0.5
    ensures Denotes(Reverse(FixedDigits(whole, frac, p)), v, p)
  {
    FractionReads(whole, frac, p, n);
  }

  /** For all values up to 1e9 and precisions 1 to 9: the printed decimal fraction is
      one with that many places nearest the value, exactly unless the value ties
      behind nothing but nines. */
  lemma DenotesIff(v: real, p: nat)
    requires 0.0 <= v <= 1000000000.0 && 0 < p <= 9
    ensures Denotes(NumberText(v, p), v, p) <==> !TieOnNines(v, p)
  {
    RoundedNat(v, p);
    WholeBound(v, p);
    RoundingIsNearest(v, p);
    var w, fr := Rounded(v, p).0, Rounded(v, p).1;
    if TieOnNines(v, p) {
      OverflowReads(w, fr, p);
    } else {
      PlacesAre(fr, p);
      NumberValue(w, fr, p);
      FittingDenotes(w, fr, p, w * Pow(10, p) + fr, v);
    }
  }

  lemma WholeReads(whole: nat)
    requires whole <= 1000000001
    ensures Reverse(FixedDigits(whole, 0, 0)) == Numeral(whole, 10, false)
    ensures ReadFixed(Numeral(whole, 10, false)) == Some((whole, 0))
  {
    WholeDigits(whole, BUFFER_SIZE);
    NumeralReads(whole, 10, false);
    FixedReads(Numeral(whole, 10, false), ['0']);
  }

  /** Without fraction digits the integer nearest the value is printed, ties to even. */
  lemma WholeDenotes(v: real)
    requires 0.0 <= v <= 1000000000.0
    ensures Denotes(NumberText(v, 0), v, 0)
    ensures var (n, places) := ReadFixed(NumberText(v, 0)).value;
      n as real - v == 0.5 || n as real - v == -0.5 ==> n % 2 == 0
  {
    RoundedNat(v, 0);
    WholeIsHalfEven(v);
    WholeBound(v, 0);
    WholeReads(Rounded(v, 0).0);
    assert NumberText(v, 0) == Reverse(FixedDigits(Rounded(v, 0).0, 0, 0));
    TimesOne(v);
  }

  lemma TimesOne(v: real)
    ensures v * (Pow(10, 0) as real) == v
  {
    assert Pow(10, 0) == 1;
  }

  /** A tie behind nines, such as 0.95 with one place, is not printed as a number
      with that place at all. */
  lemma TieOnNinesExample()
    ensures TieOnNines(0.95, 1) && !Denotes(NumberText(0.95, 1), 0.95, 1)
  {
    PowOne(10);
    assert 0.95.Floor == 0;
    assert Scaled(0.95, 1) == 9.5;
    DenotesIff(0.95, 1);
  }

  // ------------------------------------------------------------------ the code

  /** The first rounding statement of `_ftoa`; `pow10` is its table entry. */
  method RoundLastPlace(whole0: int, tmp: real, pow10: int) returns (whole: int, frac: int)
    ensures var t, diff := tmp.Floor, tmp - tmp.Floor as real;
      (whole, frac) == if diff > 0.5 then (if t + 1 >= pow10 then (whole0 + 1, 0) else (whole0, t + 1))
                       else if diff < 0.5 then (whole0, t)
                       else if t == 0 || t % 2 == 1 then (whole0, t + 1) else (whole0, t)
  {
    whole, frac := whole0, tmp.Floor;
    var diff := tmp - frac as real;
    if diff > 0.5 {
      frac := frac + 1;
      if frac >= pow10 {
        frac := 0;
        whole := whole + 1;
      }
    } else if diff < 0.5 {
    } else if frac == 0 || frac % 2 == 1 {
      frac := frac + 1;
    }
  }

  /** The rounding statements of `_ftoa`. */
  method Round(value: real, prec: nat) returns (whole: nat, frac: nat)
    requires 0.0 <= value <= 1000000000.0 && prec <= 9
    ensures (whole, frac) == Rounded(value, prec)
  {
    RoundedNat(value, prec);
    var tmp := (value - value.Floor as real) * (Pow(10, prec) as real);
    assert tmp == Scaled(value, prec);
    var w, fr := RoundLastPlace(value.Floor, tmp, Pow(10, prec));
    if prec == 0 {
      var diff := value - w as real;
      if (!(diff < 0.5) || diff > 0.5) && w % 2 == 1 {
        w := w + 1;
      }
    }
    assert w == Rounded(value, prec).0;
    assert fr == Rounded(value, prec).1;
    whole, frac := w, fr;
  }

  /** The loop that writes decimal digits while there is room. */
  method LayDigits(buf: array<cchar>, len0: nat, n0: nat) returns (len: nat)
    requires len0 < buf.Length == BUFFER_SIZE
    modifies buf
    ensures len0 < len <= BUFFER_SIZE && buf[..len] == old(buf[..len0]) + Digits(n0, 10, false, BUFFER_SIZE - len0)
  {
    ghost var done := buf[..len0];
    ghost var all := done + Digits(n0, 10, false, BUFFER_SIZE - len0);
    len := len0;
    var n := n0;
    while len < BUFFER_SIZE
      invariant len0 <= len <= BUFFER_SIZE && buf[..len] == done
      invariant if len < BUFFER_SIZE then Storing(done, n, 10, false, BUFFER_SIZE - len, all)
                else len0 < len && done == all
    {
      StoringStep(done, n, 10, false, BUFFER_SIZE - len, all);
      done := done + [DigitChar(n % 10, false)];
      buf[len] := DigitChar(n % 10, false);
      len := len + 1;
      n := n / 10;
      if n == 0 {
        break;
      }
    }
  }

  /** Appends as many zeros as counted while the buffer has room. */
  method FillCounted(buf: array<cchar>, len0: nat, count0: u32) returns (len: nat)
    requires len0 <= buf.Length == BUFFER_SIZE
    modifies buf
    ensures len <= BUFFER_SIZE && buf[..len] == ZeroTo(old(buf[..len0]), len0 + count0)
  {
    ghost var b := buf[..len0];
    len := len0;
    var count := count0;
    while len < BUFFER_SIZE
      invariant len0 <= len <= BUFFER_SIZE && count == count0 - (len - len0)
      invariant buf[..len] == b + Chars('0', len - len0)
    {
      var before := count;
      count := ToU32(count as int - 1);
      if before == 0 {
        break;
      }
      buf[len] := '0';
      len := len + 1;
    }
  }

  /** The missing zeros: prec less the digits written, in unsigned arithmetic. */
  method FillMissing(buf: array<cchar>, len0: nat, prec: nat) returns (len: nat)
    requires len0 <= buf.Length == BUFFER_SIZE && prec <= 9
    modifies buf
    ensures len <= BUFFER_SIZE
    ensures buf[..len] == ZeroTo(old(buf[..len0]), if len0 <= prec then prec else BUFFER_SIZE)
  {
    MissingZeros(buf[..len0], prec);
    len := FillCounted(buf, len0, ToU32(prec as int - len0));
  }

  /** The fraction of `_ftoa`: digits, the missing zeros counted in an unsigned int,
      and the point. */
  method LayFraction(buf: array<cchar>, frac: nat, prec: nat) returns (len: nat)
    requires buf.Length == BUFFER_SIZE && 0 < prec <= 9
    modifies buf
    ensures len <= BUFFER_SIZE
    ensures var fd := Digits(frac, 10, false, BUFFER_SIZE);
      buf[..len] == Push(ZeroTo(fd, if |fd| <= prec then prec else BUFFER_SIZE), '.')
  {
    len := LayDigits(buf, 0, frac);
    ghost var fd := buf[..len];
    assert [] + Digits(frac, 10, false, BUFFER_SIZE) == Digits(frac, 10, false, BUFFER_SIZE);
    assert fd == Digits(frac, 10, false, BUFFER_SIZE);
    len := FillMissing(buf, len, prec);
    len := Append(buf, len, '.');
  }

  /** The unsigned count reaches the precision, or wraps and fills the buffer. */
  lemma MissingZeros(fd: Text, prec: nat)
    requires |fd| <= BUFFER_SIZE && prec <= 9
    ensures ZeroTo(fd, |fd| + ToU32(prec as int - |fd|)) == ZeroTo(fd, if |fd| <= prec then prec else BUFFER_SIZE)
  {
  }

  /** `_ftoa` from the rounding to the whole part. */
  method LayNumber(buf: array<cchar>, value: real, prec: nat) returns (len: nat)
    requires buf.Length == BUFFER_SIZE && 0.0 <= value <= 1000000000.0 && prec <= 9
    modifies buf
    ensures len <= BUFFER_SIZE && Reverse(buf[..len]) == NumberText(value, prec)
  {
    var whole, frac := Round(value, prec);
    len := LayParts(buf, whole, frac, prec);
  }

  method LayParts(buf: array<cchar>, whole: nat, frac: nat, prec: nat) returns (len: nat)
    requires buf.Length == BUFFER_SIZE && prec <= 9
    modifies buf
    ensures len <= BUFFER_SIZE && buf[..len] == FixedDigits(whole, frac, prec)
  {
    len := 0;
    if prec > 0 {
      len := LayFraction(buf, frac, prec);
    }
    if len < BUFFER_SIZE {
      len := LayDigits(buf, len, whole);
    }
  }
}
