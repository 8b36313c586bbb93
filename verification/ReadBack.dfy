/** Reading printed integers back: a reader in the manner of `strtoll`, which knows
    nothing of how fields are built, and exactly when it recovers the value. The base
    is given, and its prefix 0x, 0X, 0b or 0B may precede the digits. */
module ReadBack {
  import opened Machine
  import opened Numerals
  import opened Format
  import opened Iso
  import opened IsoProof

  function StripLeft(s: Text): Text {
    if s != [] && s[0] == ' ' then StripLeft(s[1..]) else s
  }

  function StripRight(s: Text): Text {
    if s != [] && s[|s| - 1] == ' ' then StripRight(s[..|s| - 1]) else s
  }

  function Strip(s: Text): Text { StripRight(StripLeft(s)) }

  function ReadDigits(s: Text, base: nat): Option<int> {
    if s != [] && AllDigits(s, base) then Some(Value(s, base)) else None
  }

  function Negated(r: Option<int>): Option<int> {
    match r case Some(n) => Some(-n) case None => None
  }

  /** The letter of the prefix of a base. */
  predicate IsBaseMark(c: cchar, base: nat) {
    (base == 16 && (c == 'x' || c == 'X')) || (base == 2 && (c == 'b' || c == 'B'))
  }

  function ReadMagnitude(s: Text, base: nat): Option<int> {
    if |s| >= 2 && s[0] == '0' && IsBaseMark(s[1], base) then ReadDigits(s[2..], base) else ReadDigits(s, base)
  }

  function ReadSigned(t: Text, base: nat): Option<int> {
    if t != [] && t[0] == '-' then Negated(ReadMagnitude(t[1..], base))
    else if t != [] && t[0] == '+' then ReadMagnitude(t[1..], base)
    else ReadMagnitude(t, base)
  }

  /** An integer between blanks: an optional sign, perhaps the prefix of the base, and
      at least one digit. */
  function ReadInteger(s: Text, base: nat): Option<int> { ReadSigned(Strip(s), base) }

  // ---------------------------------------------------------------- stripping

  lemma {:induction false} StripLeftBlanks(n: nat, s: Text)
    ensures StripLeft(Chars(' ', n) + s) == StripLeft(s)
  {
    if n == 0 {
      assert Chars(' ', n) + s == s;
    } else {
      assert (Chars(' ', n) + s)[1..] == Chars(' ', n - 1) + s;
      StripLeftBlanks(n - 1, s);
    }
  }

  lemma {:induction false} StripRightBlanks(s: Text, n: nat)
    ensures StripRight(s + Chars(' ', n)) == StripRight(s)
  {
    if n == 0 {
      assert s + Chars(' ', n) == s;
    } else {
      var t := s + Chars(' ', n);
      assert t[..|t| - 1] == s + Chars(' ', n - 1);
      StripRightBlanks(s, n - 1);
    }
  }

  lemma StripTight(n: nat, s: Text, m: nat)
    requires Tight(s)
    ensures Strip(Chars(' ', n) + s + Chars(' ', m)) == s
  {
    if s == [] {
      assert Chars(' ', n) + s + Chars(' ', m) == Chars(' ', n + m) + [];
      StripLeftBlanks(n + m, []);
    } else {
      Associative(Chars(' ', n), s, Chars(' ', m));
      StripLeftBlanks(n, s + Chars(' ', m));
      StripRightBlanks(s, m);
    }
  }

  /** Blanks around a field, padding or sign, do not change what is read. */
  lemma StripPadded(s: Text, sign: Text, width: nat, left: bool)
    requires Tight(s) && (sign == [] || sign == [' '])
    ensures Strip(Pad(sign + s, width, left)) == s
  {
    var k := Max(0, width - |sign + s|);
    var n, m := if left then |sign| else k + |sign|, if left then k else 0;
    assert Pad(sign + s, width, left) == Chars(' ', n) + s + Chars(' ', m);
    StripTight(n, s, m);
  }

  // ------------------------------------------------------------------- bodies

  lemma DigitsHaveNoMark(s: Text, base: nat)
    requires AllDigits(s, base) && base <= 16
    ensures ReadMagnitude(s, base) == ReadDigits(s, base)
  {
    assert |s| >= 2 ==> DigitValue(s[1]) < base;
  }

  lemma ReadSignedBody(sign: Text, body: Text, base: nat)
    requires sign == [] || sign == ['-'] || sign == ['+']
    requires AllDigits(body, base) && base <= 16
    ensures Tight(sign + body)
    ensures ReadSigned(sign + body, base)
         == if sign == ['-'] then Negated(ReadDigits(body, base)) else ReadDigits(body, base)
  {
    DigitsAreTight(body, base);
    DigitsHaveNoMark(body, base);
    assert sign != [] ==> (sign + body)[1..] == body;
    assert sign == [] ==> sign + body == body;
  }

  /** The value the stored digits denote; binary conversions keep 32 digits. */
  lemma SignificantReads(conv: cchar, f: Flags, prec: nat, v: int)
    requires Possible(conv, f, prec, v)
    ensures AllDigits(Significant(conv, f, v), BaseOf(conv)) && Tight(Significant(conv, f, v))
    ensures Value(Significant(conv, f, v), BaseOf(conv)) == if conv == 'b' then v % TWO32 else Abs(v)
  {
    var base, g := BaseOf(conv), IntegerFlags(conv, f);
    if !(v == 0 && f.precision) {
      DigitsDecode(Abs(v), base, g.uppercase, 32);
      PowBounds(base);
    }
    if conv != 'b' {
      SignificantIs(conv, f, prec, v);
      NumeralReads(Abs(v), base, conv == 'X');
    }
    assert Tight(Significant(conv, f, v)) by {
      DigitsAreTight(Significant(conv, f, v), base);
    }
  }

  lemma DigitsAreTight(s: Text, base: nat)
    requires AllDigits(s, base) && base <= 16
    ensures Tight(s)
  {
    assert DigitValue(' ') == 16;
  }

  /** What a body with a sign, zeros and digits denoting n reads as. */
  function BodyReading(sign: Text, digits: nat, n: nat): Option<int> {
    if digits == 0 then None else Some(if sign == ['-'] then -(n as int) else n)
  }

  lemma DigitsRead(sign: Text, digits: Text, base: nat)
    requires sign == [] || sign == ['-'] || sign == ['+'] || sign == [' ']
    requires AllDigits(digits, base) && base <= 16
    ensures ReadSigned((if sign == [' '] then [] else sign) + digits, base)
         == BodyReading(sign, |digits|, Value(digits, base))
  {
    ReadSignedBody(if sign == [' '] then [] else sign, digits, base);
  }

  lemma BodyReads(sign: Text, z: nat, r: Text, base: nat, width: nat, left: bool)
    requires sign == [] || sign == ['-'] || sign == ['+'] || sign == [' ']
    requires IsBase(base) && AllDigits(r, base)
    ensures ReadInteger(Body(sign, z, r), base) == BodyReading(sign, z + |r|, Value(r, base))
    ensures ReadInteger(Pad(Body(sign, z, r), width, left), base) == BodyReading(sign, z + |r|, Value(r, base))
  {
    LeadingZeros(z, r, base);
    DigitsRead(sign, Chars('0', z) + r, base);
    Associative(sign, Chars('0', z), r);
    StripField(sign, Chars('0', z) + r, base, width, left);
  }

  lemma SignificantBodyReads(sign: Text, z: nat, conv: cchar, f: Flags, width: nat, prec: nat, v: int)
    requires sign == [] || sign == ['-'] || sign == ['+'] || sign == [' ']
    requires Possible(conv, f, prec, v)
    ensures var body, base := Body(sign, z, Significant(conv, f, v)), BaseOf(conv);
      var read := BodyReading(sign, z + StoredCount(conv, f, v), if conv == 'b' then v % TWO32 else Abs(v));
      ReadInteger(body, base) == read && ReadInteger(Pad(body, width, f.left), base) == read
  {
    SignificantReads(conv, f, prec, v);
    BodyReads(sign, z, Significant(conv, f, v), BaseOf(conv), width, f.left);
  }

  lemma TextReads(text: Text, body: Text, sign: Text, z: nat, conv: cchar, f: Flags, width: nat, prec: nat, v: int)
    requires sign == [] || sign == ['-'] || sign == ['+'] || sign == [' ']
    requires Possible(conv, f, prec, v) && body == Body(sign, z, Significant(conv, f, v))
    requires text == body || text == Pad(body, width, f.left)
    ensures ReadInteger(text, BaseOf(conv))
         == BodyReading(sign, z + StoredCount(conv, f, v), if conv == 'b' then v % TWO32 else Abs(v))
  {
    SignificantBodyReads(sign, z, conv, f, width, prec, v);
  }

  lemma StripField(sign: Text, digits: Text, base: nat, width: nat, left: bool)
    requires sign == [] || sign == ['-'] || sign == ['+'] || sign == [' ']
    requires AllDigits(digits, base) && base <= 16
    ensures var t := (if sign == [' '] then [] else sign) + digits;
      Strip(sign + digits) == t && Strip(Pad(sign + digits, width, left)) == t
  {
    var blank := if sign == [' '] then sign else [];
    var t := (if sign == [' '] then [] else sign) + digits;
    assert blank + t == sign + digits;
    assert Pad(blank + t, 0, false) == blank + t;
    DigitsAreTight(digits, base);
    StripPadded(t, blank, 0, false);
    StripPadded(t, blank, width, left);
  }

  // ----------------------------------------------------------- prefixed fields

  /** What is left behind the prefix of a field: its zeros and digits, less those
      that were dropped to make room. */
  function LeftBehind(z: nat, r: Text, t: nat): Text
    requires t <= z + |r|
  {
    if t <= z then Chars('0', z - t) + r else r[t - z..]
  }

  /** A lone letter is no prefix, and nothing can be read behind it. */
  function MarkedReading(base: nat, mark: Text, rest: Text): Option<int> {
    if base != 8 && |mark| == 1 then None
    else if rest == [] && (base != 8 || mark == []) then None
    else Some(Value(rest, base))
  }

  lemma MarkedReads(base: nat, mark: Text, lead: Text, rest: Text, t: Text)
    requires base == 2 || base == 8 || base == 16
    requires MarkOf(base, mark, lead) && AllDigits(rest, base)
    requires base == 16 ==> lead == ['0', 'x'] || lead == ['0', 'X']
    requires mark <= t && t[|mark|..] == rest
    ensures ReadSigned(t, base) == MarkedReading(base, mark, rest)
  {
    DigitsHaveNoMark(rest, base);
    if mark != [] {
      if base == 8 {
        OctalReads(rest, t);
      } else if |mark| == 1 {
        assert DigitValue(t[0]) >= base;
      }
    }
  }

  lemma OctalReads(rest: Text, t: Text)
    requires AllDigits(rest, 8) && t != [] && t[0] == '0' && t[1..] == rest
    ensures ReadSigned(t, 8) == Some(Value(rest, 8))
  {
    assert t == Chars('0', 1) + rest;
    LeadingZeros(1, rest, 8);
    DigitsHaveNoMark(t, 8);
  }

  lemma MarkedFieldReads(text: Text, base: nat, mark: Text, lead: Text, rest: Text, width: nat, left: bool)
    requires base == 2 || base == 8 || base == 16
    requires MarkOf(base, mark, lead) && AllDigits(rest, base)
    requires base == 16 ==> lead == ['0', 'x'] || lead == ['0', 'X']
    requires text == mark + rest || text == Pad(mark + rest, width, left)
    ensures ReadInteger(text, base) == MarkedReading(base, mark, rest)
  {
    var body := mark + rest;
    DigitsAreTight(rest, base);
    StripTightField(text, body, width, left);
    MarkedReads(base, mark, lead, rest, body);
  }

  lemma StripTightField(text: Text, body: Text, width: nat, left: bool)
    requires Tight(body) && (text == body || text == Pad(body, width, left))
    ensures Strip(text) == body
  {
    var k := |text| - |body|;
    var n, m := if left then 0 else k, if left then k else 0;
    assert text == Chars(' ', n) + body + Chars(' ', m);
    StripTight(n, body, m);
  }

  lemma LeftBehindIs(z: nat, r: Text, t: nat)
    requires t <= z + |r|
    ensures (Chars('0', z) + r)[t..] == LeftBehind(z, r, t)
  {
  }

  lemma SuffixValue(s: Text, k: nat, base: nat)
    requires base > 0 && k <= |s| && AllDigits(s, base)
    ensures AllDigits(s[k..], base) && Value(s[k..], base) <= Value(s, base)
    ensures k > 0 && s[0] != '0' ==> Value(s[k..], base) < Value(s, base)
  {
    assert s == s[..k] + s[k..];
    ValueConcat(s[..k], s[k..], base);
    if k > 0 && s[0] != '0' {
      ValuePositive(s[..k], base);
    }
    Part(Value(s[..k], base), Pow(base, |s[k..]|), Value(s[k..], base), Value(s, base));
  }

  lemma Part(a: nat, p: nat, b: nat, whole: nat)
    requires whole == a * p + b && p > 0
    ensures b <= whole && (a > 0 ==> b < whole)
  {
  }

  /** The value left behind the prefix is the value of the digits, unless one of them
      was dropped. */
  lemma LeftBehindReads(z: nat, r: Text, t: nat, base: nat)
    requires IsBase(base) && AllDigits(r, base) && r != [] && t <= z + |r|
    ensures AllDigits(LeftBehind(z, r, t), base) && Value(LeftBehind(z, r, t), base) <= Value(r, base)
    ensures t <= z ==> LeftBehind(z, r, t) != [] && Value(LeftBehind(z, r, t), base) == Value(r, base)
    ensures t > z && r[0] != '0' ==> Value(LeftBehind(z, r, t), base) < Value(r, base)
  {
    if t <= z {
      LeadingZeros(z - t, r, base);
    } else {
      SuffixValue(r, t - z, base);
    }
  }

  /** What is read from z zeros and the digits r, of which t characters were dropped. */
  function ReadingOf(base: nat, g: Flags, z: nat, r: Text, t: nat): Option<int>
    requires t <= z + |r|
  {
    MarkedReading(base, MarkThatFits(|r| + z - t, base, g), LeftBehind(z, r, t))
  }

  lemma AssembledReads(base: nat, g: Flags, z: nat, r: Text, t: nat, body: Text, text: Text, width: nat, left: bool)
    requires (base == 2 || base == 8 || base == 16) && r != [] && AllDigits(r, base) && t <= z + |r|
    requires Assembled(body, r, z, t, MarkThatFits(|r| + z - t, base, g))
    requires text == body || text == Pad(body, width, left)
    ensures ReadInteger(text, base) == ReadingOf(base, g, z, r, t)
  {
    LeftBehindIs(z, r, t);
    LeftBehindReads(z, r, t, base);
    MarkByLength(|r| + z - t, base, g);
    MarkedFieldReads(text, base, MarkThatFits(|r| + z - t, base, g), ZeroAndMark(base, g), LeftBehind(z, r, t),
                     width, left);
  }

  /** No digit was dropped, and not half of the prefix either. */
  predicate AllThere(base: nat, d: nat, z: nat, t: nat)
    requires t <= z + d
  {
    t <= z && (base != 8 ==> MarkLength(d + z - t, base) != 1)
  }

  lemma MarkRecovers(base: nat, g: Flags, z: nat, r: Text, t: nat, v: int)
    requires (base == 2 || base == 8 || base == 16) && t <= z + |r|
    requires r != [] && AllDigits(r, base) && r[0] != '0' && Value(r, base) == v
    ensures ReadingOf(base, g, z, r, t) == Some(v) <==> AllThere(base, |r|, z, t)
  {
    LeftBehindReads(z, r, t, base);
    ValuePositive(r, base);
    MarkByLength(|r| + z - t, base, g);
  }

  /** What is read from a prefixed field with significant digits r. */
  function PrefixReading(base: nat, r: Text, f: Flags, g: Flags, width: nat, prec: nat): Option<int>
    requires |r| <= BUFFER_SIZE
  {
    var z := CodeZeros(|r|, false, f, width, prec);
    ReadingOf(base, g, z, r, Dropped(|r| + z, base, f.precision, width))
  }

  lemma MarkedBodyReads(base: nat, r: Text, f: Flags, g: Flags, width: nat, prec: nat, body: Text, text: Text)
    requires base == 2 || base == 8 || base == 16
    requires 0 < |r| <= BUFFER_SIZE && AllDigits(r, base)
    requires IsMarkedBody(base, r, f, g, width, prec, body) && (text == body || text == Pad(body, width, f.left))
    ensures ReadInteger(text, base) == PrefixReading(base, r, f, g, width, prec)
  {
    var z := CodeZeros(|r|, false, f, width, prec);
    AssembledReads(base, g, z, r, Dropped(|r| + z, base, f.precision, width), body, text, width, f.left);
  }

  // ---------------------------------------------------------------- all fields

  /** What is read from a field. */
  function Reading(conv: cchar, f: Flags, width: nat, prec: nat, v: int): Option<int> {
    if IsPrefixed(conv, f, v) then
      PrefixReading(BaseOf(conv), Significant(conv, f, v), f, IntegerFlags(conv, f), width, prec)
    else
      BodyReading(PlainSign(conv, f, width, prec, v), PlainZeros(conv, f, width, prec, v) + StoredCount(conv, f, v),
                  if conv == 'b' then v % TWO32 else Abs(v))
  }

  lemma PlainFieldReads(conv: cchar, f: Flags, width: nat, prec: nat, v: int)
    requires Possible(conv, f, prec, v) && !IsPrefixed(conv, f, v)
    ensures ReadInteger(IntegerText(conv, f, width, prec, v), BaseOf(conv)) == Reading(conv, f, width, prec, v)
  {
    PlainText(conv, f, width, prec, v);
    TextReads(IntegerText(conv, f, width, prec, v), PlainBody(conv, f, width, prec, v),
              PlainSign(conv, f, width, prec, v), PlainZeros(conv, f, width, prec, v), conv, f, width, prec, v);
  }

  lemma PrefixedFieldReads(conv: cchar, f: Flags, width: nat, prec: nat, v: int)
    requires Possible(conv, f, prec, v) && IsPrefixed(conv, f, v)
    ensures ReadInteger(IntegerText(conv, f, width, prec, v), BaseOf(conv)) == Reading(conv, f, width, prec, v)
  {
    CodeIsPaddedBody(conv, f, width, prec, v);
    PrefixedCode(conv, f, width, prec, v);
    SignificantReads(conv, f, prec, v);
    SignificantIs(conv, f, prec, v);
    MarkedBodyReads(BaseOf(conv), Significant(conv, f, v), f, IntegerFlags(conv, f), width, prec,
                    CodeBody(conv, f, width, prec, v), IntegerText(conv, f, width, prec, v));
  }

  lemma FieldReads(conv: cchar, f: Flags, width: nat, prec: nat, v: int)
    requires Possible(conv, f, prec, v)
    ensures ReadInteger(IntegerText(conv, f, width, prec, v), BaseOf(conv)) == Reading(conv, f, width, prec, v)
  {
    if IsPrefixed(conv, f, v) {
      PrefixedFieldReads(conv, f, width, prec, v);
    } else {
      PlainFieldReads(conv, f, width, prec, v);
    }
  }

  // ------------------------------------------------------- what is recovered

  /** Fields without a prefix: the sign of a negative number needs room in the
      buffer, and zero must print a digit. */
  predicate PlainReadable(f: Flags, width: nat, prec: nat, v: int) {
    && !(v == 0 && f.precision && (prec == 0 || f.left))
    && (v < 0 && !f.left ==> if f.precision then prec < BUFFER_SIZE else f.zeropad ==> width <= BUFFER_SIZE)
  }

  /** Prefixed fields of d digits: the digits must not just fill the width, where
      some of them are dropped, and the buffer must not end between the two
      characters of the prefix. */
  predicate PrefixReadable(base: nat, d: nat, f: Flags, width: nat, prec: nat) {
    if f.precision then
      base != 8 ==> (if f.left then d else Max(d, prec)) != BUFFER_SIZE - 1
    else
      && width != d
      && (base == 16 && ZeroFill(f) ==> width != d + 1)
      && (base == 2 && ZeroFill(f) ==> width != BUFFER_SIZE)
      && (base == 2 && d == BUFFER_SIZE - 1 ==> ZeroFill(f) && width > BUFFER_SIZE)
  }

  predicate Readable(conv: cchar, f: Flags, width: nat, prec: nat, v: int) {
    && (conv == 'b' ==> v < TWO32)
    && if IsPrefixed(conv, f, v) then PrefixReadable(BaseOf(conv), DigitCount(conv, f, v), f, width, prec)
       else PlainReadable(f, width, prec, v)
  }

  lemma PlainRecovers(conv: cchar, f: Flags, width: nat, prec: nat, v: int)
    requires Possible(conv, f, prec, v) && !IsPrefixed(conv, f, v) && (conv == 'b' ==> v < TWO32)
    ensures Reading(conv, f, width, prec, v) == Some(v) <==> PlainReadable(f, width, prec, v)
  {
    SignificantIs(conv, f, prec, v);
    var d, z := StoredCount(conv, f, v), PlainZeros(conv, f, width, prec, v);
    assert Sign(conv, f, v) == ['-'] <==> v < 0;
    if v < 0 {
      assert d + z < BUFFER_SIZE <==> PlainReadable(f, width, prec, v);
    } else {
      assert z + d == 0 <==> v == 0 && f.precision && (prec == 0 || f.left);
    }
  }

  /** Digits are dropped or the prefix is cut exactly where the field is unreadable. */
  lemma WhatIsLeft(base: nat, d: nat, f: Flags, width: nat, prec: nat)
    requires base == 2 || base == 8 || base == 16
    requires 0 < d <= BUFFER_SIZE && (base != 2 ==> d <= 24) && (!f.precision ==> prec == 0)
    ensures var z := CodeZeros(d, false, f, width, prec);
      PrefixReadable(base, d, f, width, prec) <==> AllThere(base, d, z, Dropped(d + z, base, f.precision, width))
  {
  }

  lemma PrefixRecovers(base: nat, r: Text, f: Flags, g: Flags, width: nat, prec: nat, v: int)
    requires base == 2 || base == 8 || base == 16
    requires 0 < |r| <= BUFFER_SIZE && (base != 2 ==> |r| <= 24) && (!f.precision ==> prec == 0)
    requires AllDigits(r, base) && r[0] != '0' && Value(r, base) == v
    ensures PrefixReading(base, r, f, g, width, prec) == Some(v) <==> PrefixReadable(base, |r|, f, width, prec)
  {
    var z := CodeZeros(|r|, false, f, width, prec);
    WhatIsLeft(base, |r|, f, width, prec);
    MarkRecovers(base, g, z, r, Dropped(|r| + z, base, f.precision, width), v);
  }

  lemma PrefixedRecovers(conv: cchar, f: Flags, width: nat, prec: nat, v: int)
    requires Possible(conv, f, prec, v) && IsPrefixed(conv, f, v) && (conv == 'b' ==> v < TWO32)
    ensures Reading(conv, f, width, prec, v) == Some(v)
       <==> PrefixReadable(BaseOf(conv), DigitCount(conv, f, v), f, width, prec)
  {
    SignificantIs(conv, f, prec, v);
    SignificantReads(conv, f, prec, v);
    NumeralIsTight(v, BaseOf(conv), conv == 'X');
    PrefixRecovers(BaseOf(conv), Significant(conv, f, v), f, IntegerFlags(conv, f), width, prec, v);
  }

  lemma ReadingIsBounded(base: nat, r: Text, f: Flags, g: Flags, width: nat, prec: nat)
    requires IsBase(base) && 0 < |r| <= BUFFER_SIZE && AllDigits(r, base)
    ensures PrefixReading(base, r, f, g, width, prec).Some? ==>
      PrefixReading(base, r, f, g, width, prec).value <= Value(r, base)
  {
    var z := CodeZeros(|r|, false, f, width, prec);
    LeftBehindReads(z, r, Dropped(|r| + z, base, f.precision, width), base);
  }

  /** 32 binary digits denote less than any longer number. */
  lemma LongBinaryIsLost(f: Flags, width: nat, prec: nat, v: int)
    requires Possible('b', f, prec, v) && v >= TWO32
    ensures Reading('b', f, width, prec, v) != Some(v)
  {
    SignificantIs('b', f, prec, v);
    SignificantReads('b', f, prec, v);
    ReadingIsBounded(2, Significant('b', f, v), f, IntegerFlags('b', f), width, prec);
  }

  /** For every conversion, flag set, width, precision and 64-bit value: the printed
      integer reads back as the value if and only if it is `Readable`. */
  lemma ReadsBackIff(conv: cchar, f: Flags, width: nat, prec: nat, v: int)
    requires Possible(conv, f, prec, v)
    ensures ReadInteger(IntegerText(conv, f, width, prec, v), BaseOf(conv)) == Some(v)
       <==> Readable(conv, f, width, prec, v)
  {
    FieldReads(conv, f, width, prec, v);
    if conv == 'b' && v >= TWO32 {
      LongBinaryIsLost(f, width, prec, v);
    } else if IsPrefixed(conv, f, v) {
      PrefixedRecovers(conv, f, width, prec, v);
    } else {
      PlainRecovers(conv, f, width, prec, v);
    }
  }
}
