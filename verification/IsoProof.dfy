/** The proof that integer conversions agree with the standard exactly under
    `Agrees`: both sides are a lead, some zeros and the same digits, and where the
    numbers of characters differ no padding can make the texts equal. */
module IsoProof {
  import opened Machine
  import opened Numerals
  import opened Format
  import opened Iso

  /** A field without its padding. */
  function Body(lead: Text, zeros: nat, digits: Text): Text {
    lead + Chars('0', zeros) + digits
  }

  predicate Tight(s: Text) { forall i :: 0 <= i < |s| ==> s[i] != ' ' }

  /** The inputs a conversion can meet. */
  predicate Possible(conv: cchar, f: Flags, prec: nat, v: int) {
    && IsIntegerConversion(conv) && !f.uppercase
    && (v < 0 ==> IsSigned(conv)) && Abs(v) < TWO64
    && (!f.precision ==> prec == 0)
  }

  // ------------------------------------------------------------------ padding

  lemma PadInjective(x: Text, y: Text, width: nat, left: bool)
    requires Tight(x) && Tight(y)
    ensures Pad(x, width, left) == Pad(y, width, left) <==> x == y
  {
    if |x| < |y| {
      PadDiffers(x, y, width, left);
    } else if |y| < |x| {
      PadDiffers(y, x, width, left);
    } else {
      var p, q := Pad(x, width, left), Pad(y, width, left);
      var k := if left then 0 else |p| - |x|;
      assert p[k..k + |x|] == x && q[k..k + |y|] == y;
    }
  }

  lemma PadDiffers(x: Text, y: Text, width: nat, left: bool)
    requires |x| < |y| && Tight(y)
    ensures Pad(x, width, left) != Pad(y, width, left)
  {
    if |y| <= width {
      var k := if left then |x| else width - |x| - 1;
      assert Pad(x, width, left)[k] == ' ';
      assert Pad(y, width, left)[k] == y[if left then |x| else |y| - |x| - 1];
    }
  }

  predicate Comparable(cb: Text, ib: Text) {
    cb == ib || (|cb| < |ib| && Tight(ib)) || (|ib| < |cb| && Tight(cb))
  }

  lemma PaddedEqualIff(cb: Text, ib: Text, width: nat, left: bool)
    requires Comparable(cb, ib)
    ensures Pad(cb, width, left) == Pad(ib, width, left) <==> cb == ib
  {
    if |cb| < |ib| {
      PadDiffers(cb, ib, width, left);
    } else if |ib| < |cb| {
      PadDiffers(ib, cb, width, left);
    }
  }

  /** A blank sign before a left-justified body, or in blank padding on the left. */
  lemma PadBlank(y: Text, width: nat, left: bool)
    ensures left ==> Pad([' '] + y, width, left) == [' '] + Pad(y, Max(0, width - 1), left)
    ensures !left ==> Pad([' '] + y, width, left) == Pad(y, Max(width, |y| + 1), left)
  {
  }

  lemma BlankLeft(x: Text, y: Text, width: nat)
    requires Tight(x) && Tight(y)
    ensures Pad([' '] + x, width, true) == Pad([' '] + y, width, true) <==> x == y
  {
    var w := Max(0, width - 1);
    PadBlank(x, width, true);
    PadBlank(y, width, true);
    assert ([' '] + Pad(x, w, true))[1..] == Pad(x, w, true);
    assert ([' '] + Pad(y, w, true))[1..] == Pad(y, w, true);
    PadInjective(x, y, w, true);
  }

  lemma BlankRight(x: Text, y: Text, width: nat)
    requires Tight(y) && (x == y || |x| < |y|)
    ensures Pad(x, width, false) == Pad([' '] + y, width, false) <==> x == y && width > |y|
  {
    PadBlank(y, width, false);
    if |x| < |y| < width {
      PadDiffers(x, y, width, false);
    }
  }

  // ------------------------------------------------------------------- digits

  lemma StoredIs(v: nat, base: nat, f: Flags)
    requires IsBase(base) && v < TWO64 && !(v == 0 && f.precision)
    ensures |Stored(v, base, f)| > 0
    ensures base == 2 && v >= TWO32 ==> |Stored(v, base, f)| == 32 < |Numeral(v, base, f.uppercase)|
    ensures !(base == 2 && v >= TWO32) ==> Reverse(Stored(v, base, f)) == Numeral(v, base, f.uppercase)
    ensures base != 2 ==> |Stored(v, base, f)| <= 24
  {
    PowBounds(base);
    DigitsAreNumeral(v, base, f.uppercase, 32);
    if base != 2 {
      DigitsAreNumeral(v, base, f.uppercase, 24);
    }
  }

  /** The number of digits the conversion loop stores. */
  function StoredCount(conv: cchar, f: Flags, v: int): (n: nat)
    ensures n <= BUFFER_SIZE
  {
    |Stored(Abs(v), BaseOf(conv), IntegerFlags(conv, f))|
  }

  /** The stored digits, read forwards. */
  function Significant(conv: cchar, f: Flags, v: int): (r: Text)
    ensures |r| == StoredCount(conv, f, v)
  {
    Reverse(Stored(Abs(v), BaseOf(conv), IntegerFlags(conv, f)))
  }

  lemma SignificantIs(conv: cchar, f: Flags, prec: nat, v: int)
    requires Possible(conv, f, prec, v)
    ensures v == 0 && f.precision ==> Significant(conv, f, v) == []
    ensures v == 0 && !f.precision ==> Significant(conv, f, v) == ['0']
    ensures v != 0 && (conv == 'b' ==> v < TWO32) ==>
      Significant(conv, f, v) == Numeral(Abs(v), BaseOf(conv), conv == 'X')
    ensures conv == 'b' && v >= TWO32 ==> |Significant(conv, f, v)| == 32 < |Numeral(v, 2, false)|
    ensures conv != 'b' ==> |Significant(conv, f, v)| <= 24
    ensures v != 0 ==> |Significant(conv, f, v)| > 0
    ensures !(conv == 'b' && v >= TWO32) ==> StoredCount(conv, f, v) == DigitCount(conv, f, v)
  {
    var g := IntegerFlags(conv, f);
    assert g.uppercase == (conv == 'X') && g.precision == f.precision;
    if v != 0 || !f.precision {
      StoredIs(Abs(v), BaseOf(conv), g);
    }
  }

  // -------------------------------------------------------- the code's bodies

  /** The flags `_ntoa_format` sees. */
  function CodeFlags(conv: cchar, f: Flags, v: int): Flags {
    var g := IntegerFlags(conv, f);
    if v == 0 then g.(hash := false) else g
  }

  function CodeBody(conv: cchar, f: Flags, width: nat, prec: nat, v: int): (r: Text)
    ensures |r| <= BUFFER_SIZE
  {
    Reverse(Scratch(Stored(Abs(v), BaseOf(conv), IntegerFlags(conv, f)), v < 0, BaseOf(conv), prec, width,
                    CodeFlags(conv, f, v)))
  }

  lemma CodeIsPaddedBody(conv: cchar, f: Flags, width: nat, prec: nat, v: int)
    ensures var b := CodeBody(conv, f, width, prec, v);
      IntegerText(conv, f, width, prec, v) == if ZeroFill(f) then b else Pad(b, width, f.left)
  {
    var g, w := CodeFlags(conv, f, v), InnerWidth(v < 0, width, CodeFlags(conv, f, v));
    assert ZeroFill(f) <==> g.zeropad && !g.left;
    assert !ZeroFill(f) ==> w == width;
  }

  /** Zeros the code puts before d digits. */
  function CodeZeros(d: nat, signed: bool, f: Flags, width: nat, prec: nat): nat
    requires d <= BUFFER_SIZE
  {
    if f.left then 0
    else if f.precision then Max(0, Min(prec, BUFFER_SIZE) - d)
    else if f.zeropad then Max(0, Min(if signed && width > 0 then width - 1 else width, BUFFER_SIZE) - d)
    else 0
  }

  lemma PaddedReversed(ds: Text, z: nat, tail: Text)
    ensures Reverse(ds + Chars('0', z) + tail) == Body(Reverse(tail), z, Reverse(ds))
  {
    ReverseConcat(ds + Chars('0', z), tail);
    ReversePadded(ds, z);
    Associative(Reverse(tail), Chars('0', z), Reverse(ds));
  }

  lemma ScratchZeros(ds: Text, negative: bool, conv: cchar, f: Flags, width: nat, prec: nat)
    requires |ds| <= BUFFER_SIZE && (!f.precision ==> prec == 0)
    ensures var g := IntegerFlags(conv, f);
      ZeroPadded(ds, prec, InnerWidth(negative, width, g), g)
      == ds + Chars('0', CodeZeros(|ds|, negative || g.plus || g.space, f, width, prec))
  {
    assert ds + [] == ds;
  }

  // ------------------------------------------------- fields without a prefix

  predicate IsPlain(conv: cchar, f: Flags, v: int) { !f.hash || v == 0 || BaseOf(conv) == 10 }

  function SignOf(negative: bool, g: Flags): (t: Text)
    ensures |t| <= 1
  {
    if negative then ['-'] else if g.plus then ['+'] else if g.space then [' '] else []
  }

  lemma SignedIs(b: Text, negative: bool, g: Flags)
    requires |b| <= BUFFER_SIZE
    ensures Signed(b, negative, g) == b + (if |b| < BUFFER_SIZE then SignOf(negative, g) else [])
  {
    assert b + [] == b;
  }

  lemma SignedBody(ds: Text, z: nat, sign: Text)
    requires |sign| <= 1
    ensures Reverse((ds + Chars('0', z)) + sign) == Body(sign, z, Reverse(ds))
  {
    assert Reverse(sign) == sign;
    PaddedReversed(ds, z, sign);
  }

  lemma PlainScratch(ds: Text, negative: bool, base: nat, prec: nat, width: nat, g: Flags, z: nat)
    requires |ds| <= BUFFER_SIZE && !g.hash
    requires ZeroPadded(ds, prec, InnerWidth(negative, width, g), g) == ds + Chars('0', z)
    ensures Reverse(Scratch(ds, negative, base, prec, width, g))
         == Body(if |ds| + z < BUFFER_SIZE then SignOf(negative, g) else [], z, Reverse(ds))
  {
    SignedIs(ds + Chars('0', z), negative, g);
    SignedBody(ds, z, if |ds| + z < BUFFER_SIZE then SignOf(negative, g) else []);
  }

  lemma PlainBodyFrom(ds: Text, negative: bool, base: nat, prec: nat, width: nat, g: Flags, z: nat,
                      sign: Text, body: Text)
    requires |ds| <= BUFFER_SIZE && !g.hash
    requires ZeroPadded(ds, prec, InnerWidth(negative, width, g), g) == ds + Chars('0', z)
    requires body == Reverse(Scratch(ds, negative, base, prec, width, g))
    requires sign == if |ds| + z < BUFFER_SIZE then SignOf(negative, g) else []
    ensures body == Body(sign, z, Reverse(ds))
  {
    PlainScratch(ds, negative, base, prec, width, g, z);
  }

  lemma PlainCode(conv: cchar, f: Flags, width: nat, prec: nat, v: int)
    requires Possible(conv, f, prec, v) && IsPlain(conv, f, v)
    ensures CodeBody(conv, f, width, prec, v) == PlainBody(conv, f, width, prec, v)
  {
    var g, ds := CodeFlags(conv, f, v), Stored(Abs(v), BaseOf(conv), IntegerFlags(conv, f));
    assert Sign(conv, f, v) == SignOf(v < 0, g);
    ScratchZeros(ds, v < 0, conv, f, width, prec);
    PlainBodyFrom(ds, v < 0, BaseOf(conv), prec, width, g, PlainZeros(conv, f, width, prec, v),
                  PlainSign(conv, f, width, prec, v), CodeBody(conv, f, width, prec, v));
  }

  /** The code's body of an unprefixed field. */
  function PlainBody(conv: cchar, f: Flags, width: nat, prec: nat, v: int): Text {
    Body(PlainSign(conv, f, width, prec, v), PlainZeros(conv, f, width, prec, v), Significant(conv, f, v))
  }

  function PlainZeros(conv: cchar, f: Flags, width: nat, prec: nat, v: int): nat {
    CodeZeros(StoredCount(conv, f, v), Sign(conv, f, v) != [], f, width, prec)
  }

  /** The sign, if the buffer has room for it. */
  function PlainSign(conv: cchar, f: Flags, width: nat, prec: nat, v: int): (s: Text)
    ensures s == [] || s == ['-'] || s == ['+'] || s == [' ']
  {
    if StoredCount(conv, f, v) + PlainZeros(conv, f, width, prec, v) < BUFFER_SIZE then Sign(conv, f, v) else []
  }

  lemma PlainText(conv: cchar, f: Flags, width: nat, prec: nat, v: int)
    requires Possible(conv, f, prec, v) && IsPlain(conv, f, v)
    ensures var body := PlainBody(conv, f, width, prec, v);
      IntegerText(conv, f, width, prec, v) == if ZeroFill(f) then body else Pad(body, width, f.left)
  {
    CodeIsPaddedBody(conv, f, width, prec, v);
    PlainCode(conv, f, width, prec, v);
  }

  /** Zeros the standard puts before d digits of an unprefixed field. */
  function IsoZeros(d: nat, sign: nat, f: Flags, width: nat, prec: nat): nat {
    if f.precision then Max(0, prec - d) else if ZeroFill(f) then Max(0, width - sign - d) else 0
  }

  lemma PlainIsoDigits(conv: cchar, f: Flags, prec: nat, v: int)
    requires Possible(conv, f, prec, v) && IsPlain(conv, f, v) && !(conv == 'b' && v >= TWO32)
    requires !(conv == 'o' && f.hash && f.precision && prec == 0)
    ensures IsoDigits(conv, f, prec, v)
         == Chars('0', if f.precision then Max(0, prec - StoredCount(conv, f, v)) else 0) + Significant(conv, f, v)
  {
    SignificantIs(conv, f, prec, v);
    if v == 0 {
      assert Numeral(0, BaseOf(conv), conv == 'X') == ['0'];
    }
  }

  lemma PlainIso(conv: cchar, f: Flags, width: nat, prec: nat, v: int)
    requires Possible(conv, f, prec, v) && IsPlain(conv, f, v) && !(conv == 'b' && v >= TWO32)
    requires !(conv == 'o' && f.hash && f.precision && prec == 0)
    ensures var body := PlainIsoBody(conv, f, width, prec, v);
      IsoInteger(conv, f, width, prec, v) == if ZeroFill(f) then body else Pad(body, width, f.left)
  {
    assert Sign(conv, f, v) + Prefix(conv, f, v) == Sign(conv, f, v);
    PlainIsoDigits(conv, f, prec, v);
    IsoFromParts(conv, f, width, prec, v, if f.precision then Max(0, prec - StoredCount(conv, f, v)) else 0);
  }

  /** The standard's field as lead, zeros and digits. */
  lemma IsoFromParts(conv: cchar, f: Flags, width: nat, prec: nat, v: int, z: nat)
    requires IsoDigits(conv, f, prec, v) == Chars('0', z) + Significant(conv, f, v)
    ensures var lead, digits := Sign(conv, f, v) + Prefix(conv, f, v), Significant(conv, f, v);
      IsoInteger(conv, f, width, prec, v)
      == if ZeroFill(f) then Body(lead, Max(z, width - |lead| - |digits|), digits)
         else Pad(Body(lead, z, digits), width, f.left)
  {
    var lead, digits := Sign(conv, f, v) + Prefix(conv, f, v), Significant(conv, f, v);
    if ZeroFill(f) {
      MoreZeros(lead, Max(0, width - |lead| - z - |digits|), z, digits);
    } else {
      Associative(lead, Chars('0', z), digits);
    }
  }

  lemma MoreZeros(lead: Text, k: nat, z: nat, digits: Text)
    ensures lead + Chars('0', k) + (Chars('0', z) + digits) == Body(lead, k + z, digits)
  {
    Associative(lead + Chars('0', k), Chars('0', z), digits);
    Associative(lead, Chars('0', k), Chars('0', z));
    assert Chars('0', k) + Chars('0', z) == Chars('0', k + z);
  }

  lemma TightBody(lead: Text, zeros: nat, conv: cchar, f: Flags, prec: nat, v: int)
    requires Possible(conv, f, prec, v) && !(conv == 'b' && v >= TWO32) && Tight(lead)
    ensures Tight(Body(lead, zeros, Significant(conv, f, v)))
  {
    SignificantIs(conv, f, prec, v);
    TightNumeral(Abs(v), BaseOf(conv), conv == 'X');
  }

  lemma TightNumeral(v: nat, base: nat, upper: bool)
    requires IsBase(base)
    ensures Tight(Numeral(v, base, upper))
  {
    NumeralIsTight(v, base, upper);
    var r := Numeral(v, base, upper);
    assert forall i :: 0 <= i < |r| ==> r[i] in r;
  }

  /** Where the conditions hold the two bodies have the same parts, elsewhere they
      differ in length. */
  lemma PlainLengths(conv: cchar, f: Flags, width: nat, prec: nat, v: int)
    requires Possible(conv, f, prec, v) && !(conv == 'b' && v >= TWO32)
    ensures var d, sign := StoredCount(conv, f, v), |Sign(conv, f, v)|;
      var cz, iz := CodeZeros(d, sign > 0, f, width, prec), IsoZeros(d, sign, f, width, prec);
      var cs := if d + cz < BUFFER_SIZE then sign else 0;
      if PlainAgrees(conv, f, width, prec, v) then cs == sign && cz == iz else cs + cz != sign + iz
  {
    SignificantIs(conv, f, prec, v);
  }

  /** The standard's body of an unprefixed field. */
  function PlainIsoBody(conv: cchar, f: Flags, width: nat, prec: nat, v: int): Text {
    var sign := Sign(conv, f, v);
    Body(sign, IsoZeros(StoredCount(conv, f, v), |sign|, f, width, prec), Significant(conv, f, v))
  }

  lemma PlainBodies(conv: cchar, f: Flags, width: nat, prec: nat, v: int)
    requires Possible(conv, f, prec, v) && !(conv == 'b' && v >= TWO32)
    ensures var cb, ib := PlainBody(conv, f, width, prec, v), PlainIsoBody(conv, f, width, prec, v);
      if PlainAgrees(conv, f, width, prec, v) then cb == ib else |cb| != |ib|
  {
    PlainLengths(conv, f, width, prec, v);
  }

  lemma PlainComparable(conv: cchar, f: Flags, width: nat, prec: nat, v: int)
    requires Possible(conv, f, prec, v) && !(conv == 'b' && v >= TWO32) && Sign(conv, f, v) != [' ']
    ensures Comparable(PlainBody(conv, f, width, prec, v), PlainIsoBody(conv, f, width, prec, v))
  {
    PlainBodies(conv, f, width, prec, v);
    TightBody(PlainSign(conv, f, width, prec, v), PlainZeros(conv, f, width, prec, v), conv, f, prec, v);
    var sign := Sign(conv, f, v);
    TightBody(sign, IsoZeros(StoredCount(conv, f, v), |sign|, f, width, prec), conv, f, prec, v);
  }

  lemma PlainAgreesIff(conv: cchar, f: Flags, width: nat, prec: nat, v: int)
    requires Possible(conv, f, prec, v) && IsPlain(conv, f, v) && !(conv == 'b' && v >= TWO32)
    requires !(conv == 'o' && f.hash && f.precision && prec == 0)
    ensures IntegerText(conv, f, width, prec, v) == IsoInteger(conv, f, width, prec, v)
       <==> PlainAgrees(conv, f, width, prec, v) || BlankSignFits(conv, f, width, prec, v)
  {
    PlainText(conv, f, width, prec, v);
    PlainIso(conv, f, width, prec, v);
    PlainBodies(conv, f, width, prec, v);
    if !PlainAgrees(conv, f, width, prec, v) && !ZeroFill(f) {
      if Sign(conv, f, v) == [' '] {
        BlankSignIff(f, width, prec, v, conv);
      } else {
        PlainComparable(conv, f, width, prec, v);
        PaddedEqualIff(PlainBody(conv, f, width, prec, v), PlainIsoBody(conv, f, width, prec, v), width, f.left);
      }
    }
  }

  lemma BlankSignIff(f: Flags, width: nat, prec: nat, v: int, conv: cchar)
    requires Possible(conv, f, prec, v) && Sign(conv, f, v) == [' '] && !ZeroFill(f)
    requires !PlainAgrees(conv, f, width, prec, v)
    ensures Pad(PlainBody(conv, f, width, prec, v), width, f.left)
         == Pad(PlainIsoBody(conv, f, width, prec, v), width, f.left)
       <==> BlankSignFits(conv, f, width, prec, v)
  {
    var d, r := StoredCount(conv, f, v), Significant(conv, f, v);
    var cz, iz := CodeZeros(d, true, f, width, prec), IsoZeros(d, 1, f, width, prec);
    var x, y := Body([], cz, r), Body([], iz, r);
    SignificantIs(conv, f, prec, v);
    TightBody([], cz, conv, f, prec, v);
    TightBody([], iz, conv, f, prec, v);
    assert Body([' '], cz, r) == [' '] + x && Body([' '], iz, r) == [' '] + y;
    if f.left {
      BlankLeft(x, y, width);
    } else {
      BlankRight(x, y, width);
    }
  }

  // --------------------------------------------------------- prefixed fields

  predicate IsPrefixed(conv: cchar, f: Flags, v: int) { f.hash && v != 0 && BaseOf(conv) != 10 }

  /** Characters dropped from n when they just fill the width. */
  function Dropped(n: nat, base: nat, precision: bool, width: nat): (t: nat)
    ensures t <= n
  {
    if !precision && n == width && n > 0 then (if n > 1 && base == 16 then 2 else 1) else 0
  }

  /** The mark for the base, when one is used. */
  function Mark(base: nat, g: Flags): Text {
    if base == 16 then (if g.uppercase then ['X'] else ['x']) else if base == 2 then ['b'] else []
  }

  /** The part of the prefix that fits behind n buffered characters. */
  function MarkThatFits(n: nat, base: nat, g: Flags): (t: Text)
    ensures |t| <= 2
  {
    var mark := Mark(base, g);
    if n + |mark| < BUFFER_SIZE then ['0'] + mark else if n < BUFFER_SIZE then mark else []
  }

  lemma PrefixedIs(b: Text, base: nat, g: Flags)
    requires |b| <= BUFFER_SIZE
    ensures Prefixed(b, base, g) == b + Reverse(MarkThatFits(|b|, base, g))
  {
    assert Reverse(Mark(base, g)) == Mark(base, g);
    ReverseConcat(['0'], Mark(base, g));
    assert Reverse(['0']) == ['0'];
    assert b + [] == b;
  }

  lemma ReverseTwice(s: Text)
    requires |s| <= 2
    ensures Reverse(Reverse(s)) == s
  {
  }

  /** The scratch buffer of a prefixed field, before it is reversed. */
  lemma MarkedScratch(ds: Text, base: nat, prec: nat, width: nat, g: Flags, padded: Text, n: nat)
    requires |ds| <= BUFFER_SIZE && g.hash && !g.plus && !g.space && (!g.precision ==> prec == 0)
    requires padded == ZeroPadded(ds, prec, width, g)
    requires n == |padded| - Dropped(|padded|, base, g.precision, width)
    ensures Scratch(ds, false, base, prec, width, g) == padded[..n] + Reverse(MarkThatFits(n, base, g))
  {
    var b := Trimmed(padded, base, prec, width, g);
    assert b == padded[..n];
    PrefixedIs(b, base, g);
  }

  /** A body with z zeros and digits r, of which the first t characters were
      dropped before the mark was put in front. */
  predicate Assembled(body: Text, r: Text, z: nat, t: nat, mark: Text) {
    t <= z + |r| && body == mark + (Chars('0', z) + r)[t..]
  }

  lemma AssembledBody(body: Text, r: Text, z: nat, t: nat, mark: Text)
    requires Assembled(body, r, z, t, mark)
    ensures |body| == |r| + z - t + |mark|
    ensures t <= z ==> body == Body(mark, z - t, r)
  {
    if t <= z {
      assert (Chars('0', z) + r)[t..] == Chars('0', z - t) + r;
      Associative(mark, Chars('0', z - t), r);
    }
  }

  /** The code's body of a prefixed field with significant digits r. */
  predicate IsMarkedBody(base: nat, r: Text, f: Flags, g: Flags, width: nat, prec: nat, body: Text)
    requires |r| <= BUFFER_SIZE
  {
    var z := CodeZeros(|r|, false, f, width, prec);
    var t := Dropped(|r| + z, base, f.precision, width);
    Assembled(body, r, z, t, MarkThatFits(|r| + z - t, base, g))
  }

  lemma MarkedPieces(ds: Text, z: nat, t: nat, mark: Text, s: Text)
    requires t <= |ds| + z && |mark| <= 2
    requires s == (ds + Chars('0', z))[..|ds| + z - t] + Reverse(mark)
    ensures Assembled(Reverse(s), Reverse(ds), z, t, mark)
  {
    ReversePadded(ds, z);
    MarkOnTrimmed(ds + Chars('0', z), Chars('0', z) + Reverse(ds), t, mark, s);
  }

  lemma MarkOnTrimmed(padded: Text, back: Text, t: nat, mark: Text, s: Text)
    requires back == Reverse(padded) && t <= |padded| && |mark| <= 2
    requires s == padded[..|padded| - t] + Reverse(mark)
    ensures Reverse(s) == mark + back[t..]
  {
    ReversePrefix(padded, |padded| - t);
    ReverseConcat(padded[..|padded| - t], Reverse(mark));
    ReverseTwice(mark);
  }

  lemma ReversePrefix(s: Text, n: nat)
    requires n <= |s|
    ensures Reverse(s[..n]) == Reverse(s)[|s| - n..]
  {
    assert forall i :: 0 <= i < n ==> Reverse(s[..n])[i] == Reverse(s)[|s| - n + i];
  }

  lemma ReversePadded(ds: Text, z: nat)
    ensures Reverse(ds + Chars('0', z)) == Chars('0', z) + Reverse(ds)
  {
    ReverseConcat(ds, Chars('0', z));
    ReverseChars('0', z);
  }

  lemma MarkedBodyFrom(base: nat, ds: Text, r: Text, f: Flags, g: Flags, width: nat, prec: nat, s: Text, z: nat, n: nat)
    requires |ds| == |r| <= BUFFER_SIZE && r == Reverse(ds)
    requires z == CodeZeros(|r|, false, f, width, prec) && n == |r| + z - Dropped(|r| + z, base, f.precision, width)
    requires s == (ds + Chars('0', z))[..n] + Reverse(MarkThatFits(n, base, g))
    ensures IsMarkedBody(base, r, f, g, width, prec, Reverse(s))
  {
    MarkedPieces(ds, z, |r| + z - n, MarkThatFits(n, base, g), s);
  }

  lemma CodeBodyOfMagnitude(conv: cchar, f: Flags, width: nat, prec: nat, v: int)
    requires v > 0
    ensures var g, base := IntegerFlags(conv, f), BaseOf(conv);
      CodeBody(conv, f, width, prec, v) == Reverse(Scratch(Stored(v, base, g), false, base, prec, width, g))
  {
  }

  lemma PrefixedCode(conv: cchar, f: Flags, width: nat, prec: nat, v: int)
    requires IsPrefixed(conv, f, v) && v > 0 && !IsSigned(conv) && (!f.precision ==> prec == 0)
    ensures IsMarkedBody(BaseOf(conv), Significant(conv, f, v), f, IntegerFlags(conv, f), width, prec,
                         CodeBody(conv, f, width, prec, v))
  {
    var g, base := IntegerFlags(conv, f), BaseOf(conv);
    var ds := Stored(v, base, g);
    var z := CodeZeros(|ds|, false, f, width, prec);
    var n := |ds| + z - Dropped(|ds| + z, base, f.precision, width);
    CodeBodyOfMagnitude(conv, f, width, prec, v);
    ScratchZeros(ds, false, conv, f, width, prec);
    MarkedScratch(ds, base, prec, width, g, ds + Chars('0', z), n);
    MarkedBodyFrom(base, ds, Significant(conv, f, v), f, g, width, prec,
                   Scratch(ds, false, base, prec, width, g), z, n);
  }

  /** Zeros among the digits the standard asks for. */
  function PrefixedIsoZeros(conv: cchar, d: nat, f: Flags, prec: nat): nat {
    var z := if f.precision then Max(0, prec - d) else 0;
    if conv == 'o' then Max(1, z) else z
  }

  lemma PrefixedIsoDigits(conv: cchar, f: Flags, prec: nat, v: int)
    requires Possible(conv, f, prec, v) && IsPrefixed(conv, f, v) && !(conv == 'b' && v >= TWO32)
    ensures IsoDigits(conv, f, prec, v)
         == Chars('0', PrefixedIsoZeros(conv, StoredCount(conv, f, v), f, prec)) + Significant(conv, f, v)
  {
    SignificantIs(conv, f, prec, v);
    NumeralIsTight(Abs(v), BaseOf(conv), conv == 'X');
    IsoDigitsOf(conv, f, prec, v, Significant(conv, f, v));
  }

  lemma IsoDigitsOf(conv: cchar, f: Flags, prec: nat, v: int, r: Text)
    requires v != 0 && f.hash && r == Numeral(Abs(v), BaseOf(conv), conv == 'X') && r[0] != '0'
    ensures IsoDigits(conv, f, prec, v) == Chars('0', PrefixedIsoZeros(conv, |r|, f, prec)) + r
  {
    LeadingOctalZero(if f.precision then Max(0, prec - |r|) else 0, r);
  }

  /** '#' puts a zero before octal digits unless there is one already. */
  lemma LeadingOctalZero(z: nat, r: Text)
    requires r != [] && r[0] != '0'
    ensures z == 0 ==> Chars('0', z) + r == r
    ensures var digits := Chars('0', z) + r;
      (if digits[0] != '0' then ['0'] + digits else digits) == Chars('0', Max(1, z)) + r
  {
  }

  function PrefixedZeros(conv: cchar, lead: nat, d: nat, f: Flags, width: nat, prec: nat): nat {
    var z := PrefixedIsoZeros(conv, d, f, prec);
    if ZeroFill(f) then Max(z, width - lead - d) else z
  }

  lemma PrefixedIso(conv: cchar, f: Flags, width: nat, prec: nat, v: int)
    requires Possible(conv, f, prec, v) && IsPrefixed(conv, f, v) && !(conv == 'b' && v >= TWO32)
    ensures var lead, d := Prefix(conv, f, v), StoredCount(conv, f, v);
      var body := Body(lead, PrefixedZeros(conv, |lead|, d, f, width, prec), Significant(conv, f, v));
      IsoInteger(conv, f, width, prec, v) == if ZeroFill(f) then body else Pad(body, width, f.left)
  {
    assert Sign(conv, f, v) + Prefix(conv, f, v) == Prefix(conv, f, v);
    PrefixedIsoDigits(conv, f, prec, v);
    IsoFromParts(conv, f, width, prec, v, PrefixedIsoZeros(conv, StoredCount(conv, f, v), f, prec));
  }

  /** The number of characters of the code's body of a prefixed field. */
  function MarkLength(n: nat, base: nat): nat {
    if n >= BUFFER_SIZE then 0
    else if base == 8 then 1
    else if n + 1 < BUFFER_SIZE then 2 else 1
  }

  /** What the numbers of characters decide: where the code agrees the bodies have the
      same parts, and elsewhere their lengths differ or only half of the mark is there. */
  predicate LengthsDecide(base: nat, agrees: bool, zeroFill: bool, d: nat, lead: nat, iz: nat, cz: nat, t: nat,
                          mark: nat) {
    if agrees then
      t <= cz && (if base == 8 then mark + cz - t == iz else mark == 2 && cz - t == iz)
    else
      || d + cz - t + mark < lead + iz + d
      || (d + cz - t + mark > lead + iz + d && t <= cz)
      || (base == 2 && zeroFill && mark == 1 && t <= cz)
  }

  lemma PrefixedLengths(base: nat, d: nat, f: Flags, width: nat, prec: nat)
    requires base == 2 || base == 8 || base == 16
    requires 0 < d <= BUFFER_SIZE && (base != 2 ==> d <= 24) && (!f.precision ==> prec == 0)
    ensures var lead := if base == 8 then 0 else 2;
      var cz, iz := CodeZeros(d, false, f, width, prec), PrefixedZeros(ConversionOf(base), lead, d, f, width, prec);
      var t := Dropped(d + cz, base, f.precision, width);
      LengthsDecide(base, PrefixAgrees(base, d, f, width, prec), ZeroFill(f), d, lead, iz, cz, t,
                    MarkLength(d + cz - t, base))
  {
  }

  /** The standard's body of a prefixed field. */
  function PrefixedBody(conv: cchar, f: Flags, width: nat, prec: nat, v: int): Text {
    var lead, d := Prefix(conv, f, v), StoredCount(conv, f, v);
    Body(lead, PrefixedZeros(conv, |lead|, d, f, width, prec), Significant(conv, f, v))
  }

  function ZeroAndMark(base: nat, g: Flags): Text {
    if base == 8 then [] else ['0'] + Mark(base, g)
  }

  function ConversionOf(base: nat): cchar { if base == 8 then 'o' else if base == 2 then 'b' else 'x' }

  lemma TightParts(lead: Text, zeros: nat, r: Text)
    requires Tight(lead) && Tight(r)
    ensures Tight(Body(lead, zeros, r))
  {
  }

  /** A mark is the whole prefix, a part of it, or nothing. */
  predicate MarkOf(base: nat, mark: Text, lead: Text) {
    && Tight(mark) && Tight(lead) && |mark| <= 2
    && (if base == 8 then lead == [] && (mark == [] || mark == ['0'])
        else |lead| == 2 && lead[0] == '0' && (|mark| == 2 ==> mark == lead) && (|mark| == 1 ==> mark == lead[1..]))
    && (base == 2 ==> lead == ['0', 'b'])
  }

  lemma MarkByLength(n: nat, base: nat, g: Flags)
    requires base == 2 || base == 8 || base == 16
    ensures MarkOf(base, MarkThatFits(n, base, g), ZeroAndMark(base, g))
    ensures |MarkThatFits(n, base, g)| == MarkLength(n, base)
  {
  }

  /** Comparing two bodies by their numbers of characters. */
  lemma CompareBodies(base: nat, r: Text, lead: Text, iz: nat, mark: Text, z: nat, t: nat, body: Text,
                      agrees: bool, zeroFill: bool)
    requires Tight(r) && MarkOf(base, mark, lead) && Assembled(body, r, z, t, mark)
    requires LengthsDecide(base, agrees, zeroFill, |r|, |lead|, iz, z, t, |mark|)
    ensures body == Body(lead, iz, r) <==> agrees
    ensures zeroFill || Comparable(body, Body(lead, iz, r))
  {
    AssembledBody(body, r, z, t, mark);
    TightParts(lead, iz, r);
    if agrees {
      SameBody(base, mark, lead, z - t, iz, r);
    } else if t <= z {
      TightParts(mark, z - t, r);
      assert mark == ['b'] ==> body[0] == 'b' && Body(lead, iz, r)[0] == '0';
    }
  }

  /** Comparing the bodies of a prefixed field with significant digits r. */
  lemma BodiesFromLengths(base: nat, r: Text, f: Flags, g: Flags, width: nat, prec: nat, body: Text)
    requires base == 2 || base == 8 || base == 16
    requires 0 < |r| <= BUFFER_SIZE && (base != 2 ==> |r| <= 24) && (!f.precision ==> prec == 0) && Tight(r)
    requires IsMarkedBody(base, r, f, g, width, prec, body)
    ensures var lead := ZeroAndMark(base, g);
      var iso := Body(lead, PrefixedZeros(ConversionOf(base), |lead|, |r|, f, width, prec), r);
      && (body == iso <==> PrefixAgrees(base, |r|, f, width, prec))
      && (ZeroFill(f) || Comparable(body, iso))
  {
    var d, lead := |r|, ZeroAndMark(base, g);
    var cz, iz := CodeZeros(d, false, f, width, prec), PrefixedZeros(ConversionOf(base), |lead|, d, f, width, prec);
    var t := Dropped(d + cz, base, f.precision, width);
    PrefixedLengths(base, d, f, width, prec);
    MarkByLength(d + cz - t, base, g);
    CompareBodies(base, r, lead, iz, MarkThatFits(d + cz - t, base, g), cz, t, body,
                  PrefixAgrees(base, d, f, width, prec), ZeroFill(f));
  }

  lemma TightSignificant(conv: cchar, f: Flags, prec: nat, v: int)
    requires Possible(conv, f, prec, v) && !(conv == 'b' && v >= TWO32)
    ensures Tight(Significant(conv, f, v))
  {
    TightBody([], 0, conv, f, prec, v);
    assert Body([], 0, Significant(conv, f, v)) == Significant(conv, f, v);
  }

  lemma PrefixIsMark(conv: cchar, f: Flags, v: int)
    requires IsIntegerConversion(conv) && IsPrefixed(conv, f, v) && !f.uppercase
    ensures Prefix(conv, f, v) == ZeroAndMark(BaseOf(conv), IntegerFlags(conv, f))
  {
  }

  lemma PrefixedBodies(conv: cchar, f: Flags, width: nat, prec: nat, v: int)
    requires Possible(conv, f, prec, v) && IsPrefixed(conv, f, v) && !(conv == 'b' && v >= TWO32)
    ensures var cb, ib := CodeBody(conv, f, width, prec, v), PrefixedBody(conv, f, width, prec, v);
      && (cb == ib <==> PrefixAgrees(BaseOf(conv), DigitCount(conv, f, v), f, width, prec))
      && (ZeroFill(f) || Comparable(cb, ib))
  {
    var base, g, r := BaseOf(conv), IntegerFlags(conv, f), Significant(conv, f, v);
    PrefixedCode(conv, f, width, prec, v);
    SignificantIs(conv, f, prec, v);
    TightSignificant(conv, f, prec, v);
    PrefixIsMark(conv, f, v);
    BodiesFromLengths(base, r, f, g, width, prec, CodeBody(conv, f, width, prec, v));
  }

  lemma PrefixedAgreesIff(conv: cchar, f: Flags, width: nat, prec: nat, v: int)
    requires Possible(conv, f, prec, v) && IsPrefixed(conv, f, v) && !(conv == 'b' && v >= TWO32)
    ensures IntegerText(conv, f, width, prec, v) == IsoInteger(conv, f, width, prec, v)
       <==> PrefixAgrees(BaseOf(conv), DigitCount(conv, f, v), f, width, prec)
  {
    CodeIsPaddedBody(conv, f, width, prec, v);
    PrefixedIso(conv, f, width, prec, v);
    PrefixedBodies(conv, f, width, prec, v);
    if !ZeroFill(f) {
      PaddedEqualIff(CodeBody(conv, f, width, prec, v), PrefixedBody(conv, f, width, prec, v), width, f.left);
    }
  }

  lemma SameBody(base: nat, mark: Text, lead: Text, cz: nat, iz: nat, r: Text)
    requires if base == 8 then lead == [] && (mark == [] || mark == ['0']) && |mark| + cz == iz
             else mark == lead && cz == iz
    ensures Body(mark, cz, r) == Body(lead, iz, r)
  {
    if base == 8 {
      assert mark + Chars('0', cz) == [] + Chars('0', iz);
    }
  }

  // ------------------------------------------------------------ all conversions

  /** A binary numeral of more than 32 digits makes a longer body than the scratch buffer. */
  lemma LongBinaryBodies(f: Flags, width: nat, prec: nat, v: int)
    requires Possible('b', f, prec, v) && v >= TWO32
    ensures |CodeBody('b', f, width, prec, v)| <= BUFFER_SIZE < |IsoDigits('b', f, prec, v)|
    ensures Tight(Prefix('b', f, v) + IsoDigits('b', f, prec, v)) && Sign('b', f, v) == []
  {
    SignificantIs('b', f, prec, v);
    TightNumeral(v, 2, false);
  }

  /** A binary numeral of more than 32 digits never fits the scratch buffer. */
  lemma LongBinaryDiffers(f: Flags, width: nat, prec: nat, v: int)
    requires Possible('b', f, prec, v) && v >= TWO32
    ensures IntegerText('b', f, width, prec, v) != IsoInteger('b', f, width, prec, v)
  {
    var lead, digits := Prefix('b', f, v), IsoDigits('b', f, prec, v);
    CodeIsPaddedBody('b', f, width, prec, v);
    LongBinaryBodies(f, width, prec, v);
    assert Sign('b', f, v) + lead == lead;
    if !ZeroFill(f) {
      PadDiffers(CodeBody('b', f, width, prec, v), lead + digits, width, f.left);
    }
  }

  /** The zero that '#' asks for in an octal field without digits is missing. */
  lemma OctalZeroDiffers(f: Flags, width: nat)
    requires f.hash && f.precision && !f.uppercase
    ensures IntegerText('o', f, width, 0, 0) != IsoInteger('o', f, width, 0, 0)
  {
    PlainText('o', f, width, 0, 0);
    SignificantIs('o', f, 0, 0);
    OctalZero(f);
    assert |PlainBody('o', f, width, 0, 0)| == 0;
    PadDiffers(PlainBody('o', f, width, 0, 0), Sign('o', f, 0) + Prefix('o', f, 0) + IsoDigits('o', f, 0, 0),
               width, f.left);
  }

  lemma OctalZero(f: Flags)
    requires f.hash && f.precision
    ensures var field := Sign('o', f, 0) + Prefix('o', f, 0) + IsoDigits('o', f, 0, 0);
      |field| == 1 && Tight(field)
  {
  }

  /** For every conversion, flag set, width, precision and 64-bit value: the code
      prints the field the standard describes if and only if `Agrees`. */
  lemma IntegerAgreesIff(conv: cchar, f: Flags, width: nat, prec: nat, v: int)
    requires Possible(conv, f, prec, v)
    ensures IntegerText(conv, f, width, prec, v) == IsoInteger(conv, f, width, prec, v)
       <==> Agrees(conv, f, width, prec, v)
  {
    if conv == 'b' && v >= TWO32 {
      LongBinaryDiffers(f, width, prec, v);
    } else if conv == 'o' && f.hash && v == 0 && f.precision && prec == 0 {
      OctalZeroDiffers(f, width);
    } else if IsPrefixed(conv, f, v) {
      PrefixedAgreesIff(conv, f, width, prec, v);
    } else {
      PlainAgreesIff(conv, f, width, prec, v);
    }
  }

  /** Where the code agrees, the field is as long as the width, or as its sign or
      prefix and its digits if those are longer. */
  lemma AgreeingLength(conv: cchar, f: Flags, width: nat, prec: nat, v: int)
    requires Possible(conv, f, prec, v) && Agrees(conv, f, width, prec, v)
    ensures |IntegerText(conv, f, width, prec, v)|
         == Max(width, |Sign(conv, f, v)| + |Prefix(conv, f, v)| + |IsoDigits(conv, f, prec, v)|)
  {
    IntegerAgreesIff(conv, f, width, prec, v);
  }

  // ------------------------------------------------------------------ examples

  /** `%-5.3d` of 7: a left-justified field gets no precision zeros. */
  lemma LeftPrecisionExample()
    ensures var f := NO_FLAGS.(left := true, precision := true);
      IntegerText('d', f, 5, 3, 7) == "7    " && IsoInteger('d', f, 5, 3, 7) == "007  "
  {
    var f := NO_FLAGS.(left := true, precision := true);
    PlainText('d', f, 5, 3, 7);
    SignificantIs('d', f, 3, 7);
    assert Numeral(7, 10, false) == "7";
    assert PlainBody('d', f, 5, 3, 7) == "7";
  }

  /** `%#2x` of AB: both digits make room for the prefix. */
  lemma TrimmedDigitsExample()
    ensures var f := NO_FLAGS.(hash := true);
      IntegerText('x', f, 2, 0, 0xAB) == "0x" && IsoInteger('x', f, 2, 0, 0xAB) == "0xab"
  {
    var f := NO_FLAGS.(hash := true);
    var g := IntegerFlags('x', f);
    assert Digits(0xA, 16, false, 31) == "a";
    assert Stored(0xAB, 16, g) == "ba";
    assert Scratch("ba", false, 16, 0, 2, g) == "x0";
    assert Numeral(0xA, 16, false) == "a";
    assert Numeral(0xAB, 16, false) == "ab";
  }
}
