/** Whole conversion specifications against section 7.21.6.1 of ISO C11, from the
    text of the format and the variable arguments to the characters printed. */
module Conformance {
  import opened Machine
  import opened Numerals
  import opened Format
  import opened Directives
  import opened Render
  import opened Iso
  import opened IsoProof

  // ------------------------------------------------------------ specifications

  /** A conversion specification as it is written after its `%`. */
  datatype Spec = Spec(flags: Text, width: Text, dot: bool, precision: Text, length: Length, conv: cchar)
  {
    predicate Valid() {
      && AllFlags(flags) && IsAmountText(width) && (width == [] || width[0] != '0')
      && IsAmountText(precision) && (!dot ==> precision == []) && IsConversionChar(conv)
    }

    function Written(): Text {
      flags + (width + ((if dot then ['.'] + precision else []) + (LengthText(length) + [conv])))
    }

    /** What the code makes of it. */
    function Read(): Directive {
      Directive(WithLength(WithPrecision(FlagsOf(flags), dot), length), AmountOf(width), AmountOf(precision), conv)
    }

    /** The conversions compared here. A length modifier asks for wide characters or
        has no meaning with c and s. */
    predicate Compared() {
      IsIntegerConversion(conv) || ((conv == 'c' || conv == 's') && length == NoLength)
    }
  }

  lemma SpecParses(s: Spec, rest: Text)
    requires s.Valid()
    ensures ParseDirective(s.Written() + rest) == (s.Read(), [s.conv] + rest)
  {
    GrammarParses(s.flags, s.width, s.dot, s.precision, s.length, s.conv, rest);
    Regrouped(s.flags, s.width, if s.dot then ['.'] + s.precision else [], LengthText(s.length), [s.conv], rest);
  }

  predicate Suits(s: Spec, args: seq<Arg>) {
    s.Valid() && s.Compared() && Accepts(Kinds(Conversion(s.Read())), args)
  }

  // -------------------------------------------------------------- the standard

  /** Flags and width: any decimal integer, or an argument, where a negative one is
      a '-' flag followed by its magnitude. */
  function AskedWidth(s: Spec, args: seq<Arg>): (Flags, nat)
    requires Suits(s, args)
  {
    var f := s.Read().flags;
    if s.width == ['*'] then
      ConversionAccepts(s.Read(), args);
      var w := ToInt32(args[0].word);
      (if w < 0 then f.(left := true) else f, Abs(w))
    else (f, Value(s.width, 10))
  }

  /** The precision, if any: a negative argument is taken as if there were none. */
  function AskedPrecision(s: Spec, args: seq<Arg>): Option<nat>
    requires Suits(s, args)
  {
    if !s.dot then None
    else if s.precision == ['*'] then
      ConversionAccepts(s.Read(), args);
      var p := ToInt32(ResolveWidth(s.Read(), args).2[0].word);
      if p < 0 then None else Some(p)
    else Some(Value(s.precision, 10))
  }

  /** The argument that is converted. */
  function Operand(s: Spec, args: seq<Arg>): (a: Arg)
    requires Suits(s, args)
    ensures KindOf(a) == ValueKinds(s.conv, s.Read().flags.LongLong())[0]
  {
    ConversionAccepts(s.Read(), args);
    ResolvePrecision(s.Read(), ResolveWidth(s.Read(), args).2).1[0]
  }

  /** The value of an integer conversion. */
  function Integer(s: Spec, args: seq<Arg>): int
    requires Suits(s, args) && IsIntegerConversion(s.conv)
  {
    IntegerValue(s.conv, s.Read().flags, Operand(s, args))
  }

  /** No more characters of a string than the precision, if there is one. */
  function IsoString(all: Text, precision: Option<nat>, width: nat, left: bool): Text {
    Pad(if precision.Some? then all[..Min(|all|, precision.value)] else all, width, left)
  }

  /** The field section 7.21.6.1 of ISO C11 asks for. */
  function IsoField(s: Spec, args: seq<Arg>): Text
    requires Suits(s, args)
  {
    var (f, width) := AskedWidth(s, args);
    var precision := AskedPrecision(s, args);
    if s.conv == 's' then IsoString(UpToNul(Operand(s, args).chars), precision, width, f.left)
    else if s.conv == 'c' then Pad([CharValue(Operand(s, args).word)], width, f.left)
    else
      IsoInteger(s.conv, f.(precision := precision.Some?), width, if precision.Some? then precision.value else 0,
                 Integer(s, args))
  }

  // ----------------------------------------------------- where the code agrees

  /** Numbers in a format are read modulo 2^32. */
  predicate NumberFits(text: Text) { text == ['*'] || Value(text, 10) < TWO32 }

  /** The flags, width and precision the code uses. */
  function Used(s: Spec, args: seq<Arg>): (Flags, u32, u32)
    requires Suits(s, args)
  {
    ConversionAccepts(s.Read(), args);
    var (f, width, args1) := ResolveWidth(s.Read(), args);
    (f, width, ResolvePrecision(s.Read(), args1).0)
  }

  /** The code treats a negative precision as precision zero. That agrees with having
      none unless zero prints no digit or the '0' flag would have padded. */
  predicate ZeroPrecisionAgrees(conv: cchar, f: Flags, width: nat, v: int) {
    var g := f.(precision := false);
    && v != 0 && Agrees(conv, f, width, 0, v)
    && (ZeroFill(g) ==> width <= |Sign(conv, g, v)| + |Prefix(conv, g, v)| + |IsoDigits(conv, g, 0, v)|)
  }

  predicate Blank(s: Text) { forall i :: 0 <= i < |s| ==> s[i] == ' ' }

  /** A string cut after q characters looks like the whole string when it is no longer,
      or when what differs are blanks in the padding. */
  predicate CutAgrees(all: Text, q: nat, width: nat, left: bool) {
    |all| <= q || (|all| <= width && Blank(if left then all[q..] else all))
  }

  predicate FieldAgrees(s: Spec, args: seq<Arg>)
    requires Suits(s, args)
  {
    var (f, width) := AskedWidth(s, args);
    var asked, used := AskedPrecision(s, args), Used(s, args).2;
    NumberFits(s.width) &&
    if s.conv == 'c' then true
    else if s.conv == 's' then
      !s.dot || asked == Some(used) || CutAgrees(UpToNul(Operand(s, args).chars), used, width, f.left)
    else
      NumberFits(s.precision) &&
      if s.dot && asked == None then ZeroPrecisionAgrees(s.conv, f, width, Integer(s, args))
      else Agrees(s.conv, f, width, if s.dot then asked.value else 0, Integer(s, args))
  }

  // -------------------------------------------------------- negative precisions

  lemma SameDigits(conv: cchar, f: Flags, v: int)
    requires v != 0 && f.precision
    ensures IsoDigits(conv, f, 0, v) == IsoDigits(conv, f.(precision := false), 0, v)
    ensures Sign(conv, f, v) == Sign(conv, f.(precision := false), v)
    ensures Prefix(conv, f, v) == Prefix(conv, f.(precision := false), v)
  {
    var raw := Numeral(Abs(v), BaseOf(conv), conv == 'X');
    assert Chars('0', 0) + raw == raw;
  }

  lemma TightDigits(conv: cchar, f: Flags, v: int)
    ensures Tight(IsoDigits(conv, f, 0, v))
  {
    var raw := Numeral(Abs(v), BaseOf(conv), conv == 'X');
    TightNumeral(Abs(v), BaseOf(conv), conv == 'X');
    assert Chars('0', 0) + raw == raw;
  }

  /** Blanks and zeros in front of a field differ as soon as there are any. */
  lemma BlanksOrZeros(lead: Text, digits: Text, width: nat)
    requires Tight(digits) && (Tight(lead) || lead == [' '])
    ensures Pad(lead + digits, width, false) == lead + Chars('0', Max(0, width - |lead| - |digits|)) + digits
       <==> width <= |lead| + |digits|
  {
    var k := Max(0, width - |lead| - |digits|);
    var p, q := Pad(lead + digits, width, false), lead + Chars('0', k) + digits;
    if k > 0 {
      assert p[0] == ' ' && (lead == [' '] ==> p[1] == ' ');
      assert q[|lead|] == '0' && (lead != [] ==> q[0] == lead[0]);
    }
  }

  lemma LeadIs(conv: cchar, f: Flags, v: int)
    ensures var lead := Sign(conv, f, v) + Prefix(conv, f, v);
      lead == [' '] || Tight(lead)
  {
  }

  lemma StandardsMeet(conv: cchar, f: Flags, width: nat, v: int)
    requires v != 0 && f.precision
    ensures var g := f.(precision := false);
      IsoInteger(conv, f, width, 0, v) == IsoInteger(conv, g, width, 0, v)
      <==> (ZeroFill(g) ==> width <= |Sign(conv, g, v)| + |Prefix(conv, g, v)| + |IsoDigits(conv, g, 0, v)|)
  {
    var g := f.(precision := false);
    SameDigits(conv, f, v);
    TightDigits(conv, g, v);
    LeadIs(conv, g, v);
    BlanksOrZeros(Sign(conv, g, v) + Prefix(conv, g, v), IsoDigits(conv, g, 0, v), width);
  }

  /** Zero with precision zero has no digit, zero without a precision has one. */
  lemma ZeroDiffers(conv: cchar, f: Flags, width: nat)
    requires Possible(conv, f, 0, 0) && f.precision
    ensures IntegerText(conv, f, width, 0, 0) != IsoInteger(conv, f.(precision := false), width, 0, 0)
  {
    var g := f.(precision := false);
    PlainText(conv, f, width, 0, 0);
    SignificantIs(conv, f, 0, 0);
    assert PlainBody(conv, f, width, 0, 0) == Sign(conv, f, 0) + [];
    assert '0' !in IntegerText(conv, f, width, 0, 0);
    assert IsoDigits(conv, g, 0, 0) == ['0'];
    assert '0' in IsoInteger(conv, g, width, 0, 0);
  }

  /** Long binary numerals differ from the standard's with and without precision. */
  lemma BinaryDiffers(f: Flags, width: nat, v: int)
    requires Possible('b', f, 0, v) && f.precision && v > 0 && !Agrees('b', f, width, 0, v)
    ensures IntegerText('b', f, width, 0, v) != IsoInteger('b', f.(precision := false), width, 0, v)
  {
    var g := f.(precision := false);
    var lead, digits := Sign('b', g, v) + Prefix('b', g, v), IsoDigits('b', g, 0, v);
    CodeIsPaddedBody('b', f, width, 0, v);
    SignificantIs('b', f, 0, v);
    TightDigits('b', g, v);
    assert |CodeBody('b', f, width, 0, v)| <= 32 < |lead + digits|;
    if ZeroFill(g) {
      assert width > 32 ==> IntegerText('b', f, width, 0, v)[0] == ' ';
    } else {
      PadDiffers(CodeBody('b', f, width, 0, v), lead + digits, width, f.left);
    }
  }

  lemma ZeroPrecisionIff(conv: cchar, f: Flags, width: nat, v: int)
    requires Possible(conv, f, 0, v) && f.precision
    ensures IntegerText(conv, f, width, 0, v) == IsoInteger(conv, f.(precision := false), width, 0, v)
       <==> ZeroPrecisionAgrees(conv, f, width, v)
  {
    if v == 0 {
      ZeroDiffers(conv, f, width);
    } else {
      IntegerAgreesIff(conv, f, width, 0, v);
      StandardsMeet(conv, f, width, v);
      SignificantIs(conv, f, 0, v);
      if !Agrees(conv, f, width, 0, v) {
        BinaryDiffers(f, width, v);
      }
    }
  }

  // ------------------------------------------------------------------- strings

  /** A text that does not change when blanks push it k places to the right. */
  predicate ShiftedAt(all: Text, k: nat, i: nat)
    requires i < |all|
  {
    all[i] == (if i < k then ' ' else all[i - k])
  }

  lemma {:induction false} ShiftedBlank(all: Text, k: nat, j: nat)
    requires k > 0 && j < |all|
    requires forall i :: 0 <= i < |all| ==> ShiftedAt(all, k, i)
    ensures all[j] == ' '
    decreases j
  {
    assert ShiftedAt(all, k, j);
    if j >= k {
      ShiftedBlank(all, k, j - k);
    }
  }

  lemma CutRight(all: Text, q: nat, width: nat)
    requires q < |all| <= width
    ensures Pad(all[..q], width, false) == Pad(all, width, false) <==> Blank(all)
  {
    var a, b, k := Pad(all[..q], width, false), Pad(all, width, false), |all| - q;
    if a == b {
      forall i | 0 <= i < |all| ensures ShiftedAt(all, k, i) {
        assert b[width - |all| + i] == all[i];
      }
      forall j | 0 <= j < |all| ensures all[j] == ' ' {
        ShiftedBlank(all, k, j);
      }
    }
  }

  lemma CutLeft(all: Text, q: nat, width: nat)
    requires q < |all| <= width
    ensures Pad(all[..q], width, true) == Pad(all, width, true) <==> Blank(all[q..])
  {
    var a, b := Pad(all[..q], width, true), Pad(all, width, true);
    if a == b {
      forall j | 0 <= j < |all[q..]| ensures all[q..][j] == ' ' {
        assert a[q + j] == ' ' && b[q + j] == all[q..][j];
      }
    } else if Blank(all[q..]) {
      forall i | 0 <= i < width ensures a[i] == b[i] {
        assert q <= i < |all| ==> b[i] == all[q..][i - q];
      }
    }
  }

  lemma CutAgreesIff(all: Text, q: nat, width: nat, left: bool)
    ensures Pad(all[..Min(|all|, q)], width, left) == Pad(all, width, left) <==> CutAgrees(all, q, width, left)
  {
    if |all| <= q {
      assert all[..|all|] == all;
    } else if |all| <= width {
      if left {
        CutLeft(all, q, width);
      } else {
        CutRight(all, q, width);
      }
    }
  }

  // --------------------------------------------------------------- all numbers

  /** Fields of 2^32 characters or more are never printed. */
  lemma TooLong(conv: cchar, f: Flags, width: u32, prec: u32, v: int, g: Flags, isoWidth: nat, isoPrec: nat)
    requires isoWidth >= TWO32 || (isoPrec >= TWO32 && g.precision)
    ensures IntegerText(conv, f, width, prec, v) != IsoInteger(conv, g, isoWidth, isoPrec, v)
  {
    CodeIsPaddedBody(conv, f, width, prec, v);
    assert |IntegerText(conv, f, width, prec, v)| < TWO32;
    assert |IsoInteger(conv, g, isoWidth, isoPrec, v)| >= TWO32;
  }

  lemma ValueInRange(conv: cchar, f: Flags, a: Arg)
    requires KindOf(a) == if f.LongLong() then KDWord else KWord
    ensures Abs(IntegerValue(conv, f, a)) < TWO64
    ensures IntegerValue(conv, f, a) < 0 ==> IsSigned(conv)
  {
  }

  /** The code uses what is asked for wherever the numbers fit. */
  lemma UsedIsAsked(s: Spec, args: seq<Arg>)
    requires Suits(s, args)
    ensures var (f, width, prec) := Used(s, args);
      && f == AskedWidth(s, args).0 && f.precision == s.dot && !f.uppercase && (!s.dot ==> prec == 0)
      && (if NumberFits(s.width) then width == AskedWidth(s, args).1 else AskedWidth(s, args).1 >= TWO32)
    ensures match AskedPrecision(s, args)
      case None => Used(s, args).2 == 0
      case Some(p) => s.dot && if NumberFits(s.precision) then p == Used(s, args).2 else p >= TWO32
  {
    UsedWidthIsAsked(s, args);
    UsedPrecisionIsAsked(s, args);
  }

  lemma UsedWidthIsAsked(s: Spec, args: seq<Arg>)
    requires Suits(s, args)
    ensures var (f, width, prec) := Used(s, args);
      && f == AskedWidth(s, args).0 && f.precision == s.dot && !f.uppercase
      && (if NumberFits(s.width) then width == AskedWidth(s, args).1 else AskedWidth(s, args).1 >= TWO32)
  {
    ConversionAccepts(s.Read(), args);
    if s.width == ['*'] {
      StarWidth(args[0].word);
    }
  }

  lemma StarWidth(word: u32)
    ensures var w := ToInt32(word);
      ToU32(if w < 0 then -w else w) == Abs(w)
  {
  }

  lemma UsedPrecisionIsAsked(s: Spec, args: seq<Arg>)
    requires Suits(s, args)
    ensures !s.dot ==> Used(s, args).2 == 0
    ensures match AskedPrecision(s, args)
      case None => Used(s, args).2 == 0
      case Some(p) => s.dot && if NumberFits(s.precision) then p == Used(s, args).2 else p >= TWO32
  {
    ConversionAccepts(s.Read(), args);
    if s.precision == [] {
      assert Value([], 10) == 0;
    }
  }

  lemma SameLength(conv: cchar, f: Flags, g: Flags, a: Arg)
    requires f.length == g.length && KindOf(a) == if f.LongLong() then KDWord else KWord
    ensures IntegerValue(conv, f, a) == IntegerValue(conv, g, a)
  {
  }

  lemma IntegerTextIs(s: Spec, args: seq<Arg>)
    requires Suits(s, args) && IsIntegerConversion(s.conv)
    ensures var (f, width, prec) := Used(s, args);
      ConversionText(s.Read(), args) == IntegerText(s.conv, f, width, prec, Integer(s, args))
  {
    ConversionAccepts(s.Read(), args);
    SameLength(s.conv, s.Read().flags, Used(s, args).0, Operand(s, args));
  }

  lemma StringTextIs(s: Spec, args: seq<Arg>)
    requires Suits(s, args) && s.conv == 's'
    ensures var (f, width, prec) := Used(s, args);
      ConversionText(s.Read(), args) == StringText(Operand(s, args).chars, f, width, prec)
  {
    ConversionAccepts(s.Read(), args);
  }

  lemma CharTextIs(s: Spec, args: seq<Arg>)
    requires Suits(s, args) && s.conv == 'c'
    ensures var (f, width, prec) := Used(s, args);
      ConversionText(s.Read(), args) == CharText(CharValue(Operand(s, args).word), f, width)
  {
    ConversionAccepts(s.Read(), args);
  }

  lemma IntegerFieldAgrees(s: Spec, args: seq<Arg>)
    requires Suits(s, args) && IsIntegerConversion(s.conv)
    ensures ConversionText(s.Read(), args) == IsoField(s, args) <==> FieldAgrees(s, args)
  {
    var (f, width, prec) := Used(s, args);
    var asked, v := AskedPrecision(s, args), Integer(s, args);
    IntegerTextIs(s, args);
    UsedIsAsked(s, args);
    ValueInRange(s.conv, s.Read().flags, Operand(s, args));
    if !NumberFits(s.width) || (asked.Some? && !NumberFits(s.precision)) {
      TooLong(s.conv, f, width, prec, v, f.(precision := asked.Some?), AskedWidth(s, args).1,
              if asked.Some? then asked.value else 0);
    } else if s.dot && asked == None {
      ZeroPrecisionIff(s.conv, f, width, v);
    } else {
      IntegerAgreesIff(s.conv, f, width, prec, v);
    }
  }

  lemma StringFieldAgrees(s: Spec, args: seq<Arg>)
    requires Suits(s, args) && s.conv == 's'
    ensures ConversionText(s.Read(), args) == IsoField(s, args) <==> FieldAgrees(s, args)
  {
    var (f, width, prec) := Used(s, args);
    var all := UpToNul(Operand(s, args).chars);
    StringTextIs(s, args);
    UsedIsAsked(s, args);
    CutAgreesIff(all, prec, width, f.left);
    assert all[..|all|] == all;
  }

  /** For every specification the grammar allows, with numbers of any length, and for all
      arguments, `*` included: the code reads it and prints the field the standard asks
      for if and only if `FieldAgrees`. */
  lemma ConversionAgreesIff(s: Spec, rest: Text, args: seq<Arg>)
    requires Suits(s, args)
    ensures ParseDirective(s.Written() + rest) == (s.Read(), [s.conv] + rest)
    ensures ConversionText(s.Read(), args) == IsoField(s, args) <==> FieldAgrees(s, args)
  {
    SpecParses(s, rest);
    if IsIntegerConversion(s.conv) {
      IntegerFieldAgrees(s, args);
    } else if s.conv == 's' {
      StringFieldAgrees(s, args);
    } else {
      CharTextIs(s, args);
      UsedIsAsked(s, args);
    }
  }
}
