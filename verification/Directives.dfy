/** The directive language of `_vsnprintf` (libc/stdio.c): how a format is read. A
    `const char*` is the text from the pointer on; reading past it yields NUL. */
module Directives {
  import opened Machine
  import opened Numerals
  import opened Format

  /** A width or precision: a number, or `*` for the next argument. */
  datatype Amount = Given(n: u32) | Star

  datatype Directive = Directive(flags: Flags, width: Amount, precision: Amount, conv: cchar)

  datatype Item = Literal(c: cchar) | Conversion(d: Directive)

  function Deref(s: Text): cchar { if s == [] then NUL else s[0] }

  predicate IsDigit(c: cchar) { '0' <= c <= '9' }

  predicate IsFlag(c: cchar) { c == '0' || c == '-' || c == '+' || c == ' ' || c == '#' }

  function WithFlag(f: Flags, c: cchar): (r: Flags)
    ensures r.precision == f.precision && r.uppercase == f.uppercase
  {
    match c
    case '0' => f.(zeropad := true)
    case '-' => f.(left := true)
    case '+' => f.(plus := true)
    case ' ' => f.(space := true)
    case _ => f.(hash := true)
  }

  function ParseFlags(s: Text, f: Flags): (r: (Flags, Text))
    ensures |r.1| <= |s|
  {
    if s != [] && IsFlag(s[0]) then ParseFlags(s[1..], WithFlag(f, s[0])) else (f, s)
  }

  /** `_atoi`, in 32-bit unsigned arithmetic. */
  function ParseNumber(s: Text, acc: u32): (r: (u32, Text))
    ensures |r.1| <= |s|
  {
    if s != [] && IsDigit(s[0]) then ParseNumber(s[1..], ToU32(acc * 10 + DigitValue(s[0]))) else (acc, s)
  }

  function ParseAmount(s: Text): (r: (Amount, Text))
    ensures |r.1| <= |s|
  {
    if s != [] && IsDigit(s[0]) then
      var (n, rest) := ParseNumber(s, 0);
      (Given(n), rest)
    else if s != [] && s[0] == '*' then (Star, s[1..])
    else (Given(0), s)
  }

  /** Whether there is a precision, and which. */
  function ParsePrecision(s: Text): (r: (bool, Amount, Text))
    ensures |r.2| <= |s|
    ensures !r.0 ==> r.1 == Given(0)
  {
    if s != [] && s[0] == '.' then
      var (p, rest) := ParseAmount(s[1..]);
      (true, p, rest)
    else (false, Given(0), s)
  }

  function ParseLength(s: Text): (r: (Length, Text))
    ensures |r.1| <= |s|
  {
    if s == [] then (NoLength, s)
    else if s[0] == 'l' then (if |s| > 1 && s[1] == 'l' then (LL, s[2..]) else (L, s[1..]))
    else if s[0] == 'h' then (if |s| > 1 && s[1] == 'h' then (HH, s[2..]) else (H, s[1..]))
    else if s[0] == 't' then (T, s[1..])
    else if s[0] == 'j' then (J, s[1..])
    else if s[0] == 'z' then (Z, s[1..])
    else (NoLength, s)
  }

  /** On this target `t` and `z` mean `l`, and `j` means 64 bits. */
  function LengthBits(l: Length): Length { if l == T || l == Z then L else l }

  function WithLength(f: Flags, l: Length): (r: Flags)
    ensures r.precision == f.precision && r.uppercase == f.uppercase
  {
    if l == NoLength then f else f.(length := LengthBits(l))
  }

  function WithPrecision(f: Flags, dotted: bool): Flags {
    if dotted then f.(precision := true) else f
  }

  /** Everything between `%` and the conversion character, which is not consumed. */
  function ParseDirective(s: Text): (r: (Directive, Text))
    ensures |r.1| <= |s|
  {
    var (f, s1) := ParseFlags(s, NO_FLAGS);
    var (w, s2) := ParseAmount(s1);
    var (dotted, p, s3) := ParsePrecision(s2);
    var (l, s4) := ParseLength(s3);
    (Directive(WithLength(WithPrecision(f, dotted), l), w, p, Deref(s4)), s4)
  }

  /** The items of a format up to its first NUL; nothing if it ends in the middle of
      a directive, where the loop would step over the terminator. */
  function Parse(s: Text): Option<seq<Item>>
    decreases |s|
  {
    if s == [] || s[0] == NUL then Some([])
    else if s[0] != '%' then Cons(Literal(s[0]), Parse(s[1..]))
    else
      var (d, rest) := ParseDirective(s[1..]);
      if rest == [] then None else Cons(Conversion(d), Parse(rest[1..]))
  }

  function Cons(item: Item, rest: Option<seq<Item>>): Option<seq<Item>> {
    match rest case Some(items) => Some([item] + items) case None => None
  }

  function Append(a: Option<seq<Item>>, b: Option<seq<Item>>): Option<seq<Item>> {
    if a.Some? && b.Some? then Some(a.value + b.value) else None
  }

  // ---------------------------------------------------------------- the grammar

  predicate AllFlags(s: Text) { forall i :: 0 <= i < |s| ==> IsFlag(s[i]) }

  predicate AllDecimal(s: Text) { forall i :: 0 <= i < |s| ==> IsDigit(s[i]) }

  /** The flags written in a text, in any order and number. */
  function FlagsOf(s: Text): Flags {
    NO_FLAGS.(zeropad := '0' in s, left := '-' in s, plus := '+' in s, space := ' ' in s, hash := '#' in s)
  }

  /** A number of any length, `*`, or nothing. */
  predicate IsAmountText(s: Text) { s == ['*'] || AllDecimal(s) }

  function AmountOf(s: Text): Amount {
    if s == ['*'] then Star else Given(ToU32(Value(s, 10)))
  }

  function LengthText(l: Length): Text {
    match l
    case NoLength => [] case L => ['l'] case LL => ['l', 'l'] case H => ['h'] case HH => ['h', 'h']
    case J => ['j'] case Z => ['z'] case T => ['t']
  }

  /** A character that can end a directive and nothing else. */
  predicate IsConversionChar(c: cchar) {
    !IsFlag(c) && !IsDigit(c) && c != NUL && c !in ['*', '.', 'l', 'h', 'j', 'z', 't']
  }

  /** The five flags of g added to f. */
  function Merged(f: Flags, g: Flags): Flags {
    f.(zeropad := f.zeropad || g.zeropad, left := f.left || g.left, plus := f.plus || g.plus,
       space := f.space || g.space, hash := f.hash || g.hash)
  }

  lemma FlagsOfCons(c: cchar, s: Text, f: Flags)
    requires IsFlag(c)
    ensures Merged(f, FlagsOf([c] + s)) == Merged(WithFlag(f, c), FlagsOf(s))
  {
    InCons('0', c, s);
    InCons('-', c, s);
    InCons('+', c, s);
    InCons(' ', c, s);
    InCons('#', c, s);
    MergeOne(f, FlagsOf([c] + s), FlagsOf(s), c);
  }

  lemma MergeOne(f: Flags, all: Flags, others: Flags, c: cchar)
    requires IsFlag(c)
    requires all.zeropad == (others.zeropad || c == '0') && all.left == (others.left || c == '-')
    requires all.plus == (others.plus || c == '+') && all.space == (others.space || c == ' ')
    requires all.hash == (others.hash || c == '#')
    ensures Merged(f, all) == Merged(WithFlag(f, c), others)
  {
  }

  lemma InCons(x: cchar, c: cchar, s: Text)
    ensures x in [c] + s <==> x == c || x in s
  {
  }

  lemma {:induction false} FlagsParse(fs: Text, rest: Text, f: Flags)
    requires AllFlags(fs) && (rest == [] || !IsFlag(rest[0]))
    ensures ParseFlags(fs + rest, f) == (Merged(f, FlagsOf(fs)), rest)
    decreases |fs|
  {
    if fs == [] {
      assert fs + rest == rest;
    } else {
      assert (fs + rest)[1..] == fs[1..] + rest;
      assert fs == [fs[0]] + fs[1..];
      FlagsOfCons(fs[0], fs[1..], f);
      FlagsParse(fs[1..], rest, WithFlag(f, fs[0]));
    }
  }

  lemma ModStep(x: nat, d: nat)
    ensures ToU32(ToU32(x) * 10 + d) == ToU32(x * 10 + d)
  {
    var low := x % TWO32 * 10 + d;
    var k := x / TWO32 * 10;
    ModUnique(x * 10 + d, TWO32, k + low / TWO32, low % TWO32);
  }

  lemma {:induction false} NumberParses(before: Text, ds: Text, rest: Text)
    requires AllDecimal(ds) && (rest == [] || !IsDigit(rest[0]))
    ensures ParseNumber(ds + rest, ToU32(Value(before, 10))) == (ToU32(Value(before + ds, 10)), rest)
    decreases |ds|
  {
    if ds == [] {
      assert ds + rest == rest && before + ds == before;
    } else {
      assert (ds + rest)[1..] == ds[1..] + rest;
      assert (before + [ds[0]])[..|before|] == before;
      ModStep(Value(before, 10), DigitValue(ds[0]));
      NumberParses(before + [ds[0]], ds[1..], rest);
      assert before + [ds[0]] + ds[1..] == before + ds;
    }
  }

  lemma AmountParses(s: Text, rest: Text)
    requires IsAmountText(s) && (rest == [] || (!IsDigit(rest[0]) && rest[0] != '*'))
    ensures ParseAmount(s + rest) == (AmountOf(s), rest)
  {
    if s == [] {
      assert s + rest == rest;
    } else if s != ['*'] {
      NumberParses([], s, rest);
      assert [] + s == s;
    }
  }

  /** Every text of the grammar is read as the directive it denotes, and nothing but
      that text is consumed: flags in any order, a width that does not start with
      the digit 0, any precision and length, and a conversion character. */
  lemma GrammarParses(fs: Text, ws: Text, dot: bool, ps: Text, l: Length, c: cchar, rest: Text)
    requires AllFlags(fs) && IsAmountText(ws) && (ws == [] || ws[0] != '0')
    requires IsAmountText(ps) && (!dot ==> ps == []) && IsConversionChar(c)
    ensures ParseDirective(fs + (ws + ((if dot then ['.'] + ps else []) + (LengthText(l) + ([c] + rest)))))
         == (Directive(WithLength(WithPrecision(FlagsOf(fs), dot), l), AmountOf(ws), AmountOf(ps), c), [c] + rest)
  {
    var s4 := [c] + rest;
    var s3 := LengthText(l) + s4;
    var s2 := (if dot then ['.'] + ps else []) + s3;
    LengthStarts(l, c, rest);
    PrecisionParses(dot, ps, s3);
    WidthParses(fs, ws, s2);
    LengthParses(l, s4);
  }

  lemma LengthStarts(l: Length, c: cchar, rest: Text)
    requires IsConversionChar(c)
    ensures var s := LengthText(l) + ([c] + rest);
      s != [] && !IsFlag(s[0]) && !IsDigit(s[0]) && s[0] != '*' && s[0] != '.'
  {
  }

  lemma PrecisionParses(dot: bool, ps: Text, rest: Text)
    requires IsAmountText(ps) && (!dot ==> ps == [])
    requires rest != [] && !IsFlag(rest[0]) && !IsDigit(rest[0]) && rest[0] != '*' && rest[0] != '.'
    ensures var s := (if dot then ['.'] + ps else []) + rest;
      && ParsePrecision(s) == (dot, AmountOf(ps), rest)
      && !IsFlag(s[0]) && !IsDigit(s[0]) && s[0] != '*'
  {
    if dot {
      assert (['.'] + ps + rest)[1..] == ps + rest;
      AmountParses(ps, rest);
    } else {
      assert [] + rest == rest;
    }
  }

  lemma WidthParses(fs: Text, ws: Text, rest: Text)
    requires AllFlags(fs) && IsAmountText(ws) && (ws == [] || ws[0] != '0')
    requires rest != [] && !IsFlag(rest[0]) && !IsDigit(rest[0]) && rest[0] != '*'
    ensures ParseFlags(fs + (ws + rest), NO_FLAGS) == (FlagsOf(fs), ws + rest)
    ensures ParseAmount(ws + rest) == (AmountOf(ws), rest)
  {
    assert ws != [] ==> (ws + rest)[0] == ws[0];
    assert ws == [] ==> ws + rest == rest;
    FlagsParse(fs, ws + rest, NO_FLAGS);
    AmountParses(ws, rest);
  }

  lemma LengthParses(l: Length, rest: Text)
    requires rest != [] && IsConversionChar(rest[0])
    ensures ParseLength(LengthText(l) + rest) == (l, rest)
  {
    var s := LengthText(l) + rest;
    assert |LengthText(l)| == 2 ==> s[2..] == rest;
    assert |LengthText(l)| == 1 ==> s[1..] == rest && s[1] == rest[0];
    assert l == NoLength ==> s == rest;
  }

  // ----------------------------------------------------------- the round trip

  function FlagsText(f: Flags): Text {
    (if f.zeropad then ['0'] else []) + ((if f.left then ['-'] else []) + ((if f.plus then ['+'] else [])
    + ((if f.space then [' '] else []) + (if f.hash then ['#'] else []))))
  }

  function AmountText(a: Amount): Text {
    match a
    case Star => ['*']
    case Given(n) => if n == 0 then [] else Numeral(n, 10, false)
  }

  /** The directives a text can denote. */
  predicate Expressible(d: Directive) {
    && IsConversionChar(d.conv) && !d.flags.uppercase
    && (!d.flags.precision ==> d.precision == Given(0))
    && d.flags.length != T && d.flags.length != Z
  }

  function DirectiveText(d: Directive): Text {
    FlagsText(d.flags) + (AmountText(d.width)
    + ((if d.flags.precision then ['.'] + AmountText(d.precision) else []) + (LengthText(d.flags.length) + [d.conv])))
  }

  lemma InOptional(b: bool, c: cchar, s: Text)
    requires AllFlags(s) && IsFlag(c)
    ensures var t := (if b then [c] else []) + s;
      AllFlags(t) && forall x: cchar :: x in t <==> (b && x == c) || x in s
  {
  }

  lemma FlagsTextMembers(f: Flags)
    ensures AllFlags(FlagsText(f))
    ensures forall x: cchar :: x in FlagsText(f) <==>
      || (f.zeropad && x == '0') || (f.left && x == '-') || (f.plus && x == '+')
      || (f.space && x == ' ') || (f.hash && x == '#')
  {
    var t1 := if f.hash then ['#'] else [];
    var t2 := (if f.space then [' '] else []) + t1;
    var t3 := (if f.plus then ['+'] else []) + t2;
    var t4 := (if f.left then ['-'] else []) + t3;
    InOptional(f.hash, '#', []);
    assert t1 + [] == t1;
    InOptional(f.space, ' ', t1);
    InOptional(f.plus, '+', t2);
    InOptional(f.left, '-', t3);
    InOptional(f.zeropad, '0', t4);
  }

  lemma FlagsTextDenotes(f: Flags)
    ensures AllFlags(FlagsText(f))
    ensures Merged(NO_FLAGS, FlagsOf(FlagsText(f))) == Merged(NO_FLAGS, f)
  {
    FlagsTextMembers(f);
    SameFlags('0' in FlagsText(f), '-' in FlagsText(f), '+' in FlagsText(f), ' ' in FlagsText(f), '#' in FlagsText(f),
              FlagsOf(FlagsText(f)), f);
  }

  lemma SameFlags(zeropad: bool, left: bool, plus: bool, space: bool, hash: bool, g: Flags, f: Flags)
    requires zeropad == g.zeropad == f.zeropad && left == g.left == f.left && plus == g.plus == f.plus
    requires space == g.space == f.space && hash == g.hash == f.hash
    ensures Merged(NO_FLAGS, g) == Merged(NO_FLAGS, f)
  {
  }

  lemma DecimalNumeral(n: nat)
    ensures AllDecimal(Numeral(n, 10, false)) && Value(Numeral(n, 10, false), 10) == n
    ensures Numeral(n, 10, false)[0] == '0' <==> n == 0
  {
    NumeralReads(n, 10, false);
    NumeralIsTight(n, 10, false);
    DigitsAreDecimal(Numeral(n, 10, false));
  }

  lemma DigitsAreDecimal(t: Text)
    requires AllDigits(t, 10)
    ensures AllDecimal(t)
  {
    forall i | 0 <= i < |t| ensures IsDigit(t[i]) {
      assert DigitValue(t[i]) < 10;
    }
  }

  lemma AmountTextDenotes(a: Amount)
    ensures IsAmountText(AmountText(a)) && AmountOf(AmountText(a)) == a
    ensures AmountText(a) != [] ==> AmountText(a)[0] != '0'
  {
    if a.Given? && a.n > 0 {
      DecimalNumeral(a.n);
    }
  }

  /** Printing any directive and reading it back gives the same flags, width,
      precision, length and conversion, and consumes exactly the printed text. */
  lemma DirectiveRoundTrip(d: Directive, rest: Text)
    requires Expressible(d)
    ensures ParseDirective(DirectiveText(d) + rest) == (d, [d.conv] + rest)
  {
    FlagsTextDenotes(d.flags);
    AmountTextDenotes(d.width);
    AmountTextDenotes(d.precision);
    var fs, ws, l := FlagsText(d.flags), AmountText(d.width), d.flags.length;
    var ps := if d.flags.precision then AmountText(d.precision) else [];
    GrammarParses(fs, ws, d.flags.precision, ps, l, d.conv, rest);
    Regrouped(fs, ws, if d.flags.precision then ['.'] + ps else [], LengthText(l), [d.conv], rest);
    FlagsRebuilt(d.flags);
  }

  lemma Regrouped(a: Text, b: Text, c: Text, d: Text, e: Text, rest: Text)
    ensures (a + (b + (c + (d + e)))) + rest == a + (b + (c + (d + (e + rest))))
  {
  }

  lemma FlagsRebuilt(f: Flags)
    requires !f.uppercase && f.length != T && f.length != Z
    ensures WithLength(WithPrecision(FlagsOf(FlagsText(f)), f.precision), f.length) == f
  {
    FlagsTextDenotes(f);
  }

  // -------------------------------------------------------------- concatenation

  lemma {:induction false} FlagsLocal(s: Text, t: Text, f: Flags)
    requires ParseFlags(s, f).1 != []
    ensures ParseFlags(s + t, f) == (ParseFlags(s, f).0, ParseFlags(s, f).1 + t)
    decreases |s|
  {
    if IsFlag(s[0]) {
      FlagsLocal(s[1..], t, WithFlag(f, s[0]));
      assert (s + t)[1..] == s[1..] + t;
    }
  }

  lemma {:induction false} NumberLocal(s: Text, t: Text, acc: u32)
    requires ParseNumber(s, acc).1 != []
    ensures ParseNumber(s + t, acc) == (ParseNumber(s, acc).0, ParseNumber(s, acc).1 + t)
    decreases |s|
  {
    if IsDigit(s[0]) {
      NumberLocal(s[1..], t, ToU32(acc * 10 + DigitValue(s[0])));
      assert (s + t)[1..] == s[1..] + t;
    }
  }

  lemma AmountLocal(s: Text, t: Text)
    requires ParseAmount(s).1 != []
    ensures ParseAmount(s + t) == (ParseAmount(s).0, ParseAmount(s).1 + t)
  {
    if IsDigit(s[0]) {
      NumberLocal(s, t, 0);
    } else {
      assert (s + t)[1..] == s[1..] + t;
    }
  }

  lemma PrecisionLocal(s: Text, t: Text)
    requires ParsePrecision(s).2 != []
    ensures ParsePrecision(s + t) == (ParsePrecision(s).0, ParsePrecision(s).1, ParsePrecision(s).2 + t)
  {
    if s[0] == '.' {
      AmountLocal(s[1..], t);
      assert (s + t)[1..] == s[1..] + t;
    }
  }

  lemma LengthLocal(s: Text, t: Text)
    requires ParseLength(s).1 != []
    ensures ParseLength(s + t) == (ParseLength(s).0, ParseLength(s).1 + t)
  {
    assert (s + t)[1..] == s[1..] + t;
    assert |s| > 1 ==> (s + t)[1] == s[1] && (s + t)[2..] == s[2..] + t;
  }

  lemma DirectiveLocal(s: Text, t: Text)
    requires ParseDirective(s).1 != []
    ensures ParseDirective(s + t) == (ParseDirective(s).0, ParseDirective(s).1 + t)
  {
    var (f, s1) := ParseFlags(s, NO_FLAGS);
    var (w, s2) := ParseAmount(s1);
    FlagsLocal(s, t, NO_FLAGS);
    AmountLocal(s1, t);
    PrecisionLocal(s2, t);
    LengthLocal(ParsePrecision(s2).2, t);
  }

  /** Formats may be cut between directives: the items of a concatenation are the
      items of the parts. */
  lemma {:induction false} ParseConcat(a: Text, b: Text)
    requires NUL !in a && Parse(a).Some?
    ensures Parse(a + b) == Append(Parse(a), Parse(b))
    decreases |a|
  {
    if a == [] {
      assert a + b == b;
      assert Parse(b).Some? ==> [] + Parse(b).value == Parse(b).value;
    } else {
      assert a == [a[0]] + a[1..] && a + b == [a[0]] + (a[1..] + b);
      if a[0] != '%' {
        LiteralParses(a[0], a[1..]);
        LiteralParses(a[0], a[1..] + b);
        ParseConcat(a[1..], b);
        ConsAppend(Literal(a[0]), Parse(a[1..]), Parse(b));
      } else {
        var (d, rest) := ParseDirective(a[1..]);
        ConversionParses(a[1..]);
        DirectiveLocal(a[1..], b);
        ConversionParses(a[1..] + b);
        DirectiveIsSuffix(a[1..]);
        assert (rest + b)[1..] == rest[1..] + b;
        ParseConcat(rest[1..], b);
        ConsAppend(Conversion(d), Parse(rest[1..]), Parse(b));
      }
    }
  }

  lemma LiteralParses(c: cchar, s: Text)
    requires c != '%' && c != NUL
    ensures Parse([c] + s) == Cons(Literal(c), Parse(s))
  {
    assert ([c] + s)[1..] == s;
  }

  lemma ConversionParses(s: Text)
    ensures ParseDirective(s).1 == [] ==> Parse(['%'] + s) == None
    ensures ParseDirective(s).1 != [] ==>
      Parse(['%'] + s) == Cons(Conversion(ParseDirective(s).0), Parse(ParseDirective(s).1[1..]))
  {
    assert (['%'] + s)[1..] == s;
  }

  lemma ConsAppend(item: Item, a: Option<seq<Item>>, b: Option<seq<Item>>)
    ensures Cons(item, Append(a, b)) == Append(Cons(item, a), b)
  {
    if a.Some? && b.Some? {
      assert [item] + (a.value + b.value) == ([item] + a.value) + b.value;
    }
  }

  predicate IsSuffix(r: Text, s: Text) { |r| <= |s| && r == s[|s| - |r|..] }

  lemma {:induction false} FlagsSuffix(s: Text, f: Flags)
    ensures IsSuffix(ParseFlags(s, f).1, s)
    decreases |s|
  {
    if s != [] && IsFlag(s[0]) {
      FlagsSuffix(s[1..], WithFlag(f, s[0]));
    }
  }

  lemma {:induction false} NumberSuffix(s: Text, acc: u32)
    ensures IsSuffix(ParseNumber(s, acc).1, s)
    decreases |s|
  {
    if s != [] && IsDigit(s[0]) {
      NumberSuffix(s[1..], ToU32(acc * 10 + DigitValue(s[0])));
    }
  }

  lemma AmountSuffix(s: Text)
    ensures IsSuffix(ParseAmount(s).1, s)
  {
    NumberSuffix(s, 0);
  }

  lemma PrecisionSuffix(s: Text)
    ensures IsSuffix(ParsePrecision(s).2, s)
  {
    if s != [] && s[0] == '.' {
      AmountSuffix(s[1..]);
      SuffixTransitive(ParsePrecision(s).2, s[1..], s);
    }
  }

  lemma LengthSuffix(s: Text)
    ensures IsSuffix(ParseLength(s).1, s)
  {
  }

  lemma SuffixTransitive(a: Text, b: Text, c: Text)
    requires IsSuffix(a, b) && IsSuffix(b, c)
    ensures IsSuffix(a, c)
  {
  }

  /** What is left after a directive is the end of what there was. */
  lemma DirectiveIsSuffix(s: Text)
    ensures IsSuffix(ParseDirective(s).1, s)
  {
    var s1 := ParseFlags(s, NO_FLAGS).1;
    var s2 := ParseAmount(s1).1;
    var s3 := ParsePrecision(s2).2;
    var s4 := ParseLength(s3).1;
    FlagsSuffix(s, NO_FLAGS);
    AmountSuffix(s1);
    PrecisionSuffix(s2);
    LengthSuffix(s3);
    SuffixTransitive(s2, s1, s);
    SuffixTransitive(s3, s2, s);
    SuffixTransitive(s4, s3, s);
  }

  // --------------------------------------------------------------- whole formats

  predicate ExpressibleItem(item: Item) {
    match item
    case Literal(c) => c != '%' && c != NUL
    case Conversion(d) => Expressible(d)
  }

  function FormatText(items: seq<Item>): Text {
    if items == [] then []
    else (match items[0] case Literal(c) => [c] case Conversion(d) => ['%'] + DirectiveText(d)) + FormatText(items[1..])
  }

  /** Any sequence of items can be written as a format, and parses back. */
  lemma {:induction false} FormatRoundTrip(items: seq<Item>)
    requires forall i :: 0 <= i < |items| ==> ExpressibleItem(items[i])
    ensures Parse(FormatText(items)) == Some(items)
    decreases |items|
  {
    if items != [] {
      var rest := FormatText(items[1..]);
      FormatRoundTrip(items[1..]);
      assert items == [items[0]] + items[1..];
      match items[0]
      case Literal(c) => LiteralParses(c, rest);
      case Conversion(d) =>
        assert ['%'] + DirectiveText(d) + rest == ['%'] + (DirectiveText(d) + rest);
        ConversionParses(DirectiveText(d) + rest);
        DirectiveRoundTrip(d, rest);
    }
  }

  lemma {:induction false} FlagsKeep(s: Text, f: Flags)
    ensures ParseFlags(s, f).0.precision == f.precision && ParseFlags(s, f).0.uppercase == f.uppercase
    decreases |s|
  {
    if s != [] && IsFlag(s[0]) {
      FlagsKeep(s[1..], WithFlag(f, s[0]));
    }
  }

  /** Parsed directives have no precision without a dot and are never uppercase. */
  lemma DirectiveKeeps(s: Text)
    ensures var d := ParseDirective(s).0;
      !d.flags.uppercase && (!d.flags.precision ==> d.precision == Given(0))
  {
    var (f, s1) := ParseFlags(s, NO_FLAGS);
    var (dotted, p, s3) := ParsePrecision(ParseAmount(s1).1);
    FlagsKeep(s, NO_FLAGS);
  }
}
