/** The text `_vsnprintf` (libc/stdio.c) produces for a parsed format and its
    arguments, as a pure function. */
module Render {
  import opened Machine
  import opened Format
  import opened Directives

  /** A string in memory; its length fits `size_t`. */
  type CStr = s: Text | |s| < 0xFFFF_FFFF

  /** What a variadic call passes: a 32-bit word, a 64-bit word, a string or a double.
      A double stands for the text that `_ftoa` or `_etoa` writes for it, any text
      that depends on the conversion, its flags, width and precision. */
  datatype Arg = Word(word: u32) | DWord(dword: u64) | Str(chars: CStr) | Double(show: (cchar, Flags, nat, nat) -> Text)

  datatype Kind = KWord | KDWord | KStr | KDouble

  function KindOf(a: Arg): Kind {
    match a case Word(_) => KWord case DWord(_) => KDWord case Str(_) => KStr case Double(_) => KDouble
  }

  predicate IsFloatConversion(c: cchar) {
    c == 'f' || c == 'F' || c == 'e' || c == 'E' || c == 'g' || c == 'G'
  }

  function AmountKinds(a: Amount): seq<Kind> { if a.Star? then [KWord] else [] }

  function ValueKinds(conv: cchar, longLong: bool): seq<Kind> {
    if IsIntegerConversion(conv) then [if longLong then KDWord else KWord]
    else if conv == 'c' || conv == 'p' then [KWord]
    else if conv == 's' then [KStr]
    else if IsFloatConversion(conv) then [KDouble]
    else []
  }

  /** The arguments an item takes, in order. */
  function Kinds(item: Item): seq<Kind> {
    match item
    case Literal(_) => []
    case Conversion(d) => AmountKinds(d.width) + AmountKinds(d.precision) + ValueKinds(d.conv, d.flags.LongLong())
  }

  predicate Accepts(kinds: seq<Kind>, args: seq<Arg>) {
    |kinds| <= |args| && forall i :: 0 <= i < |kinds| ==> KindOf(args[i]) == kinds[i]
  }

  function Needs(items: seq<Item>): seq<Kind> {
    if items == [] then [] else Kinds(items[0]) + Needs(items[1..])
  }

  /** The arguments begin with what the items need. */
  predicate Matches(items: seq<Item>, args: seq<Arg>) { Accepts(Needs(items), args) }

  // ----------------------------------------------------------- one conversion

  /** A width argument; a negative one justifies left. */
  function ResolveWidth(d: Directive, args: seq<Arg>): (Flags, u32, seq<Arg>)
    requires Accepts(AmountKinds(d.width), args)
  {
    match d.width
    case Given(n) => (d.flags, n, args)
    case Star =>
      var w := ToInt32(args[0].word);
      (if w < 0 then d.flags.(left := true) else d.flags, ToU32(if w < 0 then -w else w), args[1..])
  }

  /** A precision argument; a negative one counts as zero. */
  function ResolvePrecision(d: Directive, args: seq<Arg>): (u32, seq<Arg>)
    requires Accepts(AmountKinds(d.precision), args)
  {
    match d.precision
    case Given(n) => (n, args)
    case Star => (Max(0, ToInt32(args[0].word)), args[1..])
  }

  function SignedValue(f: Flags, a: Arg): int
    requires KindOf(a) == if f.LongLong() then KDWord else KWord
  {
    if f.LongLong() then ToInt64(a.dword)
    else if f.length == L then ToInt32(a.word)
    else if f.length == HH then ToInt8(a.word)
    else if f.length == H then ToInt16(a.word)
    else ToInt32(a.word)
  }

  function UnsignedValue(f: Flags, a: Arg): nat
    requires KindOf(a) == if f.LongLong() then KDWord else KWord
  {
    if f.LongLong() then a.dword
    else if f.length == L then a.word
    else if f.length == HH then a.word % 0x100
    else if f.length == H then a.word % 0x1_0000
    else a.word
  }

  /** The value an integer conversion prints. */
  function IntegerValue(conv: cchar, f: Flags, a: Arg): int
    requires KindOf(a) == if f.LongLong() then KDWord else KWord
  {
    if IsSigned(conv) then SignedValue(f, a) else UnsignedValue(f, a)
  }

  function CharValue(word: u32): cchar { (word % 0x100) as char }

  /** The text of a conversion once width and precision are known. A character
      that is no conversion prints itself, `%` included. */
  function ConvertText(conv: cchar, f: Flags, width: nat, prec: nat, args: seq<Arg>): Text
    requires Accepts(ValueKinds(conv, f.LongLong()), args)
  {
    if IsIntegerConversion(conv) then IntegerText(conv, f, width, prec, IntegerValue(conv, f, args[0]))
    else if conv == 'c' then CharText(CharValue(args[0].word), f, width)
    else if conv == 's' then StringText(args[0].chars, f, width, prec)
    else if IsFloatConversion(conv) then args[0].show(conv, f, width, prec)
    else if conv == 'p' then NtoaText(args[0].word, false, 16, prec, 8, f.(zeropad := true, uppercase := true))
    else [conv]
  }

  lemma AcceptsSplit(a: seq<Kind>, b: seq<Kind>, args: seq<Arg>)
    requires Accepts(a + b, args)
    ensures Accepts(a, args) && Accepts(b, args[|a|..])
  {
    forall i | 0 <= i < |a| ensures KindOf(args[i]) == a[i] {
      assert (a + b)[i] == a[i];
    }
    forall i | 0 <= i < |b| ensures KindOf(args[|a|..][i]) == b[i] {
      assert (a + b)[|a| + i] == b[i];
    }
  }

  /** The text of one item, given the arguments that are left. */
  function ItemText(item: Item, args: seq<Arg>): Text {
    match item
    case Literal(c) => [c]
    case Conversion(d) => if Accepts(Kinds(item), args) then ConversionText(d, args) else []
  }

  function ConversionText(d: Directive, args: seq<Arg>): Text
    requires Accepts(Kinds(Conversion(d)), args)
  {
    ConversionAccepts(d, args);
    var (f, width, args1) := ResolveWidth(d, args);
    var (prec, args2) := ResolvePrecision(d, args1);
    ConvertText(d.conv, f, width, prec, args2)
  }

  lemma ConversionAccepts(d: Directive, args: seq<Arg>)
    requires Accepts(Kinds(Conversion(d)), args)
    ensures Accepts(AmountKinds(d.width), args)
    ensures Accepts(AmountKinds(d.precision), ResolveWidth(d, args).2)
    ensures Accepts(ValueKinds(d.conv, d.flags.LongLong()), ResolvePrecision(d, ResolveWidth(d, args).2).1)
    ensures ResolvePrecision(d, ResolveWidth(d, args).2).1
         == args[|AmountKinds(d.width)| + |AmountKinds(d.precision)|..]
  {
    var w, p, v := AmountKinds(d.width), AmountKinds(d.precision), ValueKinds(d.conv, d.flags.LongLong());
    AcceptsSplit(w + p, v, args);
    AcceptsSplit(w, p, args);
  }

  /** The arguments after the first k. */
  function Rest(args: seq<Arg>, k: nat): seq<Arg> {
    seq(Max(0, |args| - k), i requires 0 <= i < |args| - k => args[k + i])
  }

  lemma RestIs(args: seq<Arg>, k: nat)
    requires k <= |args|
    ensures Rest(args, k) == args[k..]
  {
  }

  /** The texts of a list of items one after the other, each item taking its
      arguments from the front. */
  function Concatenated(show: (Item, seq<Arg>) -> Text, items: seq<Item>, args: seq<Arg>): Text {
    if items == [] then []
    else show(items[0], args) + Concatenated(show, items[1..], Rest(args, |Kinds(items[0])|))
  }

  lemma ConcatenatedCons(show: (Item, seq<Arg>) -> Text, x: Item, tail: seq<Item>, args: seq<Arg>)
    ensures Concatenated(show, [x] + tail, args) == show(x, args) + Concatenated(show, tail, Rest(args, |Kinds(x)|))
  {
    assert ([x] + tail)[1..] == tail;
  }

  lemma Uncons(items: seq<Item>) returns (x: Item, tail: seq<Item>)
    requires items != []
    ensures items == [x] + tail && |tail| < |items|
  {
    x, tail := items[0], items[1..];
  }

  lemma AllArguments(args: seq<Arg>, k: nat)
    requires k == 0
    ensures Rest(args, k) == args
  {
  }

  lemma NeedsLength(x: Item, tail: seq<Item>)
    ensures |Needs([x] + tail)| == |Kinds(x)| + |Needs(tail)|
  {
    assert ([x] + tail)[1..] == tail;
  }

  lemma RestAgain(args: seq<Arg>, m: nat, n: nat, k: nat)
    requires k == m + n
    ensures Rest(Rest(args, m), n) == Rest(args, k)
  {
  }

  /** Items print one after the other, each list with its own arguments. */
  lemma {:induction false} ConcatenatedConcat(show: (Item, seq<Arg>) -> Text, xs: seq<Item>, ys: seq<Item>,
                                              args: seq<Arg>)
    ensures Concatenated(show, xs + ys, args)
         == Concatenated(show, xs, args) + Concatenated(show, ys, Rest(args, |Needs(xs)|))
    decreases |xs|
  {
    if xs == [] {
      assert xs + ys == ys;
      AllArguments(args, |Needs(xs)|);
      NothingFirst(Concatenated(show, xs, args), Concatenated(show, ys, args));
    } else {
      var x, tail := Uncons(xs);
      ConcatenatedConcat(show, tail, ys, Rest(args, |Kinds(x)|));
      ConcatenatedStep(show, x, tail, ys, args);
    }
  }

  lemma ConcatenatedStep(show: (Item, seq<Arg>) -> Text, x: Item, tail: seq<Item>, ys: seq<Item>, args: seq<Arg>)
    requires var args1 := Rest(args, |Kinds(x)|);
      Concatenated(show, tail + ys, args1)
      == Concatenated(show, tail, args1) + Concatenated(show, ys, Rest(args1, |Needs(tail)|))
    ensures Concatenated(show, [x] + tail + ys, args)
         == Concatenated(show, [x] + tail, args) + Concatenated(show, ys, Rest(args, |Needs([x] + tail)|))
  {
    var args1, args2 := Rest(args, |Kinds(x)|), Rest(args, |Needs([x] + tail)|);
    Associative([x], tail, ys);
    ConcatenatedCons(show, x, tail, args);
    ConcatenatedCons(show, x, tail + ys, args);
    NeedsLength(x, tail);
    RestAgain(args, |Kinds(x)|, |Needs(tail)|, |Needs([x] + tail)|);
    OneMoreText(show(x, args), Concatenated(show, tail, args1), Concatenated(show, ys, args2),
                Concatenated(show, tail + ys, args1), Concatenated(show, [x] + tail, args),
                Concatenated(show, [x] + tail + ys, args));
  }

  lemma OneMoreText(first: Text, a: Text, b: Text, ab: Text, firstA: Text, all: Text)
    requires ab == a + b && firstA == first + a && all == first + ab
    ensures all == firstA + b
  {
    Associative(first, a, b);
  }

  lemma MatchesTail(items: seq<Item>, args: seq<Arg>)
    requires Matches(items, args) && items != []
    ensures Accepts(Kinds(items[0]), args)
    ensures Matches(items[1..], Rest(args, |Kinds(items[0])|))
  {
    RestIs(args, |Kinds(items[0])|);
    AcceptsSplit(Kinds(items[0]), Needs(items[1..]), args);
  }

  lemma {:induction false} NeedsConcat(xs: seq<Item>, ys: seq<Item>)
    ensures Needs(xs + ys) == Needs(xs) + Needs(ys)
  {
    if xs == [] {
      assert xs + ys == ys;
    } else {
      assert (xs + ys)[1..] == xs[1..] + ys;
      NeedsConcat(xs[1..], ys);
    }
  }

  lemma MatchesSplit(xs: seq<Item>, ys: seq<Item>, args: seq<Arg>)
    requires Matches(xs + ys, args)
    ensures Matches(xs, args) && Matches(ys, Rest(args, |Needs(xs)|))
  {
    NeedsConcat(xs, ys);
    AcceptsSplit(Needs(xs), Needs(ys), args);
    RestIs(args, |Needs(xs)|);
  }

  // -------------------------------------------------------------------- formats

  /** What the formatter asks of its callers: the format does not end inside a
      directive and the arguments are the ones it names. */
  predicate Callable(format: Text, args: seq<Arg>) {
    Parse(format).Some? && Matches(Parse(format).value, args)
  }

  function FormattedText(format: Text, args: seq<Arg>): Text
    requires Callable(format, args)
  {
    Concatenated(ItemText, Parse(format).value, args)
  }

  /** The output of two formats in a row is the output of the first, with its
      arguments, followed by the output of the second with the rest. */
  lemma FormatConcat(a: Text, b: Text, args: seq<Arg>)
    requires NUL !in a && Parse(a).Some? && Callable(a + b, args)
    ensures Callable(a, args) && Callable(b, Rest(args, |Needs(Parse(a).value)|))
    ensures FormattedText(a + b, args)
         == FormattedText(a, args) + FormattedText(b, Rest(args, |Needs(Parse(a).value)|))
  {
    ParseConcat(a, b);
    MatchesSplit(Parse(a).value, Parse(b).value, args);
    ConcatenatedConcat(ItemText, Parse(a).value, Parse(b).value, args);
  }
}
