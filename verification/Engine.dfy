/** libc/stdio.c: the printf engine. Each emitter is proved to make exactly the calls
    that write the text given by modules Format and Render, at consecutive indices. */
module Engine {
  import opened Machine
  import opened Numerals
  import opened Format
  import opened Directives
  import opened Render
  import opened Layouts
  import opened Screens
  import opened Sinks
  import opened Terminal

  /** `_strnlen_s` */
  method Strnlen(str: Text, maxsize: u32) returns (n: u32)
    requires |str| < TWO32
    ensures n == Min(|UpToNul(str)|, maxsize)
  {
    var s, left := str, maxsize;
    n := 0;
    while s != [] && s[0] != NUL && left > 0
      invariant n + left == maxsize && n + |s| == |str|
      invariant |UpToNul(str)| == n + |UpToNul(s)|
      decreases |s|
    {
      s, left, n := s[1..], left - 1, n + 1;
    }
  }

  /** `_atoi` */
  method Atoi(str: Text) returns (i: u32, rest: Text)
    ensures (i, rest) == ParseNumber(str, 0)
  {
    i, rest := 0, str;
    while IsDigit(Deref(rest))
      invariant ParseNumber(str, 0) == ParseNumber(rest, i)
      decreases |rest|
    {
      i, rest := ToU32(i * 10 + DigitValue(rest[0])), rest[1..];
    }
  }

  /** The loop of `_out_rev` that pads on the left. */
  method PadLeft(sink: Sink, idx0: u32, len: u32, width: u32) returns (idx: u32)
    requires sink.Valid()
    modifies sink.Footprint()
    ensures sink.Valid() && sink.Emitted(old(sink.calls), idx0, Chars(' ', Max(0, width - len)), idx)
  {
    ghost var start := sink.calls;
    ghost var done: Text := [];
    idx := idx0;
    var i := len;
    while i < width
      invariant len <= i <= Max(width, len) && done == Chars(' ', i - len)
      invariant sink.Valid() && sink.Emitted(start, idx0, done, idx)
    {
      idx := sink.Next(' ', idx, start, idx0, done);
      done := done + [' '];
      i := i + 1;
    }
  }

  /** The loop of `_out_rev` that empties the buffer from its end. */
  method EmitReversed(sink: Sink, idx0: u32, buf: array<cchar>, len0: u32) returns (idx: u32)
    requires sink.Valid() && buf !in sink.Footprint() && len0 <= buf.Length
    modifies sink.Footprint()
    ensures sink.Valid() && sink.Emitted(old(sink.calls), idx0, Reverse(buf[..len0]), idx)
  {
    ghost var start := sink.calls;
    ghost var done: Text := [];
    ghost var b := buf[..len0];
    idx := idx0;
    var len := len0;
    while len > 0
      invariant 0 <= len <= len0 && done == Reverse(b[len..]) && buf[..len0] == b
      invariant sink.Valid() && sink.Emitted(start, idx0, done, idx)
    {
      len := len - 1;
      ReverseFront(b, len);
      idx := sink.Next(buf[len], idx, start, idx0, done);
      done := done + [b[len]];
    }
  }

  /** The loop of `_out_rev` that pads on the right, after `body` characters since
      startIdx. The difference of indices is taken in 32 bits. */
  method PadRight(sink: Sink, idx0: u32, body: u32, startIdx: u32, width: u32) returns (idx: u32)
    requires sink.Valid() && idx0 == ToU32(startIdx + body)
    modifies sink.Footprint()
    ensures sink.Valid() && sink.Emitted(old(sink.calls), idx0, Chars(' ', Max(0, width - body)), idx)
  {
    ghost var start := sink.calls;
    ghost var done: Text := [];
    idx := idx0;
    WrapDifference(startIdx, body, idx0, 0, idx);
    while ToU32(idx - startIdx) < width
      invariant |done| <= Max(0, width - body) && done == Chars(' ', |done|)
      invariant sink.Valid() && sink.Emitted(start, idx0, done, idx)
      invariant ToU32(idx - startIdx) == body + |done|
      decreases width - |done|
    {
      idx := sink.Next(' ', idx, start, idx0, done);
      done := done + [' '];
      WrapDifference(startIdx, body, idx0, |done|, idx);
    }
  }

  lemma WrapDifference(startIdx: u32, body: u32, idx0: u32, k: nat, idx: u32)
    requires idx0 == ToU32(startIdx + body) && idx == ToU32(idx0 + k) && body + k < TWO32
    ensures ToU32(idx - startIdx) == body + k
  {
    WrapAdd(startIdx + body, k);
    WrapAdd(startIdx + body + k, -(startIdx as int));
  }

  /** `_out_rev` */
  method OutRev(sink: Sink, idx0: u32, buf: array<cchar>, len: u32, width: u32, f: Flags) returns (idx: u32)
    requires sink.Valid() && buf !in sink.Footprint() && len <= buf.Length
    modifies sink.Footprint()
    ensures sink.Valid() && sink.Emitted(old(sink.calls), idx0, Reversed(buf[..len], width, f), idx)
  {
    ghost var start, b := sink.calls, buf[..len];
    ghost var blanks := Chars(' ', Max(0, width - len));
    if f.left {
      idx := EmitReversed(sink, idx0, buf, len);
      idx := PadRight(sink, idx, len, idx0, width);
      sink.EmittedMore(start, idx0, Reverse(b), blanks, idx);
    } else if f.zeropad {
      idx := EmitReversed(sink, idx0, buf, len);
    } else {
      idx := PadLeft(sink, idx0, len, width);
      idx := EmitReversed(sink, idx, buf, len);
      sink.EmittedMore(start, idx0, blanks, Reverse(b), idx);
    }
  }

  lemma ReverseFront(b: Text, k: nat)
    requires k < |b|
    ensures Reverse(b[k..]) == Reverse(b[k + 1..]) + [b[k]]
  {
    assert b[k..][1..] == b[k + 1..];
  }

  /** Appends zeros until there are n characters or the buffer is full. */
  method FillZeros(buf: array<cchar>, len0: nat, n: nat) returns (len: nat)
    requires len0 <= buf.Length == BUFFER_SIZE
    modifies buf
    ensures len <= BUFFER_SIZE && buf[..len] == ZeroTo(old(buf[..len0]), n)
  {
    ghost var b := buf[..len0];
    len := len0;
    while len < n && len < BUFFER_SIZE
      invariant len0 <= len <= Max(len0, Min(n, BUFFER_SIZE))
      invariant buf[..len] == b + Chars('0', len - len0)
    {
      buf[len] := '0';
      len := len + 1;
    }
  }

  /** The part of `_ntoa_format` that pads leading zeros, and the width it leaves. */
  method PadZeros(buf: array<cchar>, len0: nat, negative: bool, prec: u32, width0: u32, f: Flags)
    returns (len: nat, width: u32)
    requires len0 <= buf.Length == BUFFER_SIZE
    modifies buf
    ensures len <= BUFFER_SIZE && width == InnerWidth(negative, width0, f)
    ensures buf[..len] == ZeroPadded(old(buf[..len0]), prec, width, f)
  {
    len, width := len0, width0;
    if !f.left {
      if width > 0 && f.zeropad && (negative || f.plus || f.space) {
        width := width - 1;
      }
      len := FillZeros(buf, len, prec);
      if f.zeropad {
        len := FillZeros(buf, len, width);
      }
    }
  }

  /** Appends a character if the buffer has room. */
  method Append(buf: array<cchar>, len0: nat, c: cchar) returns (len: nat)
    requires len0 <= buf.Length == BUFFER_SIZE
    modifies buf
    ensures len <= BUFFER_SIZE && buf[..len] == Push(old(buf[..len0]), c)
  {
    len := len0;
    if len < BUFFER_SIZE {
      buf[len] := c;
      len := len + 1;
    }
  }

  /** The part of `_ntoa_format` that handles the hash flag. */
  method PutPrefix(buf: array<cchar>, len0: nat, base: u32, prec: u32, width: u32, f: Flags) returns (len: nat)
    requires len0 <= buf.Length == BUFFER_SIZE
    modifies buf
    ensures len <= BUFFER_SIZE
    ensures buf[..len] == Prefixed(Trimmed(old(buf[..len0]), base, prec, width, f), base, f)
  {
    len := len0;
    ghost var b := buf[..len0];
    if !f.precision && len > 0 && (len == prec || len == width) {
      len := len - 1;
      if len > 0 && base == 16 {
        len := len - 1;
      }
    }
    assert buf[..len] == Trimmed(b, base, prec, width, f);
    if base == 16 {
      len := Append(buf, len, if f.uppercase then 'X' else 'x');
    } else if base == 2 {
      len := Append(buf, len, 'b');
    }
    len := Append(buf, len, '0');
  }

  /** The part of `_ntoa_format` that writes the sign. */
  method PutSign(buf: array<cchar>, len0: nat, negative: bool, f: Flags) returns (len: nat)
    requires len0 <= buf.Length == BUFFER_SIZE
    modifies buf
    ensures len <= BUFFER_SIZE && buf[..len] == Signed(old(buf[..len0]), negative, f)
  {
    len := len0;
    if negative {
      len := Append(buf, len, '-');
    } else if f.plus {
      len := Append(buf, len, '+');
    } else if f.space {
      len := Append(buf, len, ' ');
    }
  }

  /** `_ntoa_format` */
  method NtoaFormat(sink: Sink, idx0: u32, buf: array<cchar>, len0: nat, negative: bool, base: u32, prec: u32,
                    width0: u32, f: Flags)
    returns (idx: u32)
    requires sink.Valid() && buf !in sink.Footprint() && len0 <= buf.Length == BUFFER_SIZE
    modifies sink.Footprint(), buf
    ensures sink.Valid()
    ensures sink.Emitted(old(sink.calls), idx0, Formatted(old(buf[..len0]), negative, base, prec, width0, f), idx)
  {
    var len, width := PadZeros(buf, len0, negative, prec, width0, f);
    if f.hash {
      len := PutPrefix(buf, len, base, prec, width, f);
    }
    len := PutSign(buf, len, negative, f);
    idx := OutRev(sink, idx0, buf, len, width, f);
  }

  /** The conversion loop of `_ntoa_long` and `_ntoa_long_long`. */
  method StoreDigits(buf: array<cchar>, value0: u64, base: nat, f: Flags) returns (len: nat)
    requires buf.Length == BUFFER_SIZE && IsBase(base)
    modifies buf
    ensures len <= BUFFER_SIZE && buf[..len] == Digits(value0, base, f.uppercase, BUFFER_SIZE)
  {
    ghost var done: Text, all := [], Digits(value0, base, f.uppercase, BUFFER_SIZE);
    len := 0;
    var value: nat := value0;
    while true
      invariant 0 <= len < BUFFER_SIZE && buf[..len] == done
      invariant Storing(done, value, base, f.uppercase, BUFFER_SIZE - len, all)
      decreases BUFFER_SIZE - len
    {
      StoringStep(done, value, base, f.uppercase, BUFFER_SIZE - len, all);
      done := done + [DigitChar(value % base, f.uppercase)];
      buf[len] := DigitChar(value % base, f.uppercase);
      len := len + 1;
      value := value / base;
      if !(value != 0 && len < BUFFER_SIZE) {
        break;
      }
    }
  }

  /** The digits stored so far, and those of the value that is left. */
  ghost predicate Storing(done: Text, v: nat, base: nat, upper: bool, room: nat, all: Text) {
    IsBase(base) && room > 0 && all == done + Digits(v, base, upper, room)
  }

  lemma StoringStep(done: Text, v: nat, base: nat, upper: bool, room: nat, all: Text)
    requires Storing(done, v, base, upper, room, all)
    ensures 0 <= v % base < 16 && 0 <= v / base
    ensures var more := done + [DigitChar(v % base, upper)];
      if v / base == 0 || room == 1 then more == all else Storing(more, v / base, base, upper, room - 1, all)
  {
  }

  /** The part of `_ntoa_long` and `_ntoa_long_long` before `_ntoa_format`. */
  method StoreValue(buf: array<cchar>, value: u64, base: u32, f0: Flags) returns (len: nat, f: Flags)
    requires buf.Length == BUFFER_SIZE && IsBase(base)
    modifies buf
    ensures len <= BUFFER_SIZE && buf[..len] == Stored(value, base, f0)
    ensures f == if value == 0 then f0.(hash := false) else f0
  {
    len, f := 0, f0;
    if value == 0 {
      f := f.(hash := false);
    }
    if !f.precision || value != 0 {
      len := StoreDigits(buf, value, base, f);
    }
  }

  /** `_ntoa_long` and `_ntoa_long_long`, which differ in the width of the value. */
  method Ntoa(sink: Sink, idx0: u32, value: u64, negative: bool, base: u32, prec: u32, width: u32, f0: Flags)
    returns (idx: u32)
    requires sink.Valid() && IsBase(base)
    modifies sink.Footprint()
    ensures sink.Valid() && sink.Emitted(old(sink.calls), idx0, NtoaText(value, negative, base, prec, width, f0), idx)
  {
    var buf := new cchar[32];
    var len, f := StoreValue(buf, value, base, f0);
    idx := NtoaFormat(sink, idx0, buf, len, negative, base, prec, width, f);
  }

  // --------------------------------------------------------------- %c and %s

  /** Blanks for the rest of a field; the counter is incremented once more after the
      last of them, in unsigned arithmetic. */
  method PadField(sink: Sink, idx0: u32, l0: u32, width: u32) returns (idx: u32)
    requires sink.Valid()
    modifies sink.Footprint()
    ensures sink.Valid() && sink.Emitted(old(sink.calls), idx0, Chars(' ', Max(0, width - l0)), idx)
  {
    ghost var start := sink.calls;
    ghost var done: Text := [];
    idx := idx0;
    var l := l0;
    while true
      invariant l0 <= l <= Max(width, l0) && done == Chars(' ', l - l0)
      invariant sink.Valid() && sink.Emitted(start, idx0, done, idx)
      decreases width - l
    {
      var before := l;
      l := ToU32(l + 1);
      if !(before < width) {
        break;
      }
      idx := sink.Next(' ', idx, start, idx0, done);
      done := done + [' '];
    }
  }

  method PutCharacter(sink: Sink, idx0: u32, c: cchar, width: u32, f: Flags) returns (idx: u32)
    requires sink.Valid()
    modifies sink.Footprint()
    ensures sink.Valid() && sink.Emitted(old(sink.calls), idx0, CharText(c, f, width), idx)
  {
    ghost var start := sink.calls;
    ghost var blanks := Chars(' ', Max(0, width - 1));
    idx := idx0;
    if !f.left {
      idx := PadField(sink, idx, 1, width);
      idx := sink.Next(c, idx, start, idx0, blanks);
    } else {
      idx := sink.First(c, idx);
      idx := PadField(sink, idx, 1, width);
      sink.EmittedMore(start, idx0, [c], blanks, idx);
    }
  }

  /** The characters of a string that a precision leaves. */
  function Shortened(s: Text, f: Flags, prec: nat): Text {
    if f.precision then UpToNul(s)[..Min(|UpToNul(s)|, prec)] else UpToNul(s)
  }

  lemma ShortenedStep(s: Text, f: Flags, prec: nat)
    ensures (s == [] || s[0] == NUL || (f.precision && prec == 0)) ==> Shortened(s, f, prec) == []
    ensures s != [] && s[0] != NUL && (f.precision ==> prec > 0) ==>
      Shortened(s, f, prec) == [s[0]] + Shortened(s[1..], f, if f.precision then prec - 1 else prec)
  {
  }

  lemma AppendFirst(done: Text, c: cchar, rest: Text, left: Text)
    requires left == [c] + rest
    ensures done + left == (done + [c]) + rest
  {
  }

  /** The characters of a string up to its NUL or as many as the precision, which is
      decremented once more after the last of them. */
  method EmitString(sink: Sink, idx0: u32, s: Text, prec: u32, f: Flags) returns (idx: u32)
    requires sink.Valid()
    modifies sink.Footprint()
    ensures sink.Valid() && sink.Emitted(old(sink.calls), idx0, Shortened(s, f, prec), idx)
  {
    ghost var start := sink.calls;
    ghost var done: Text := [];
    ghost var left := Shortened(s, f, prec);
    idx := idx0;
    var p, precision := s, prec;
    while p != [] && p[0] != NUL
      invariant sink.Valid() && sink.Emitted(start, idx0, done, idx)
      invariant left == Shortened(p, f, precision) && done + left == Shortened(s, f, prec)
      decreases |p|
    {
      ShortenedStep(p, f, precision);
      if f.precision {
        var before := precision;
        precision := ToU32(precision as int - 1);
        if before == 0 {
          break;
        }
      }
      AppendFirst(done, p[0], Shortened(p[1..], f, precision), left);
      idx := sink.Next(p[0], idx, start, idx0, done);
      done, p := done + [p[0]], p[1..];
      left := Shortened(p, f, precision);
    }
    ShortenedStep(p, f, precision);
    assert done + [] == done;
  }

  /** How many characters of a string are printed. */
  method StringLength(s: CStr, prec: u32, f: Flags) returns (l: u32)
    requires !f.precision ==> prec == 0
    ensures l == |Shortened(s, f, prec)|
  {
    l := Strnlen(s, if prec != 0 then prec else 0xFFFF_FFFF);
    if f.precision {
      l := if l < prec then l else prec;
    }
  }

  lemma StringIsPadded(s: Text, f: Flags, width: nat, prec: nat, blanks: Text)
    requires blanks == Chars(' ', Max(0, width - |Shortened(s, f, prec)|))
    ensures StringText(s, f, width, prec)
         == if f.left then Shortened(s, f, prec) + blanks else blanks + Shortened(s, f, prec)
  {
  }

  method PutString(sink: Sink, idx0: u32, s: CStr, width: u32, prec: u32, f: Flags) returns (idx: u32)
    requires sink.Valid() && (!f.precision ==> prec == 0)
    modifies sink.Footprint()
    ensures sink.Valid() && sink.Emitted(old(sink.calls), idx0, StringText(s, f, width, prec), idx)
  {
    ghost var start, body := sink.calls, Shortened(s, f, prec);
    var l := StringLength(s, prec, f);
    ghost var blanks := Chars(' ', Max(0, width - l));
    StringIsPadded(s, f, width, prec, blanks);
    idx := idx0;
    if !f.left {
      idx := PadField(sink, idx, l, width);
      idx := EmitString(sink, idx, s, prec, f);
      sink.EmittedMore(start, idx0, blanks, body, idx);
    } else {
      idx := EmitString(sink, idx, s, prec, f);
      idx := PadField(sink, idx, l, width);
      sink.EmittedMore(start, idx0, body, blanks, idx);
    }
  }

  // ---------------------------------------------------- integer conversions

  /** Negating in 32 and in 64 bits and converting to unsigned gives the magnitude of
      every value, the least one included. */
  lemma MagnitudeOf(v: int)
    ensures -TWO31 <= v < TWO31 ==> ToU32(if v > 0 then v else ToInt32(0 - v)) == Abs(v)
    ensures -TWO63 <= v < TWO63 ==> ToU64(if v > 0 then v else ToInt64(0 - v)) == Abs(v)
  {
  }

  method ChooseBase(conv: cchar, f: Flags) returns (base: u32, g: Flags)
    ensures base == BaseOf(conv)
    ensures g == f.(hash := f.hash && BaseOf(conv) != 10, uppercase := f.uppercase || conv == 'X')
  {
    g := f;
    if conv == 'x' || conv == 'X' {
      base := 16;
    } else if conv == 'o' {
      base := 8;
    } else if conv == 'b' {
      base := 2;
    } else {
      base := 10;
      g := g.(hash := false);
    }
    if conv == 'X' {
      g := g.(uppercase := true);
    }
  }

  method AdjustFlags(conv: cchar, f: Flags) returns (g: Flags)
    ensures g == f.(zeropad := f.zeropad && !f.precision,
                    plus := f.plus && IsSigned(conv), space := f.space && IsSigned(conv))
  {
    g := f;
    if conv != 'i' && conv != 'd' {
      g := g.(plus := false, space := false);
    }
    if g.precision {
      g := g.(zeropad := false);
    }
  }

  /** The base and the flags an integer conversion ends up with. */
  method IntegerSetup(conv: cchar, f: Flags) returns (base: u32, g: Flags)
    ensures base == BaseOf(conv) && g == IntegerFlags(conv, f)
  {
    base, g := ChooseBase(conv, f);
    g := AdjustFlags(conv, g);
  }

  /** A 32-bit argument converted as its length modifier says. */
  method WordArgument(f: Flags, word: u32) returns (value: int)
    requires !f.LongLong()
    ensures value == SignedValue(f, Word(word)) && -TWO31 <= value < TWO31
  {
    value := if f.length == L then ToInt32(word) else if f.length == HH then ToInt8(word)
             else if f.length == H then ToInt16(word) else ToInt32(word);
  }

  method PutSigned(sink: Sink, idx0: u32, conv: cchar, f: Flags, g: Flags, width: u32, prec: u32, arg: Arg)
    returns (idx: u32)
    requires sink.Valid() && IsSigned(conv) && KindOf(arg) == if f.LongLong() then KDWord else KWord
    modifies sink.Footprint()
    ensures var v := SignedValue(f, arg);
      sink.Valid() && sink.Emitted(old(sink.calls), idx0, NtoaText(Abs(v), v < 0, 10, prec, width, g), idx)
  {
    if f.LongLong() {
      var value := ToInt64(arg.dword);
      MagnitudeOf(value);
      idx := Ntoa(sink, idx0, ToU64(if value > 0 then value else ToInt64(0 - value)), value < 0, 10, prec, width, g);
    } else {
      var value := WordArgument(f, arg.word);
      MagnitudeOf(value);
      idx := Ntoa(sink, idx0, ToU32(if value > 0 then value else ToInt32(0 - value)), value < 0, 10, prec, width, g);
    }
  }

  method PutUnsigned(sink: Sink, idx0: u32, base: u32, f: Flags, g: Flags, width: u32, prec: u32, arg: Arg)
    returns (idx: u32)
    requires sink.Valid() && IsBase(base) && KindOf(arg) == if f.LongLong() then KDWord else KWord
    modifies sink.Footprint()
    ensures sink.Valid()
    ensures sink.Emitted(old(sink.calls), idx0, NtoaText(UnsignedValue(f, arg), false, base, prec, width, g), idx)
  {
    if f.LongLong() {
      idx := Ntoa(sink, idx0, arg.dword, false, base, prec, width, g);
    } else {
      var value := if f.length == L then arg.word else if f.length == HH then arg.word % 0x100
                   else if f.length == H then arg.word % 0x1_0000 else arg.word;
      idx := Ntoa(sink, idx0, value, false, base, prec, width, g);
    }
  }

  method PutInteger(sink: Sink, idx0: u32, conv: cchar, f: Flags, width: u32, prec: u32, arg: Arg) returns (idx: u32)
    requires sink.Valid() && IsIntegerConversion(conv) && KindOf(arg) == if f.LongLong() then KDWord else KWord
    modifies sink.Footprint()
    ensures sink.Valid()
    ensures sink.Emitted(old(sink.calls), idx0, IntegerText(conv, f, width, prec, IntegerValue(conv, f, arg)), idx)
  {
    var base, g := IntegerSetup(conv, f);
    if conv == 'i' || conv == 'd' {
      idx := PutSigned(sink, idx0, conv, f, g, width, prec, arg);
    } else {
      idx := PutUnsigned(sink, idx0, base, f, g, width, prec, arg);
    }
  }

  // --------------------------------------------------------------- directives

  /** The flag loop; n tells whether the last character was a flag. */
  method EvalFlags(format0: Text) returns (flags: Flags, format: Text)
    ensures (flags, format) == ParseFlags(format0, NO_FLAGS)
  {
    flags, format := NO_FLAGS, format0;
    var n := 1;
    while n != 0
      invariant ParseFlags(format0, NO_FLAGS) == ParseFlags(format, flags)
      invariant n == 0 ==> !(format != [] && IsFlag(format[0]))
      decreases |format| + n
      invariant 0 <= n <= 1
    {
      n := 1;
      match Deref(format) {
        case '0' => flags := flags.(zeropad := true); format := format[1..];
        case '-' => flags := flags.(left := true); format := format[1..];
        case '+' => flags := flags.(plus := true); format := format[1..];
        case ' ' => flags := flags.(space := true); format := format[1..];
        case '#' => flags := flags.(hash := true); format := format[1..];
        case _ => n := 0;
      }
    }
  }

  /** The width field, taking an argument for `*`. */
  method EvalWidth(format0: Text, flags0: Flags, va0: seq<Arg>)
    returns (flags: Flags, width: u32, format: Text, va: seq<Arg>)
    requires Accepts(AmountKinds(ParseAmount(format0).0), va0)
    ensures format == ParseAmount(format0).1
    ensures (flags, width, va) == ResolveWidth(Directive(flags0, ParseAmount(format0).0, Given(0), NUL), va0)
  {
    flags, width, format, va := flags0, 0, format0, va0;
    if IsDigit(Deref(format)) {
      width, format := Atoi(format);
    } else if Deref(format) == '*' {
      var w := ToInt32(va[0].word);
      va := va[1..];
      if w < 0 {
        flags := flags.(left := true);
        width := ToU32(-w);
      } else {
        width := w;
      }
      format := format[1..];
    }
  }

  /** The precision field, taking an argument for `*`. */
  method EvalPrecision(format0: Text, flags0: Flags, va0: seq<Arg>)
    returns (flags: Flags, precision: u32, format: Text, va: seq<Arg>)
    requires Accepts(AmountKinds(ParsePrecision(format0).1), va0)
    ensures flags == WithPrecision(flags0, ParsePrecision(format0).0) && format == ParsePrecision(format0).2
    ensures (precision, va) == ResolvePrecision(Directive(flags, Given(0), ParsePrecision(format0).1, NUL), va0)
  {
    flags, precision, format, va := flags0, 0, format0, va0;
    if Deref(format) == '.' {
      flags := flags.(precision := true);
      format := format[1..];
      if IsDigit(Deref(format)) {
        precision, format := Atoi(format);
      } else if Deref(format) == '*' {
        var prec := ToInt32(va[0].word);
        va := va[1..];
        precision := if prec > 0 then prec else 0;
        format := format[1..];
      }
    }
  }

  /** The length field: the length bits it stands for. */
  method EvalLengthBits(format0: Text) returns (bits: Length, format: Text)
    ensures bits == LengthBits(ParseLength(format0).0) && format == ParseLength(format0).1
  {
    bits, format := NoLength, format0;
    match Deref(format) {
      case 'l' =>
        bits, format := L, format[1..];
        if Deref(format) == 'l' {
          bits, format := LL, format[1..];
        }
      case 'h' =>
        bits, format := H, format[1..];
        if Deref(format) == 'h' {
          bits, format := HH, format[1..];
        }
      case 't' => bits, format := L, format[1..];
      case 'j' => bits, format := J, format[1..];
      case 'z' => bits, format := L, format[1..];
      case _ =>
    }
  }

  /** The length field. */
  method EvalLength(format0: Text, flags0: Flags) returns (flags: Flags, format: Text)
    ensures flags == WithLength(flags0, ParseLength(format0).0) && format == ParseLength(format0).1
  {
    var bits;
    bits, format := EvalLengthBits(format0);
    flags := if bits == NoLength then flags0 else flags0.(length := bits);
  }

  /** The place of `_ftoa` and `_etoa`, which pass on the index they are given and
      return the one after their last character. */
  method PutDouble(sink: Sink, idx0: u32, text: Text) returns (idx: u32)
    requires sink.Valid()
    modifies sink.Footprint()
    ensures sink.Valid() && sink.Emitted(old(sink.calls), idx0, text, idx)
  {
    ghost var start := sink.calls;
    idx := idx0;
    for i := 0 to |text|
      invariant sink.Valid() && sink.Emitted(start, idx0, text[..i], idx)
    {
      assert text[..i + 1] == text[..i] + [text[i]];
      idx := sink.Next(text[i], idx, start, idx0, text[..i]);
    }
    assert text[..|text|] == text;
  }

  /** The switch on the conversion character. */
  method Convert(sink: Sink, idx0: u32, conv: cchar, f: Flags, width: u32, prec: u32, va0: seq<Arg>)
    returns (idx: u32, va: seq<Arg>)
    requires sink.Valid() && Accepts(ValueKinds(conv, f.LongLong()), va0)
    requires !f.precision ==> prec == 0
    modifies sink.Footprint()
    ensures sink.Valid() && sink.Emitted(old(sink.calls), idx0, ConvertText(conv, f, width, prec, va0), idx)
    ensures va == va0[|ValueKinds(conv, f.LongLong())|..]
  {
    va := va0;
    if IsIntegerConversion(conv) {
      idx := PutInteger(sink, idx0, conv, f, width, prec, va[0]);
      va := va[1..];
    } else if conv == 'c' {
      idx := PutCharacter(sink, idx0, CharValue(va[0].word), width, f);
      va := va[1..];
    } else if conv == 's' {
      idx := PutString(sink, idx0, va[0].chars, width, prec, f);
      va := va[1..];
    } else if IsFloatConversion(conv) {
      idx := PutDouble(sink, idx0, va[0].show(conv, f, width, prec));
      va := va[1..];
    } else if conv == 'p' {
      idx := Ntoa(sink, idx0, va[0].word, false, 16, prec, 8, f.(zeropad := true, uppercase := true));
      va := va[1..];
    } else {
      // '%' and every other character
      idx := sink.First(conv, idx0);
    }
  }

  // ---------------------------------------------------------------- formatting

  /** A `*` width may set the left flag before precision and length are read; the
      order does not matter. */
  lemma LeftCommutes(f: Flags, dotted: bool, l: Length)
    ensures WithLength(WithPrecision(f.(left := true), dotted), l)
         == WithLength(WithPrecision(f, dotted), l).(left := true)
  {
  }

  /** Everything of a conversion specification before its last character. */
  method EvalDirective(format0: Text, va0: seq<Arg>)
    returns (flags: Flags, width: u32, precision: u32, format: Text, va: seq<Arg>)
    requires var d := ParseDirective(format0).0;
      Accepts(AmountKinds(d.width), va0) && Accepts(AmountKinds(d.precision), ResolveWidth(d, va0).2)
    ensures format == ParseDirective(format0).1
    ensures var d := ParseDirective(format0).0;
      && (flags, width) == (ResolveWidth(d, va0).0, ResolveWidth(d, va0).1)
      && (precision, va) == ResolvePrecision(d, ResolveWidth(d, va0).2)
  {
    flags, format := EvalFlags(format0);
    ghost var f := flags;
    flags, width, format, va := EvalWidth(format, flags, va0);
    ghost var dotted := ParsePrecision(format).0;
    flags, precision, format, va := EvalPrecision(format, flags, va);
    LeftCommutes(f, dotted, ParseLength(format).0);
    flags, format := EvalLength(format, flags);
  }

  /** A conversion specification after its `%`. */
  method PutConversion(sink: Sink, idx0: u32, format0: Text, va0: seq<Arg>, ghost d: Directive)
    returns (idx: u32, format: Text, va: seq<Arg>)
    requires sink.Valid() && d == ParseDirective(format0).0 && ParseDirective(format0).1 != []
    requires Accepts(Kinds(Conversion(d)), va0)
    modifies sink.Footprint()
    ensures sink.Valid() && sink.Emitted(old(sink.calls), idx0, ConversionText(d, va0), idx)
    ensures format == ParseDirective(format0).1[1..] && va == va0[|Kinds(Conversion(d))|..]
  {
    ConversionAccepts(d, va0);
    DirectiveKeeps(format0);
    var flags, width, precision, format1, va1 := EvalDirective(format0, va0);
    idx, va := Convert(sink, idx0, Deref(format1), flags, width, precision, va1);
    format := format1[1..];
  }

  /** One round of the loop of `_vsnprintf`: a character or a conversion. */
  method PutItem(sink: Sink, idx0: u32, format0: Text, va0: seq<Arg>, ghost item: Item, ghost items: seq<Item>)
    returns (idx: u32, format: Text, va: seq<Arg>)
    requires sink.Valid() && format0 != [] && format0[0] != NUL
    requires Parse(format0) == Some([item] + items) && Accepts(Kinds(item), va0)
    modifies sink.Footprint()
    ensures sink.Valid() && sink.Emitted(old(sink.calls), idx0, ItemText(item, va0), idx)
    ensures |format| < |format0| && Parse(format) == Some(items) && va == Rest(va0, |Kinds(item)|)
  {
    FirstItem(format0, item, items);
    RestIs(va0, |Kinds(item)|);
    format := format0;
    if Deref(format) != '%' {
      idx := sink.First(format[0], idx0);
      format, va := format[1..], va0;
    } else {
      idx, format, va := PutConversion(sink, idx0, format[1..], va0, item.d);
    }
  }

  /** What a format starts with. */
  lemma FirstItem(format: Text, item: Item, items: seq<Item>)
    requires format != [] && format[0] != NUL && Parse(format) == Some([item] + items)
    ensures format[0] != '%' ==> item == Literal(format[0]) && Parse(format[1..]) == Some(items)
    ensures format[0] == '%' ==>
      var (d, rest) := ParseDirective(format[1..]);
      rest != [] && item == Conversion(d) && Parse(rest[1..]) == Some(items)
  {
    if format[0] != '%' {
      ConsInjective(Literal(format[0]), Parse(format[1..]), item, items);
    } else {
      var (d, rest) := ParseDirective(format[1..]);
      ConsInjective(Conversion(d), Parse(rest[1..]), item, items);
    }
  }

  lemma ConsInjective(x: Item, r: Option<seq<Item>>, item: Item, items: seq<Item>)
    requires Cons(x, r) == Some([item] + items)
    ensures x == item && r == Some(items)
  {
    assert ([x] + r.value)[0] == ([item] + items)[0];
    assert ([x] + r.value)[1..] == ([item] + items)[1..];
  }

  // ----------------------------------------------------------------- _vsnprintf

  /** The loop of `_vsnprintf`. */
  method PutFormat(sink: Sink, format0: Text, va0: seq<Arg>) returns (idx: u32)
    requires sink.Valid() && Callable(format0, va0)
    modifies sink.Footprint()
    ensures sink.Valid() && sink.Emitted(old(sink.calls), 0, FormattedText(format0, va0), idx)
  {
    ghost var start, text := sink.calls, FormattedText(format0, va0);
    ghost var done: Text := [];
    ghost var items := Parse(format0).value;
    var format, va := format0, va0;
    idx := 0;
    while format != [] && format[0] != NUL
      invariant Remaining(format, items, va, done, text)
      invariant sink.Valid() && sink.Emitted(start, 0, done, idx)
      decreases |format|
    {
      NextItem(format, items, va, done, text);
      ghost var t := ItemText(items[0], va);
      idx, format, va := PutItem(sink, idx, format, va, items[0], items[1..]);
      sink.EmittedMore(start, 0, done, t, idx);
      done, items := done + t, items[1..];
    }
    NoItems(format, items);
    assert done + [] == done;
  }

  /** The items left to print, and what is printed already of a text. */
  ghost predicate Remaining(format: Text, items: seq<Item>, va: seq<Arg>, done: Text, text: Text) {
    Parse(format) == Some(items) && Matches(items, va) && done + Concatenated(ItemText, items, va) == text
  }

  /** What one round takes and leaves. */
  lemma NextItem(format: Text, items: seq<Item>, va: seq<Arg>, done: Text, text: Text)
    requires format != [] && format[0] != NUL && Remaining(format, items, va, done, text)
    ensures items != [] && Parse(format) == Some([items[0]] + items[1..])
    ensures Accepts(Kinds(items[0]), va)
    ensures forall rest: Text | Parse(rest) == Some(items[1..]) ::
      Remaining(rest, items[1..], Rest(va, |Kinds(items[0])|), done + ItemText(items[0], va), text)
  {
    MatchesTail(items, va);
    assert items == [items[0]] + items[1..];
    ConcatenatedCons(ItemText, items[0], items[1..], va);
    Associative(done, ItemText(items[0], va), Concatenated(ItemText, items[1..], Rest(va, |Kinds(items[0])|)));
  }

  lemma NoItems(format: Text, items: seq<Item>)
    requires (format == [] || format[0] == NUL) && Parse(format) == Some(items)
    ensures items == []
  {
  }

  /** The index of the final NUL. */
  function TerminatorIndex(idx: u32, maxlen: u32): u32 {
    if idx < maxlen then idx else ToU32(maxlen as int - 1)
  }

  /** All calls of one `_vsnprintf`. */
  function AllCalls(text: Text, maxlen: u32): seq<Call> {
    CallsFrom(0, text) + [Call(NUL, TerminatorIndex(ToU32(|text|), maxlen))]
  }

  method PutAll(sink: Sink, format: Text, va: seq<Arg>) returns (idx: u32)
    requires sink.Valid() && sink.calls == [] && Callable(format, va)
    modifies sink.Footprint()
    ensures sink.Valid() && sink.calls == CallsFrom(0, FormattedText(format, va))
    ensures idx == ToU32(|FormattedText(format, va)|)
  {
    idx := PutFormat(sink, format, va);
  }

  method Vsnprintf(sink: Sink, format: Text, va: seq<Arg>) returns (ret: int)
    requires sink.Valid() && sink.calls == [] && Callable(format, va)
    modifies sink.Footprint()
    ensures sink.Valid() && sink.calls == AllCalls(FormattedText(format, va), sink.maxlen)
    ensures ret == ToInt32(|FormattedText(format, va)|)
  {
    ghost var text := FormattedText(format, va);
    var idx := PutAll(sink, format, va);
    sink.Out(NUL, if idx < sink.maxlen then idx else ToU32(sink.maxlen as int - 1));
    ret := ToInt32(idx);
  }

  /** `snprintf_` into a caller's buffer, or into none. */
  method Snprintf(buffer: array?<cchar>, count: u32, format: Text, va: seq<Arg>) returns (ret: int)
    requires buffer != null ==> count <= buffer.Length
    requires Callable(format, va)
    modifies if buffer != null then {buffer} else {}
    ensures ret == ToInt32(|FormattedText(format, va)|)
    ensures buffer != null ==>
      buffer[..] == BufferAfter(old(buffer[..]), count, AllCalls(FormattedText(format, va), count))
  {
    var sink := new Sink(OutBuffer, buffer, count, null);
    ret := Vsnprintf(sink, format, va);
  }

  /** `printf_` on a terminal. */
  method Printf(tty: Tty, format: Text, va: seq<Arg>) returns (ret: int)
    requires tty.Valid() && Callable(format, va)
    modifies tty, tty.vga
    ensures ret == ToInt32(|FormattedText(format, va)|)
    ensures tty.Valid()
    ensures tty.Shows() == Run(old(tty.Shows()), Puts(Visible(AllCalls(FormattedText(format, va), 0xFFFF_FFFF))))
  {
    var buffer := new cchar[1];
    var sink := new Sink(OutChar, buffer, 0xFFFF_FFFF, tty);
    ret := Vsnprintf(sink, format, va);
  }
}
