/** libc/stdio.c: the text each conversion emits, as functions of the flags, width,
    precision and value. The methods of module Engine are proved against these. */
module Format {
  import opened Machine
  import opened Numerals

  /** PRINTF_NTOA_BUFFER_SIZE */
  const BUFFER_SIZE: int := 32

  /** The length modifiers. */
  datatype Length = NoLength | L | LL | H | HH | J | Z | T

  /** The flag word; its four length bits are set together by one modifier. */
  datatype Flags = Flags(zeropad: bool, left: bool, plus: bool, space: bool, hash: bool, uppercase: bool,
                         precision: bool, length: Length)
  {
    /** FLAGS_LONG_LONG */
    predicate LongLong() { length == LL || length == J }
  }

  const NO_FLAGS := Flags(false, false, false, false, false, false, false, NoLength)

  // ------------------------------------------------------------ _ntoa_format
  // A scratch buffer holds the field backwards: its last character comes out first.

  /** Append zeros until n characters or until the buffer is full. */
  function ZeroTo(b: Text, n: int): (r: Text)
    requires |b| <= BUFFER_SIZE
    ensures |r| <= BUFFER_SIZE
  {
    b + Chars('0', Max(0, Min(n, BUFFER_SIZE) - |b|))
  }

  function Push(b: Text, c: cchar): (r: Text)
    requires |b| <= BUFFER_SIZE
    ensures |r| <= BUFFER_SIZE
  {
    if |b| < BUFFER_SIZE then b + [c] else b
  }

  /** The width left after a sign is set aside for zero padding. */
  function InnerWidth(negative: bool, width: nat, f: Flags): nat {
    if !f.left && width > 0 && f.zeropad && (negative || f.plus || f.space) then width - 1 else width
  }

  function ZeroPadded(ds: Text, prec: nat, width: nat, f: Flags): (r: Text)
    requires |ds| <= BUFFER_SIZE
    ensures |r| <= BUFFER_SIZE
  {
    if f.left then ds
    else if f.zeropad then ZeroTo(ZeroTo(ds, prec), width)
    else ZeroTo(ds, prec)
  }

  /** Make room for a prefix when the digits just fill the precision or width. */
  function Trimmed(b: Text, base: nat, prec: nat, width: nat, f: Flags): (r: Text)
    ensures |r| <= |b|
  {
    if !f.precision && b != [] && (|b| == prec || |b| == width) then
      b[..|b| - (if |b| > 1 && base == 16 then 2 else 1)]
    else b
  }

  function Prefixed(b: Text, base: nat, f: Flags): (r: Text)
    requires |b| <= BUFFER_SIZE
    ensures |r| <= BUFFER_SIZE
  {
    var marked :=
      if base == 16 then Push(b, if f.uppercase then 'X' else 'x')
      else if base == 2 then Push(b, 'b')
      else b;
    Push(marked, '0')
  }

  function Signed(b: Text, negative: bool, f: Flags): (r: Text)
    requires |b| <= BUFFER_SIZE
    ensures |r| <= BUFFER_SIZE
  {
    if negative then Push(b, '-') else if f.plus then Push(b, '+') else if f.space then Push(b, ' ') else b
  }

  /** The scratch buffer handed to `_out_rev`. */
  function Scratch(ds: Text, negative: bool, base: nat, prec: nat, width: nat, f: Flags): (r: Text)
    requires |ds| <= BUFFER_SIZE
    ensures |r| <= BUFFER_SIZE
  {
    var w := InnerWidth(negative, width, f);
    var padded := ZeroPadded(ds, prec, w, f);
    var marked := if f.hash then Prefixed(Trimmed(padded, base, prec, w, f), base, f) else padded;
    Signed(marked, negative, f)
  }

  /** Blank padding on one side up to a width. */
  function Pad(body: Text, width: nat, left: bool): (r: Text)
    ensures |r| == Max(width, |body|)
  {
    var blanks := Chars(' ', Max(0, width - |body|));
    if left then body + blanks else blanks + body
  }

  /** `_out_rev`: zero-padded fields get no blanks unless they are left-justified. */
  function Reversed(b: Text, width: nat, f: Flags): Text {
    if f.zeropad && !f.left then Reverse(b) else Pad(Reverse(b), width, f.left)
  }

  function Formatted(ds: Text, negative: bool, base: nat, prec: nat, width: nat, f: Flags): Text
    requires |ds| <= BUFFER_SIZE
  {
    Reversed(Scratch(ds, negative, base, prec, width, f), InnerWidth(negative, width, f), f)
  }

  // --------------------------------------------- _ntoa_long, _ntoa_long_long

  /** The digits the conversion loop stores: none for zero with a precision. */
  function Stored(v: nat, base: nat, f: Flags): (ds: Text)
    requires IsBase(base)
    ensures |ds| <= BUFFER_SIZE
  {
    if f.precision && v == 0 then [] else Digits(v, base, f.uppercase, BUFFER_SIZE)
  }

  function NtoaText(v: nat, negative: bool, base: nat, prec: nat, width: nat, f: Flags): Text
    requires IsBase(base)
  {
    Formatted(Stored(v, base, f), negative, base, prec, width, if v == 0 then f.(hash := false) else f)
  }

  // ---------------------------------------------------- integer conversions

  predicate IsIntegerConversion(conv: cchar) {
    conv == 'd' || conv == 'i' || conv == 'u' || conv == 'x' || conv == 'X' || conv == 'o' || conv == 'b'
  }

  predicate IsSigned(conv: cchar) { conv == 'd' || conv == 'i' }

  function BaseOf(conv: cchar): (b: nat)
    ensures IsBase(b)
  {
    if conv == 'x' || conv == 'X' then 16 else if conv == 'o' then 8 else if conv == 'b' then 2 else 10
  }

  /** The flag adjustments made before an integer is converted. */
  function IntegerFlags(conv: cchar, f: Flags): Flags {
    f.(zeropad := f.zeropad && !f.precision,
       plus := f.plus && IsSigned(conv),
       space := f.space && IsSigned(conv),
       hash := f.hash && BaseOf(conv) != 10,
       uppercase := f.uppercase || conv == 'X')
  }

  function Abs(v: int): nat { if v < 0 then -v else v }

  function IntegerText(conv: cchar, f: Flags, width: nat, prec: nat, v: int): Text {
    NtoaText(Abs(v), v < 0, BaseOf(conv), prec, width, IntegerFlags(conv, f))
  }

  // --------------------------------------------------------------- %c and %s

  /** The C string that starts a memory: everything before its first NUL. */
  function UpToNul(s: Text): (r: Text)
    ensures |r| <= |s|
  {
    if s == [] || s[0] == NUL then [] else [s[0]] + UpToNul(s[1..])
  }

  function StringText(s: Text, f: Flags, width: nat, prec: nat): Text {
    var all := UpToNul(s);
    Pad(if f.precision then all[..Min(|all|, prec)] else all, width, f.left)
  }

  function CharText(c: cchar, f: Flags, width: nat): Text {
    Pad([c], width, f.left)
  }
}
