/** Integer conversions as section 7.21.6.1 of ISO C11 describes them, and exactly
    when libc/stdio.c follows it. The b conversion, which C11 does not have, is
    described in the same terms with the prefix 0b. */
module Iso {
  import opened Machine
  import opened Numerals
  import opened Format

  // ------------------------------------------------------------ the standard

  function Sign(conv: cchar, f: Flags, v: int): Text {
    if !IsSigned(conv) then []
    else if v < 0 then ['-'] else if f.plus then ['+'] else if f.space then [' '] else []
  }

  /** The '#' flag prefixes a nonzero hexadecimal or binary result. */
  function Prefix(conv: cchar, f: Flags, v: int): Text {
    if !f.hash || v == 0 then []
    else if conv == 'x' then ['0', 'x']
    else if conv == 'X' then ['0', 'X']
    else if conv == 'b' then ['0', 'b']
    else []
  }

  /** At least `prec` digits, none for zero with precision zero; for o the '#' flag
      raises the precision, only if necessary, to make the first digit a zero. */
  function IsoDigits(conv: cchar, f: Flags, prec: nat, v: int): Text {
    var raw := if v == 0 && f.precision && prec == 0 then [] else Numeral(Abs(v), BaseOf(conv), conv == 'X');
    var digits := if f.precision then Chars('0', Max(0, prec - |raw|)) + raw else raw;
    if conv == 'o' && f.hash && (digits == [] || digits[0] != '0') then ['0'] + digits else digits
  }

  /** '-' justifies left; otherwise '0', unless there is a precision, pads with
      zeros after sign and prefix; otherwise blanks go on the left. */
  function IsoInteger(conv: cchar, f: Flags, width: nat, prec: nat, v: int): Text {
    var lead := Sign(conv, f, v) + Prefix(conv, f, v);
    var digits := IsoDigits(conv, f, prec, v);
    if f.zeropad && !f.left && !f.precision then
      lead + Chars('0', Max(0, width - |lead| - |digits|)) + digits
    else
      Pad(lead + digits, width, f.left)
  }

  // ----------------------------------------------------- where the code agrees

  /** The number of digits of a value; zero with a precision has none of its own. */
  function DigitCount(conv: cchar, f: Flags, v: int): nat {
    if v == 0 && f.precision then 0 else |Numeral(Abs(v), BaseOf(conv), conv == 'X')|
  }

  predicate ZeroFill(f: Flags) { f.zeropad && !f.left && !f.precision }

  /** Fields without a prefix: the scratch buffer must hold zeros and sign, and a
      left-justified field must not need precision zeros. */
  predicate PlainAgrees(conv: cchar, f: Flags, width: nat, prec: nat, v: int) {
    var d, sign := DigitCount(conv, f, v), |Sign(conv, f, v)|;
    if f.precision then (if f.left then prec <= d else prec + sign <= BUFFER_SIZE)
    else ZeroFill(f) ==> width <= BUFFER_SIZE
  }

  /** A blank sign that found no room cannot be told from the padding. */
  predicate BlankSignFits(conv: cchar, f: Flags, width: nat, prec: nat, v: int) {
    Sign(conv, f, v) == [' '] && f.precision && !f.left && prec == BUFFER_SIZE && width > BUFFER_SIZE
  }

  /** Prefixed fields: besides, the digits must not just fill the width, since the
      code then drops leading characters to make room for the prefix. */
  predicate PrefixAgrees(base: nat, d: nat, f: Flags, width: nat, prec: nat) {
    match base
    case 16 =>
      if f.precision then (if f.left then prec <= d else prec <= BUFFER_SIZE - 2)
      else width != d && (ZeroFill(f) ==> width < d || d + 2 <= width <= BUFFER_SIZE)
    case 8 =>
      if f.precision then (if f.left then prec <= d + 1 else prec <= d || prec == BUFFER_SIZE)
      else width != d && (ZeroFill(f) ==> width <= BUFFER_SIZE)
    case _ =>
      d <= BUFFER_SIZE - 2 &&
      if f.precision then (if f.left then prec <= d else prec <= BUFFER_SIZE - 2)
      else width != d && (ZeroFill(f) ==> width <= d + 1)
  }

  /** The exact condition under which the code prints what the standard asks for. */
  predicate Agrees(conv: cchar, f: Flags, width: nat, prec: nat, v: int) {
    if conv == 'b' && v >= TWO32 then false
    else if conv == 'o' && f.hash && v == 0 && f.precision && prec == 0 then false
    else if v != 0 && f.hash && BaseOf(conv) != 10 then
      PrefixAgrees(BaseOf(conv), DigitCount(conv, f, v), f, width, prec)
    else
      PlainAgrees(conv, f, width, prec, v)
      || BlankSignFits(conv, f, width, prec, v)
  }
}
