/** Integer widths of the i686 target: `int`, `long`, `size_t` and pointers are
    32 bits wide, `long long` is 64 bits wide and `char` is a signed byte. */
module Machine {
  const TWO31: int := 0x8000_0000
  const TWO32: int := 0x1_0000_0000
  const TWO63: int := 0x8000_0000_0000_0000
  const TWO64: int := 0x1_0000_0000_0000_0000

  type u8 = x: int | 0 <= x < 0x100
  type u16 = x: int | 0 <= x < 0x1_0000
  type u32 = x: int | 0 <= x < 0x1_0000_0000
  type u64 = x: int | 0 <= x < 0x1_0000_0000_0000_0000

  /** One C `char`, named by its unsigned byte value. */
  type cchar = c: char | c as int < 256 witness '\0'

  type Text = seq<cchar>

  datatype Option<+T> = None | Some(value: T)

  const NUL: cchar := '\0'

  /** Conversion to an unsigned type of 32 bits. */
  function ToU32(x: int): u32 { x % TWO32 }

  /** Conversions to the signed types of 8, 16, 32 and 64 bits. */
  function ToInt8(x: int): int { if x % 0x100 < 0x80 then x % 0x100 else x % 0x100 - 0x100 }

  function ToInt16(x: int): int { if x % 0x1_0000 < 0x8000 then x % 0x1_0000 else x % 0x1_0000 - 0x1_0000 }

  function ToInt32(x: int): int { if x % TWO32 < TWO31 then x % TWO32 else x % TWO32 - TWO32 }

  function ToInt64(x: int): int { if x % TWO64 < TWO63 then x % TWO64 else x % TWO64 - TWO64 }

  /** Conversion to an unsigned type of 64 bits. */
  function ToU64(x: int): u64 { x % TWO64 }

  /** A 16-bit value from its bytes, low byte first. */
  function Join(lo: u8, hi: u8): u16 { lo as int + 0x100 * hi as int }

  function Min(a: int, b: int): int { if a < b then a else b }

  function Max(a: int, b: int): int { if a < b then b else a }

  /** n copies of one value. */
  function Rep<T>(x: T, n: nat): (r: seq<T>)
    ensures |r| == n && forall i :: 0 <= i < n ==> r[i] == x
  {
    seq(n, _ => x)
  }

  /** n copies of one character. */
  function Chars(c: cchar, n: nat): Text { Rep(c, n) }

  lemma NothingFirst<T>(none: seq<T>, s: seq<T>)
    requires none == []
    ensures none + s == s
  {
  }

  lemma Associative<T>(a: seq<T>, b: seq<T>, c: seq<T>)
    ensures a + (b + c) == (a + b) + c
  {
  }
}
