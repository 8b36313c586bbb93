# Verification of the printf engine, the terminal, memmove and the PS/2 reset

This project models four connected pieces of the chp-os kernel and proves properties of the model.

- **The printf engine** (`libc/stdio.c`). `Directives.dfy` is the language of formats, `Format.dfy` the text of each conversion, `Render.dfy` the text of a format with its arguments, `Sinks.dfy` the output functions, and `Engine.dfy` the loops over the 32-character scratch buffer and the format pointer, each proved to make exactly the calls that write that text. On top of them stand the comparison with ISO C11 (`Iso.dfy`, `IsoProof.dfy`, `Conformance.dfy`), reading back what was printed (`ReadBack.dfy`), truncation (`Truncation.dfy`) and the rounding of `_ftoa` over exact reals (`FixedPoint.dfy`).
- **The scrolling terminal** (`kernel/src/io/tty/tty.c`). `Terminal.dfy` is the class over the bytes of the text memory. `Screens.dfy` proves that the screen machine shows the last 25 rows of a log that never drops a row, and `Layouts.dfy` that the log of a text is its layout in rows of 80. `EndToEnd.dfy` joins printf and the terminal.
- **Overlapping copy** (`libc/string.c`), `Memory.dfy`, which the scroll uses at byte level.
- **The PS/2 device reset** (`kernel/src/io/ps2/ps2.c`), `Ps2.dfy`, against a controller that may answer anything.

`Machine.dfy` fixes the integer widths of the i686 target, `Bits.dfy` the operators `&` and `|`, and `Numerals.dfy` the numerals of the four bases.

## How the source is rendered

A `const char*` into a string is the text from the pointer on, so `format++` drops a character; reading past the end yields NUL. Characters are bytes; `char` is signed, which shows where the terminal widens one. The index passed to the output function and all 32-bit counters wrap at 2^32 as in C. The flag word is a record; its four length bits, which one modifier sets together, are one field. `va_arg` takes the next of a list of typed arguments. A double among them stands for the text `_ftoa` or `_etoa` writes for it: an arbitrary function of the conversion, its flags, width and precision, so that what is proved of formats holds whatever the floating-point conversions print. The two functions `_ntoa_long` and `_ntoa_long_long` have the same body and are one method on 64-bit values. Some methods are parts that the source writes inline in a longer function. The controller's ports are two arbitrary streams of bytes, which covers every controller, since a run only ever reads some sequence of values.

## Where the code departs from what is promised

Each of these is an equivalence, proved for all inputs, with the condition on the right.

- `memmove` moves its range if and only if it copies forwards or the length is at most 2^31 (`Memory.MemmoveCorrectIff`).
- A number of 2^32 or more in a format is read modulo 2^32, and then the field never agrees with the standard, except for a precision of `%c`, which has no meaning, or of `%s` where nothing visible is cut (`Conformance.ConversionAgreesIff`).
- An integer conversion prints the field of section 7.21.6.1 of ISO C11 if and only if `Iso.Agrees`: the scratch buffer holds zeros and sign, a left-justified field needs no precision zeros, and with `#` the digits do not just fill the width. For hexadecimal without a precision that is `width != D`, and with zero padding in effect `width < D` or `D + 2 <= width <= 32`, where D is the number of digits (`IsoProof.IntegerAgreesIff`).
- A negative `*` precision counts as zero instead of being ignored. An integer conversion still agrees if and only if `Conformance.ZeroPrecisionAgrees`; `%s` if and only if the string is empty, or consists of blanks and is no longer than the width (`Conformance.CutAgreesIff`); `%c` always does.
- A printed integer reads back as its value if and only if `ReadBack.Readable`. For `%b` the value must be below 2^32. Without a prefix, the sign of a negative number needs room in the buffer and zero must print a digit. With one, no digit may be dropped to make room (`%#2x` of AB prints just `0x`) and the buffer must not end between the two characters of the prefix.
- `snprintf_` truncates all texts of n characters correctly if and only if n < 2^32 or at most one byte is stored (`Truncation.TruncatesIff`), and returns the length if and only if it is below 2^31.
- Over exact reals, `_ftoa` prints a nearest decimal fraction if and only if the value does not tie behind nothing but nines (`FixedPoint.DenotesIff`); 0.95 with one place does.
- A character appears in the current colour if and only if it is 7-bit or the colour is FF (`Screens.ColorShownIff`).

## Model

| member | source | states |
|---|---|---|
| Memory.Memmove | libc/string.c:3-35 | for all overlaps the destination range is the old source range and every other byte is the old one, in either direction; a backward copy of more than 2^31 bytes leaves the memory as it was |
| Memory.MemmoveCorrectIff | libc/string.c:8-20 | the copy is right for every memory content exactly when it runs forwards or the length fits the signed counter |
| Memory.Memcpy | libc/string.c:37 | the same result as memmove, overlaps included |
| Memory.Memset | libc/string.c:39-46 | the range holds the byte, everything else is unchanged |
| Terminal.ByteMoveIsRowMove | kernel/src/io/tty/tty.c:39-40 | an overlapping move of 3840 bytes by 160 moves each little-endian 16-bit cell up by one row |
| Terminal.Tty.SetCell | kernel/src/io/tty/tty.c:62 | storing a cell changes that cell only |
| Terminal.Tty.Clear | kernel/src/io/tty/tty.c:17-33 | every cell blank in the current colour, cursor at the origin |
| Terminal.Tty.ScrollUp | kernel/src/io/tty/tty.c:37-47 | row r becomes the old row r + 1 and the last row is blank in the current colour |
| Terminal.Tty.Putc | kernel/src/io/tty/tty.c:51-82 | one step of the screen machine; the cursor stays inside 25 x 80 and every index inside the memory |
| Terminal.Tty.SetForeground | kernel/src/io/tty/tty.c:84 | the masks and the bitwise or of the source keep the high half of the colour and replace the low half |
| Terminal.Tty.SetBackground | kernel/src/io/tty/tty.c:86 | the shift, the masks and the bitwise or of the source keep the low half of the colour and replace the high half |
| Terminal.Tty.Putstr | kernel/src/io/tty/tty.c:89-96 | the characters up to the first NUL are put in order |
| Screens.StepView | kernel/src/io/tty/tty.c:51-86 | one command on the screen shows what the same command on the unbounded log shows |
| Screens.ScreenRefinesLog | kernel/src/io/tty/tty.c:37-86 | after every run of commands the cells are the last 25 log rows, the cursor row is min(absolute row, 24) and there were max(0, absolute row - 24) scrolls |
| Screens.ScrollView | kernel/src/io/tty/tty.c:37-47 | scrolling is appending a blank row to the log |
| Screens.LogKeepsRows | kernel/src/io/tty/tty.c:51-82 | rows above the cursor are never changed again by any run |
| Screens.CellIs | kernel/src/io/tty/tty.c:62 | the bitwise or of the shifted colour with a sign-extended character, cut to 16 bits, is the character in the current colour or, from 0x80 on, in colour FF |
| Screens.ColorShownIff | kernel/src/io/tty/tty.c:62 | the cell has the current colour exactly for 7-bit characters or colour FF, and always the character's byte |
| Layouts.LayoutSnoc | kernel/src/io/tty/tty.c:53-73 | one more character extends the layout by a character, a row, or an eager break |
| Layouts.LogIsLayout | kernel/src/io/tty/tty.c:51-82 | the log of any text in one colour is its layout split at newlines and eagerly every 80 characters |
| Layouts.ScreenShowsLayout | kernel/src/io/tty/tty.c:51-96 | any text on a cleared screen shows the last 25 rows of its layout, blank-padded, with the cursor behind its last character |
| Layouts.FullLineLeavesEmptyRow | kernel/src/io/tty/tty.c:69-73 | 80 characters and a newline leave an empty row |
| Numerals.DigitsDecode | libc/stdio.c:298-304 | for every value and base the stored digits decode to the value modulo base^room |
| Numerals.DigitsAreNumeral | libc/stdio.c:298-304 | they are the numeral without leading zeros when the value is below base^room, and fill the room otherwise |
| Numerals.NumeralReads | libc/stdio.c:298-304 | a numeral reads back as its value |
| Numerals.NumeralIsTight | libc/stdio.c:301 | a numeral begins with zero only for zero and holds no blank or sign |
| Numerals.PowBounds | libc/stdio.c:53-58 | 32 places are exactly enough for 32-bit binary numerals, and 24 for 64-bit ones in the other bases |
| Directives.GrammarParses | libc/stdio.c:607-689 | every text of flags in any order and number, width, precision, length and conversion is read as what it denotes, consuming nothing else; numbers are taken modulo 2^32 |
| Directives.DirectiveRoundTrip | libc/stdio.c:607-686 | printing any directive and reading it back gives the same directive; width digits never clash with the '0' flag |
| Directives.FormatRoundTrip | libc/stdio.c:593-605 | any sequence of items can be written as a format and parses back |
| Directives.ParseConcat | libc/stdio.c:593-605 | the items of two formats in a row are the items of the first and then of the second |
| Directives.NumberParses | libc/stdio.c:194-201 | a decimal number of any length is read modulo 2^32, up to its end |
| Directives.DirectiveIsSuffix | libc/stdio.c:607-689 | what is left after a directive is the end of what there was |
| Engine.Strnlen | libc/stdio.c:177-182 | the length of the string or the bound, whichever is smaller |
| Engine.Atoi | libc/stdio.c:194-201 | the number and the rest of the text that the grammar gives |
| Engine.OutRev | libc/stdio.c:205-229 | the buffer reversed, blank-padded on the proper side unless zero padding is in effect, at consecutive indices |
| Engine.PadZeros | libc/stdio.c:236-246 | zeros up to precision and width within the buffer, and the width left for them |
| Engine.PutPrefix | libc/stdio.c:249-268 | the trimmed buffer followed by the part of the prefix that fits |
| Engine.PutSign | libc/stdio.c:270-280 | a sign if there is room, minus before plus before blank |
| Engine.NtoaFormat | libc/stdio.c:233-283 | the whole field of the stored digits, never beyond 32 characters of buffer |
| Engine.StoreDigits | libc/stdio.c:299-303 | the conversion loop leaves the digits of the value, least significant first |
| Engine.Ntoa | libc/stdio.c:287-332 | the field of a magnitude in any base with any flags, width and precision |
| Engine.PutCharacter | libc/stdio.c:782-800 | the character padded to the width on the proper side |
| Engine.PutString | libc/stdio.c:802-826 | the first min(length, precision) characters padded to the width on the proper side, though the counters run past their bounds |
| Engine.MagnitudeOf | libc/stdio.c:733-742 | the unsigned conversion of `value > 0 ? value : 0 - value` is the magnitude, the least value included |
| Engine.PutInteger | libc/stdio.c:690-762 | the text of an integer conversion for every length modifier and argument |
| Engine.EvalDirective | libc/stdio.c:607-686 | flags, width, precision and arguments as the grammar and the `*` arguments give them |
| Engine.Convert | libc/stdio.c:689-855 | the text of the conversion, and the arguments after it, for every character that can end a specification |
| Engine.PutFormat | libc/stdio.c:593-856 | the loop emits the concatenation of the texts of all items in order at consecutive indices, and ends at the terminator |
| Engine.Vsnprintf | libc/stdio.c:583-863 | exactly the calls for the text from index 0 and one for the NUL; the returned int is the length modulo 2^32 |
| Engine.Snprintf | libc/stdio.c:889-896 | the buffer after those calls for every count, and no buffer needed |
| Engine.Printf | libc/stdio.c:868-876 | the terminal after those calls |
| Sinks.Sink.Out | libc/stdio.c:139-161 | one call stores within the bound, reaches the terminal unless NUL, or does nothing |
| Render.ConcatenatedConcat | libc/stdio.c:593-856 | two lists of items print one after the other, each with its own arguments |
| Render.FormatConcat | libc/stdio.c:593-856 | the output of two formats in a row is the output of the first followed by the output of the second with the remaining arguments |
| IsoProof.IntegerAgreesIff | libc/stdio.c:233-332 | for d, i, u, x, X, o and b with every flag set, width, precision and 64-bit value, the text is the field of section 7.21.6.1 of ISO C11 if and only if `Agrees` |
| IsoProof.AgreeingLength | libc/stdio.c:233-283 | there its length is the maximum of the width and sign, prefix and digits together |
| IsoProof.PlainAgreesIff | libc/stdio.c:236-246 | the condition without a prefix: room for zeros and sign, and no precision zeros on the left-justified side |
| IsoProof.PrefixedAgreesIff | libc/stdio.c:249-268 | the condition for the alternate form of hexadecimal, octal and binary |
| IsoProof.LongBinaryDiffers | libc/stdio.c:303 | binary values of 2^32 or more never print as they should |
| IsoProof.OctalZeroDiffers | libc/stdio.c:293-304 | `%#.0o` of zero lacks the zero the standard asks for |
| IsoProof.LeftPrecisionExample | libc/stdio.c:236-242 | `%-5.3d` of 7 prints `7` where the standard asks for `007` |
| IsoProof.TrimmedDigitsExample | libc/stdio.c:250-255 | `%#2x` of AB prints `0x` where the standard asks for `0xab` |
| Conformance.ConversionAgreesIff | libc/stdio.c:607-826 | for every specification the grammar allows, with widths and precisions of any size, for d, i, u, x, X, o, b, c and s and all arguments, `*` included: it is read to its end, and the printed text is the field of the standard if and only if `FieldAgrees` |
| Conformance.ZeroPrecisionIff | libc/stdio.c:645-648 | a negative precision argument, which the code takes for zero, agrees with no precision exactly when the value prints digits and zero padding adds nothing |
| Conformance.CutAgreesIff | libc/stdio.c:802-826 | a string cut short looks like the whole string exactly when nothing was cut, or what differs are blanks within the width |
| Conformance.TooLong | libc/stdio.c:194-201 | where the standard asks for 2^32 characters or more, the printed integer field is shorter |
| ReadBack.ReadsBackIff | libc/stdio.c:287-332 | for every conversion and value, the least ones included, and all flags, widths and precisions the printed integer, read with the optional prefix of its base, gives back the value if and only if `Readable` |
| ReadBack.FieldReads | libc/stdio.c:233-332 | what a reader of signed numbers finds in the field in every case, `#` included |
| ReadBack.LeftBehindReads | libc/stdio.c:250-255 | what is left of zeros and digits after characters were dropped has the same value exactly when only zeros were dropped |
| Truncation.CallsTruncate | libc/stdio.c:139-144 | the calls leave the first min(length, count - 1) characters, a NUL, and the old cells behind it |
| Truncation.TruncatesIff | libc/stdio.c:858-862 | this holds for all texts of n characters exactly when the index does not wrap or at most the NUL is stored |
| Truncation.SnprintfTruncates | libc/stdio.c:889-896 | for every format, arguments and count the buffer is the truncated text as section 7.21.6.5 of ISO C11 asks, for texts below 2^32 characters or counts up to 1, untouched for count 0; the full length is returned exactly below 2^31 |
| Truncation.ReturnedLengthIff | libc/stdio.c:862 | the returned int is the length exactly below 2^31 |
| EndToEnd.OnlyTextIsVisible | libc/stdio.c:155-161 | the terminating NUL and NULs in the text never reach the screen |
| EndToEnd.PrintfShows | libc/stdio.c:868-876 | a call puts the text without NULs on the terminal and returns the length of all of it exactly below 2^31 |
| EndToEnd.PrintAll | libc/stdio.c:868-876 | after clearing the terminal and any number of `printf_` calls the cells are the last 25 rows of the layout of everything the calls printed, NULs removed, and each call returned the length of its text, NULs included, exactly below 2^31 |
| EndToEnd.SessionShowsLayout | kernel/src/io/tty/tty.c:166 | texts put one after the other on a cleared screen show the last 25 rows of the layout of all of them together |
| EndToEnd.FormatsJoinOnScreen | libc/stdio.c:593-856 | printing two formats in a row leaves the screen that printing their concatenation leaves |
| FixedPoint.RoundingIsNearest | libc/stdio.c:389-407 | the rounded digits are within half a unit of the value, and fit their places except after a tie on nines |
| FixedPoint.WholeIsHalfEven | libc/stdio.c:409-416 | precision 0 rounds half to even |
| FixedPoint.FittingLayout | libc/stdio.c:417-443 | whole part, point and exactly `prec` digits with leading zeros kept |
| FixedPoint.OverflowingLayout | libc/stdio.c:427-434 | with one digit too many the wrapped count of missing zeros fills the 32 characters: zeros, a one and `prec` zeros, without point and whole part |
| FixedPoint.DenotesIff | libc/stdio.c:389-443 | over exact reals, for values up to 1e9 and 1 to 9 places the text is a decimal fraction with that many places within half a unit, if and only if there is no tie on nines |
| FixedPoint.WholeDenotes | libc/stdio.c:409-443 | over exact reals, without places the text is the nearest integer, ties to even |
| FixedPoint.TieOnNinesExample | libc/stdio.c:404-407 | the real number 0.95 with one place is such a tie and does not print as a number with one place |
| FixedPoint.Round | libc/stdio.c:389-416 | the rounding statements compute the rounded parts |
| FixedPoint.LayNumber | libc/stdio.c:389-443 | the loops leave the number's text, reversed, in the 32-character buffer |
| Ps2.Controller.WaitInputReady | kernel/src/io/ps2/ps2.c:107-113 | no error exactly if one of the first 100000000 polls was ready; at most one more poll |
| Ps2.Controller.WaitOutputReady | kernel/src/io/ps2/ps2.c:125-131 | no error exactly if one of the first 10000 polls was ready; at most one more poll |
| Ps2.DeviceWriteData | kernel/src/io/ps2/ps2.c:219-235 | every write follows a status read with bit 1 clear; the writes are exactly the byte, behind the port 2 command for the second port, if and only if there is no error, and otherwise a beginning of that, after 100000000 polls in a row without room |
| Ps2.DeviceReadData | kernel/src/io/ps2/ps2.c:237-245 | the next byte of the stream, read after a status read with bit 0 set, or nothing after giving up |
| Ps2.ResetDevice | kernel/src/io/ps2/ps2.c:247-317 | against any controller: disciplined and bounded accesses; the reset byte and no other write, or a refused wait; whichever it was, status and type are decided by the bytes read afterwards alone |
| Ps2.JudgeDevice | kernel/src/io/ps2/ps2.c:254-316 | after the reset byte: no writes, at most four bytes, fewer than wanted only after 10000 polls without a byte, status and type as `Classify` and `TypeAfter` say of the bytes |
| Ps2.DisciplinedConcat | kernel/src/io/ps2/ps2.c:219-317 | disciplined exchanges in a row are disciplined |
| Ps2.ClassifyIff | kernel/src/io/ps2/ps2.c:257-292 | okay exactly after FA and AA in either order, not connected exactly without a byte, never "no device id" |
| Ps2.Type00Iff | kernel/src/io/ps2/ps2.c:294-314 | a passed device is type 00 exactly if no id byte is nonzero, so also without any id |

## Left out

- Formats that end inside a directive: the source then steps over the terminator and reads what lies behind it in memory; `Render.Callable` asks for formats that do not.
- What f, F, e, E, g and G print inside a format: a parameter of the argument there. `_etoa` works on the bits of a double, and `_ftoa` is modelled apart, in `FixedPoint.dfy`.
- Conformance.ConversionAgreesIff: leaves out c and s with a length modifier, which ask for wide characters or are undefined; the flags `0` and `#` and a precision, which the standard leaves undefined there, are taken to have no effect on c, and the flags none on s.
- FixedPoint.DenotesIff: exact reals stand for doubles, so the rounding of the subtraction and multiplication in double precision, NaN and infinities are not modelled; precisions above 9 and the sign and padding after line 443 are not either.
- FixedPoint.LayNumber: stops before the padding, sign and output at libc/stdio.c:445-467, which repeat `_ntoa_format`.
- `%p` is emitted as the source does, but nothing further is proved about it: its format is implementation-defined.
- `sprintf_`, `vprintf_`, `vsnprintf_`, `fctprintf` and `_out_fct`: wrappers of the same engine.
- The layout of a `va_list` in memory: arguments are a typed list and must be of the kinds the format names.
- The address 0xB8000 and `volatile`: the text memory is an array of 4000 bytes.
- `tty_print_colormap`, `tty_ascii_printable_table` and `output_num`: demonstrations.
- `ps2_init` and the port setup (kernel/src/io/ps2/ps2.c:133-217, 325-387): they ignore the results of waiting, so the discipline does not hold there.
- The log messages of the PS/2 reset, `inb` and `outb`.
- kernel/src/system, kernel/src/boot, the assembly, the linker script and the build scripts.
