# Verification model of the x-alp firmware and simulation support

The repository holds a small RISC-V system: firmware libraries in C, a Verilator test bench in C++
and SystemVerilog, and a few hardware blocks. This project models the parts with the most branching
and arithmetic in Dafny and proves what they promise. `dafny verify dfyconfig.toml` checks everything.

| files | what they model |
|---|---|
| `Text`, `Digits`, `Directives`, `Rendering`, `Printf` | the embedded `printf`: the directive grammar, the text a format denotes, and the engine with its scratch buffer and output functions, which is proved to produce exactly that text |
| `Rounding`, `IntegerLaws`, `FormatLaws`, `FtoaLaws`, `PrintfLaws` | what that text means, down to the characters of the format and the output: numbers read back, exact field lengths, the `#` prefix, formats as a homomorphism, the parser as the inverse of a printer, fixed-point rounding over exact reals |
| `Bytes`, `Mmio` | byte copies over a device that takes aligned 32-bit accesses only: contents, frame and access trace |
| `Preload` | from ELF program headers to 64-bit words in the simulated SRAM |
| `Bitfield`, `Uart` | register fields; the UART transmit protocol against a FIFO that drains on its own, baud rate arithmetic, and `printf` down to the wire |
| `BootRom` | the ROM generator and the ROM it generates |
| `FastIntr` | the fast interrupt controller as a clocked state machine |
| `Heap` | `_brk` and `_sbrk` |

Code that works step by step is imperative here too: loops over the format, over the scratch
buffer, over words and chunks, and classes for the objects that are updated in place (`Sink`,
`Region`, `ElfLoader`, `Sram`, `Device`, `Console`, `Controller`, `Break`). Each such method is
proved against a function of its inputs or its old state, and the laws are lemmas about these functions.

## Where the code does less than one would expect

Six promises hold only under a condition. Each has a lemma that says exactly when, and one at a
concrete input that fails.

- Zero padding fills the 32-character scratch buffer and leaves no place for the sign, so
  `printf("%040d", -1)` prints a positive number (`SignCrowdedOut`). A conversion prints its argument if
  and only if the value is not negative or fewer than 32 characters are filled (`IntegerFaithful`,
  `IntegerFormat`).
- `#` gives up leading characters of a field that is filled exactly, and these can be digits: `%#2o`
  prints 8 as 00 (`HashStripsDigit`, `HashLaw`).
- `_ftoa` forgets the carry when the scaled fraction is exactly between the largest number with `prec`
  digits and `10^prec`; it then prints no decimal point at all (`CarryForgotten`, `FtoaFaithful`). This is
  a statement about exact reals. No `double` is exactly on such a tie, since `1 - 1/(2 * 10^prec)` is not a
  binary fraction (`NoBinaryTopTie`); the code gets there all the same when its product
  `(value - whole) * pow10[prec]` is rounded to the tie, as for 0.95 at one place.
- The SRAM loader stores whole words, so segments arrive intact, whatever they contain, if and only if
  all their addresses are multiples of 8 (`AlignmentNeeded`; `UnalignedIsBroken` gives the contents).
- Any update of the pending register replaces all 16 bits, so an interrupt is forgotten when some
  other line is active after its own source went low (`PendingLost`, `OtherLineForgets`).

- Setting the UART up clears CTRL first, which aborts the frame in the shift register, and then empties
  the FIFO. It drops nothing, however the transmitter moves, if and only if the transmitter is idle at
  entry (`SetUpNeedsIdle`; `FrameAborted` is a byte lost half-way). `_write` sets the UART up on every call.

Two limits belong to the scratch buffer as well: `%b` prints at most 32 digits (`BinaryFaithful`), and
`%f` with many places loses its whole part, as `%.31f` does for 1.5 (`WholePartLost`, `FixedShape`).

Two comments in the repository, and in one place the C standard, disagree with the code; the model
follows the code.

- sw/device/lib/runtime/printf.h:83-85 says that a truncated `snprintf` returns the buffer size; it
  returns the full length, as section 7.21.6.5 of ISO/IEC 9899:2011 asks for.
- A negative `*` precision counts as 0 (`StarPrecision`), where section 7.21.6.1 of ISO/IEC 9899:2011
  takes it as omitted.
- sw/device/lib/base/bitfield.h:55-56 says that index plus width of a field must not exceed 31; the
  driver's own NCO field reaches 32. What reading back needs is that no mask bit is shifted out
  (`ReadBackNeedsRoom`).

## Assumptions

- The ABI is RISC-V lp64d: `long`, `size_t` and pointers have 64 bits, and plain `char` is unsigned,
  so `%hhd` prints 0 to 255. `t`, `j` and `z` mean the same as `l`.
- A variable argument list is a sequence of 32-bit words, 64-bit words, C strings and real numbers. A
  format takes its arguments in order and each must have the expected type, as C demands; more may be given.
- Every directive of a format ends inside the format. (An incomplete one makes the engine read past
  the terminator, sw/device/lib/runtime/printf.c:777-780.)
- `%f` and `%F` take exact reals of at most 1e9 in magnitude, with at most 41 places: the code sends larger
  values to `_etoa`, and more places index past its table of powers of ten.
- `idx` is not bounded, since a text of 2^64 characters cannot be produced; the result is converted to `int`.
- The MMIO device is storage-like: a read returns what was last written.
- The SRAM ignores writes behind its end, as SystemVerilog arrays do. A file range whose sum wraps, at 2^32
  in an ELF32 file and at 2^64 in an ELF64 file, passes the loader's assertion and is read from outside of
  the file, which is undefined; the model stops there with an outcome of its own.
- An enabled transmitter moves again and again, at times of its own choice; without the TX bit nothing
  moves and the shift register is empty, as in hw/vendor/lowrisc/opentitan/hw/ip/uart/rtl/uart_tx.sv:57-73.
  So the polling driver is called on an enabled UART only (`WaitsForever`), and the divisor must not be 0,
  which an accepted one is below one baud per 2^20 clocks (`NcoAccepted`). The baud rate, the divisor and
  the clock are parameters, because a target may define its own divisor (sw/device/target/sim/x-alp.h:23).
- The interrupt controller's registers are the `prim_subreg` of
  hw/vendor/pulp_platform/register_interface/vendor/lowrisc_opentitan/src, with its access modes RW and RO.

## Model

| member | source | states |
|---|---|---|
| Printf.Snprintf | sw/device/lib/runtime/printf.c:810-816 | for every format of complete directives without exponential conversions, every argument list and every count: the buffer holds the first min(n, count - 1) characters of the rendered text, then NUL, then its old contents; with count 0 it is unchanged; the result is n as an `int` in every case, with a null buffer too |
| Printf.Vsnprintf | sw/device/lib/runtime/printf.c:510-789 | the same for all output functions: what the buffer holds, what reaches a character-wise sink, and that a null buffer silences both |
| Printf.Printf | sw/device/lib/runtime/printf.c:793-800 | the characters passed to `_putchar` are the rendered text without its NULs, and the text itself if it has none |
| Printf.NonNulLaws | sw/device/lib/runtime/printf.c:142-146 | leaving out NULs keeps everything else in order |
| Printf.PrintPieces | sw/device/lib/runtime/printf.c:514-782 | the main loop hands the sink exactly the rendered text, and its reading position ends at the terminator |
| Printf.ReadDirective | sw/device/lib/runtime/printf.c:531-629 | the fields in front of the conversion character, with `*` arguments taken in order and a negative `*` width turned into left justification |
| Printf.PrintDirective | sw/device/lib/runtime/printf.c:531-781 | one directive consumes its characters and its arguments, `*` included, and appends its rendering |
| Printf.PrintConversion | sw/device/lib/runtime/printf.c:632-781 | the conversion selected by the specifier, `%f` and `%F` included, with an unknown one printed as it is |
| Printf.AdjustFlags | sw/device/lib/runtime/printf.c:635-659 | the flag ladder yields the base and the flags of the conversion |
| Printf.FetchSigned | sw/device/lib/runtime/printf.c:661-681 | the signed argument at its width |
| Printf.FetchUnsigned | sw/device/lib/runtime/printf.c:682-696 | the unsigned argument at its width |
| Printf.PrintInteger | sw/device/lib/runtime/printf.c:633-699 | sign, magnitude, base and flag adjustments lead to the rendering of the value the argument stands for at its width |
| Printf.ReadFlags | sw/device/lib/runtime/printf.c:532-564 | the loop stops behind the longest run of flag characters, with the flags word of that run |
| Printf.ReadWidth | sw/device/lib/runtime/printf.c:566-579 | a written or `*` width, a negative `*` one turned into left justification |
| Printf.ReadPrecision | sw/device/lib/runtime/printf.c:581-593 | a precision field, with a negative `*` one read as 0 |
| Printf.ReadLength | sw/device/lib/runtime/printf.c:595-629 | the length modifier, one or two characters |
| Printf.AtoiAt | sw/device/lib/runtime/printf.c:174-178 | reads the longest run of digits, in 32-bit arithmetic |
| Printf.FillDigits | sw/device/lib/runtime/printf.c:250-257 | the scratch buffer, read backwards, holds the numeral of the value, at most 32 digits |
| Printf.Ntoa | sw/device/lib/runtime/printf.c:242-283 | both `_ntoa_long` and `_ntoa_long_long` emit the formatted integer, with no `#` for 0 |
| Printf.NtoaFormat | sw/device/lib/runtime/printf.c:202-239 | zeros, prefix and sign go in front of the digits as far as the scratch buffer has room |
| Printf.PushZeros | sw/device/lib/runtime/printf.c:208-209 | zero fill up to the target and never past 32 characters |
| Printf.PushPrefix | sw/device/lib/runtime/printf.c:213-226 | what `#` gives up and what it puts in front |
| Printf.PushSign | sw/device/lib/runtime/printf.c:228-236 | the sign, if there is room |
| Printf.OutRev | sw/device/lib/runtime/printf.c:181-199 | the text in reading order with its padding on the right side |
| Printf.Strnlen | sw/device/lib/runtime/printf.c:161-165 | the shorter of text and limit, modulo 2^32 |
| Printf.PrintChar | sw/device/lib/runtime/printf.c:719-733 | `%c` appends its field |
| Printf.PrintText | sw/device/lib/runtime/printf.c:735-751 | `%s` appends its field, with the length counted in 32 bits |
| Printf.Sink.Out | sw/device/lib/runtime/printf.c:128-156 | a character goes to its index if that is below the limit, nowhere, or to the sink unless it is NUL; nothing else changes |
| Printf.Sink.Emit | sw/device/lib/runtime/printf.c:128-156 | keeps the invariant that the buffer holds the text so far, cut at the limit, and otherwise its old contents |
| Digits.DigitTable | sw/device/lib/runtime/printf.c:254 | the sixteen digits of both cases, written out |
| Digits.NumeralDenotes | sw/device/lib/runtime/printf.c:250-257 | the stored digits denote the value modulo base^32 |
| IntegerLaws.NumeralExact | sw/device/lib/runtime/printf.c:250-257 | when they hold the value, they are digits of the base in the right case, without leading zeros |
| Digits.ScratchExact | sw/device/lib/runtime/printf.c:250-257 | 32 digits hold every 64-bit value in bases 8, 10 and 16 |
| IntegerLaws.FieldShape | sw/device/lib/runtime/printf.c:202-239 | without `#`, a field is spaces, sign, zeros, digits, spaces, for every width and precision; the sign is there exactly when fewer than 32 characters precede it |
| IntegerLaws.IntegerReadsBack | sw/device/lib/runtime/printf.c:202-283 | reading any field back gives the number modulo base^32, negated exactly when the sign fits |
| IntegerLaws.IntegerFaithful | sw/device/lib/runtime/printf.c:633-699 | for `d i u x X o` and all 64-bit arguments, the field reads back as the argument if and only if it is not negative or zero fill stays below 32 characters |
| IntegerLaws.SignCrowdedOut | sw/device/lib/runtime/printf.c:208-228 | `%040d` prints -1 as 1 |
| IntegerLaws.ArgumentValue | sw/device/lib/runtime/printf.c:661-696 | the number an integer directive prints is the one of the type its length modifier and conversion select that agrees with the fetched bits |
| IntegerLaws.BinaryFaithful | sw/device/lib/runtime/printf.c:633-699 | `%b` prints its argument modulo 2^32 |
| IntegerLaws.AddressFaithful | sw/device/lib/runtime/printf.c:753-770 | `%p` reads back as the address |
| IntegerLaws.FieldLength | sw/device/lib/runtime/printf.c:202-239 | a field has max(width, sign + max(precision, digits)) characters |
| IntegerLaws.IntegerLength | sw/device/lib/runtime/printf.c:633-699 | the same for whole directives with precision up to 31 and, under active zero padding, width up to 32; the precision drops out under `-` |
| IntegerLaws.TextField | sw/device/lib/runtime/printf.c:735-751 | `%s` fills max(width, min(length, precision)) columns: the front of the text on one side, only spaces on the other; padding is counted modulo 2^32 |
| IntegerLaws.CharField | sw/device/lib/runtime/printf.c:719-733 | `%c` fills max(width, 1) columns, all spaces but the character |
| IntegerLaws.HashKeepsDigits | sw/device/lib/runtime/printf.c:206-226 | under the condition of `HashLaw` only padding is given up |
| IntegerLaws.HashGivesUp | sw/device/lib/runtime/printf.c:206-226 | otherwise a digit is lost, and the prefix does not make up for it |
| IntegerLaws.HashLaw | sw/device/lib/runtime/printf.c:206-226 | under `#` all significant digits of a non-zero value are printed if and only if they are at most 32 and, unless the precision is explicit, the width differs from the digit count and is not, in zero-padded base 16, one more |
| IntegerLaws.HashStripsDigit | sw/device/lib/runtime/printf.c:214-217 | `%#2o` prints 8 as 00 |
| FormatLaws.FlagsOfMeaning | sw/device/lib/runtime/printf.c:531-564 | a flag bit is set if and only if its character occurs, in any order and number |
| FormatLaws.AtoiDenotes | sw/device/lib/runtime/printf.c:174-178 | `_atoi` computes the denoted number modulo 2^32 |
| FormatLaws.AtoiInvertsNumeral | sw/device/lib/runtime/printf.c:174-178 | `_atoi` inverts the decimal rendering of every `unsigned int` |
| FormatLaws.DirectiveGrammar | sw/device/lib/runtime/printf.c:531-629 | every well-formed directive, character by character, is read as it is spelled: any run of the five flag characters, numbers modulo 2^32, `*`, and all eight spellings of a length modifier, whatever follows |
| FormatLaws.DirectiveInverts | sw/device/lib/runtime/printf.c:531-629 | any flags, a width other than a written 0, any precision and length modifier, once printed, parse back to the same fields, whatever follows |
| FormatLaws.StarWidth | sw/device/lib/runtime/printf.c:569-579 | a `*` width prints like a written one, and a negative one like a written one under `-`, the remaining arguments included |
| FormatLaws.StarPrecision | sw/device/lib/runtime/printf.c:588-592 | a `*` precision, behind a `*` width or not, prints like a written one, and a negative one like a written 0 |
| FormatLaws.DirectiveStable | sw/device/lib/runtime/printf.c:531-629 | text behind a complete directive does not change how it is read |
| FormatLaws.PiecesConcat | sw/device/lib/runtime/printf.c:519-629 | a joined format is read as the pieces of the first format followed by those of the second |
| FormatLaws.RenderConcat | sw/device/lib/runtime/printf.c:519-781 | joined pieces take the joined arguments apart again, each its own |
| FormatLaws.FormatConcat | sw/device/lib/runtime/printf.c:519-781 | formatting is a homomorphism: joined formats with joined argument lists print the first text followed by the second |
| FormatLaws.PrintableConcat | sw/device/lib/runtime/printf.c:519-781 | what the engine accepts separately it accepts together |
| FormatLaws.OneDirective | sw/device/lib/runtime/printf.c:519-781 | a format of one directive takes the arguments of this directive and prints its text |
| PrintfLaws.PlainText | sw/device/lib/runtime/printf.c:519-526 | text without `%` takes no arguments and prints as it is |
| PrintfLaws.PercentSign | sw/device/lib/runtime/printf.c:772-775 | `%%` prints a percent sign |
| PrintfLaws.OtherFormat | sw/device/lib/runtime/printf.c:772-780 | every character that is no conversion prints as itself, whatever flags, width and precision stand in front |
| PrintfLaws.FieldIs | sw/device/lib/runtime/printf.c:202-239 | every field without `#`, written out: the zeros asked for by precision or width up to 32 characters, the sign if it is the 32nd at the latest, spaces on the side that `-` selects, and none under `0` |
| PrintfLaws.IntegerText | sw/device/lib/runtime/printf.c:531-699 | the exact text of `d i u x X o b` directives: digits in base 10, 16, 8 or 2 and in the case of the conversion, `-`, `+` or space for signed ones, and the field; a precision switches `0` off and drops the digit of 0 |
| PrintfLaws.IntegerFormat | sw/device/lib/runtime/printf.c:519-699 | from the characters of a format to the number in its output, read in base 10, 16 or 8: it is the argument if and only if this is not negative, or `-` is given, or the precision is below 32 and zero padding, without a precision, at most 32 wide |
| PrintfLaws.PrefixText | sw/device/lib/runtime/printf.c:213-226 | without width and precision, `#` puts `0x`, `0X`, `0` or `0b` in front of all digits, and nothing in front of 0 |
| PrintfLaws.HashFormat | sw/device/lib/runtime/printf.c:206-226 | `HashLaw` on the characters of formats |
| PrintfLaws.CharFormat | sw/device/lib/runtime/printf.c:719-733 | `%c` prints the low byte of its argument, with spaces up to the width on the side that `-` selects |
| PrintfLaws.TextFormat | sw/device/lib/runtime/printf.c:735-751 | `%s` prints as many characters as the precision allows, with spaces up to the width |
| PrintfLaws.AddressFormat | sw/device/lib/runtime/printf.c:753-770 | `%p` prints upper-case hexadecimal digits with zeros up to 16 columns, whatever the width |
| PrintfLaws.AddressColumns | sw/device/lib/runtime/printf.c:753-770 | plain `%p` is 16 upper-case digits that denote the address |
| PrintfLaws.FloatFormat | sw/device/lib/runtime/printf.c:296-402 | `%f` and `%F`: the sign and the text of the magnitude with the places asked for, or six |
| PrintfLaws.FloatDigits | sw/device/lib/runtime/printf.c:338-383 | that text is a nearest decimal number with so many places, or without places the nearest whole number |
| Printf.Ftoa | sw/device/lib/runtime/printf.c:296-402 | the loops of `_ftoa` emit the text of the value, for magnitudes up to 1e9 and precisions up to 41 |
| Printf.RoundTo | sw/device/lib/runtime/printf.c:338-363 | the result is a nearest multiple of 10^-prec, without places a nearest whole number and of two the even one, and on the topmost tie the value with its carry forgotten |
| Rounding.TableOfTens | sw/device/lib/runtime/printf.c:303 | the table holds the powers of ten |
| Rounding.RoundNearest | sw/device/lib/runtime/printf.c:338-352 | with at least one place, rounding finds a nearest multiple of 10^-prec, except on the topmost tie, where the fraction becomes 10^prec |
| Rounding.RoundHalfEven | sw/device/lib/runtime/printf.c:338-363 | without places it finds a nearest whole number, and of two the even one |
| Rounding.NoBinaryTopTie | sw/device/lib/runtime/printf.c:338-352 | no binary fraction, so no `double`, is exactly on a topmost tie |
| FtoaLaws.FixedShape | sw/device/lib/runtime/printf.c:331-383 | away from the topmost tie, for 1 to 41 places: whole part, point, the at most nine nearest places and zeros for the others are printed if and only if they fit into 32 characters |
| FtoaLaws.ShortPrecision | sw/device/lib/runtime/printf.c:354-383 | with at most nine places they always fit |
| FtoaLaws.WholePartLost | sw/device/lib/runtime/printf.c:331-383 | `%.31f` does not print 1.5 |
| FtoaLaws.TopTieText | sw/device/lib/runtime/printf.c:364-377 | on the topmost tie digits and zeros fill the buffer and there is no decimal point |
| FtoaLaws.CarryForgotten | sw/device/lib/runtime/printf.c:338-377 | 0.95 at one place is a topmost tie and has no decimal point |
| FtoaLaws.FtoaFaithful | sw/device/lib/runtime/printf.c:323-383 | a nearest multiple of 10^-prec is printed, carry into the whole part included, if and only if the value is not on the topmost tie |
| FtoaLaws.FtoaWhole | sw/device/lib/runtime/printf.c:354-363 | without places the text is the rounded whole number |
| FtoaLaws.FtoaColumns | sw/device/lib/runtime/printf.c:385-401 | sign, zeros and spaces go around the number as for integers |
| Mmio.Memcpy | sw/device/lib/base/memory.c:22-27 | replaces exactly the destination range by the source range |
| Mmio.CopyWord | sw/device/lib/base/mmio.c:55-99 | a part of one word: a read, a write or a read-modify-write, and no other byte changes |
| Mmio.Memcpy32 | sw/device/lib/base/mmio.c:38-105 | for every offset and length: contents on both sides, and the exact trace of accesses, blocks shorter than the realignment gap included |
| Mmio.MemcpyFromMmio32 | sw/device/lib/base/mmio.c:107-109 | returns exactly the bytes of the range; the device words and the rest of the buffer are unchanged |
| Mmio.MemcpyToMmio32 | sw/device/lib/base/mmio.c:111-116 | the device view is the old one with exactly the range replaced; the source is unchanged |
| Mmio.RoundTrip | sw/device/lib/base/mmio.c:107-116 | a copy to the device and back from the same offset is the identity |
| Mmio.TraceIsSweep | sw/device/lib/base/mmio.c:43-104 | the trace visits the ceil((offset % 4 + len) / 4) words that overlap the range, each once; a word covered in full is written without being read |
| Mmio.TraceOrder | sw/device/lib/base/mmio.c:43-104 | all accesses are aligned and lie in overlapping words; offsets ascend, only a read and the write behind it share one; every overlapping word is reached |
| Mmio.WritesOf | sw/device/lib/base/mmio.c:55-99 | copying out writes nothing, and copying in writes every overlapping word once |
| Mmio.ReadsFromMmio | sw/device/lib/base/mmio.h:356-357 | the exact number of reads when copying out, and the documented bound len / 4 + 2 |
| Mmio.ReadsToMmio | sw/device/lib/base/mmio.c:81-98 | the exact number of reads when copying in, at most 2, one for each end that is not aligned |
| Bytes.BytesRoundTrip | tb/src/verilator/tb_util.svh:45-58 | a word assembled from bytes, the first one lowest, holds these bytes |
| Bytes.EightBytes | tb/src/verilator/tb_util.svh:57 | the number that eight bytes make, the first one lowest |
| Bytes.ViewOfWords32 | sw/device/lib/base/mmio.c:60-67 | a device word is its four bytes in the view, the first one lowest |
| Bytes.ViewOfWords64 | tb/src/verilator/tb_util.svh:57 | an SRAM word is its eight bytes in the view, the first one lowest |
| Bytes.Bytes32Exact | sw/device/lib/base/mmio.c:60-67 | the byte view of a device loses nothing: equal views belong to equal words |
| Preload.ElfLoader.Write | tb/src/verilator/tb_elfloader.cpp:26-30 | an address keeps the first data it was given |
| Preload.ElfLoader.GetSection | tb/src/verilator/tb_elfloader.cpp:39-56 | yields the sections in order, with the size of their data, until there are no more |
| Preload.ElfLoader.ReadSectionChunk | tb/src/verilator/tb_elfloader.cpp:58-79 | copies the chunk, or fails and leaves the buffer alone, exactly when the base is unknown or the chunk out of bounds |
| Preload.ElfLoader.LoadElf | tb/src/verilator/tb_elfloader.cpp:81-116 | truncated headers load nothing; otherwise the outcome of the headers, and when they load, the globals describe the segments of all loadable ones |
| Preload.TableDecides | tb/src/verilator/tb_elfloader.cpp:88-93 | the test of the header table, with headers of 32 or 56 bytes, in 64-bit arithmetic |
| Preload.LoadedMeansInFile | tb/src/verilator/tb_elfloader.cpp:98-110 | the headers load if and only if every header of type 1 with both sizes not 0 lies in the file |
| Preload.FirstDecides | tb/src/verilator/tb_elfloader.cpp:98-110 | otherwise the first one that does not decides: the assertion fails, or its sum wraps around, at 2^32 or 2^64 by the class of the file |
| Preload.SegmentsMeaning | tb/src/verilator/tb_elfloader.cpp:98-110 | a segment is there if and only if some header of type 1 with both sizes not 0 describes it, with the bytes of the file |
| Preload.Sram.WriteToSram | tb/src/verilator/tb_util.svh:45-58 | one word gets the number its bytes make, the first one lowest, and no other changes; an index outside the array writes nothing |
| Preload.Sram.LoadChunk | tb/src/verilator/tb_util.svh:26-43 | a chunk is stored word by word, 32-bit addresses wrapping around and unaligned ones rounded down |
| Preload.LoadSection | tb/src/verilator/tb_sim_ctrl.cpp:215-226 | chunk by chunk, exactly the zero-padded data of the section is stored from its address on, whatever its address and size |
| Preload.LoadSections | tb/src/verilator/tb_sim_ctrl.cpp:213-227 | all sections are stored, in order |
| Preload.OneWord | tb/src/verilator/tb_util.svh:36-42 | a word goes to its address modulo 2^32, rounded down to a multiple of 8 |
| Preload.PaddedMeans | tb/src/verilator/tb_sim_ctrl.cpp:216-219 | data is filled up to whole words with zeros |
| Preload.StoreTwice | tb/src/verilator/tb_sim_ctrl.cpp:215-226 | cutting data into chunks at word boundaries does not change what is stored |
| Preload.LayersExact | tb/src/verilator/tb_sim_ctrl.cpp:213-227 | aligned, disjoint segments do not disturb each other, the zeros behind their ends included |
| Preload.PreExec | tb/src/verilator/tb_sim_ctrl.cpp:193-231 | for disjoint, 8-aligned ranges inside the 32-bit address space, said of the headers: every SRAM byte of a loadable header is the byte of the file, the rest of its last word is zero, and every other byte is unchanged; for any others, memory is the segments stored in order with the first data of their address |
| Preload.HeadersReachMemory | tb/src/verilator/tb_elfloader.cpp:98-116 | the same as a law of headers, file and memory |
| Preload.AlignmentNeeded | tb/src/verilator/tb_sim_ctrl.cpp:213-227 | segments at disjoint places in memory all arrive intact, whatever they contain, if and only if every address is a multiple of 8 |
| Preload.UnalignedIsBroken | tb/src/verilator/tb_util.svh:36-42 | for an unaligned address, two contents that differ in one byte cannot both arrive |
| Bitfield.WriteBits | sw/device/lib/base/bitfield.h:95-99 | every bit of the result comes from the value where the shifted mask has a bit, and stays otherwise |
| Bitfield.ReadBits | sw/device/lib/base/bitfield.h:78-80 | a field has the bits from its index on, as far as the mask has them |
| Bitfield.BitMeaning | sw/device/lib/base/bitfield.h:124-154 | single bits: reading gives the bit, writing changes no other |
| Bitfield.ReadAfterWrite | sw/device/lib/base/bitfield.h:78-99 | a field that fits into the word reads back the masked value |
| Bitfield.ReadBackNeedsRoom | sw/device/lib/base/bitfield.h:54-99 | a field reads back every value if and only if no bit of its mask is shifted out |
| Bitfield.WriteKeepsOthers | sw/device/lib/base/bitfield.h:95-99 | no bit outside the field changes |
| Bitfield.ReadOther | sw/device/lib/base/bitfield.h:78-99 | a write leaves a field apart from it readable as before |
| Bitfield.WriteAfterRead | sw/device/lib/base/bitfield.h:78-99 | writing back what was read is the identity |
| Uart.DrainLaws | sw/device/lib/drivers/uart/uart.c:83-91 | draining neither loses, repeats nor reorders a byte, and gets on while there is work and TX is on |
| Uart.TxFull | sw/device/lib/drivers/uart/uart.c:68-71 | whether the FIFO is full at the moment of the read |
| Uart.TxIdle | sw/device/lib/drivers/uart/uart.c:73-76 | whether FIFO and shift register are empty at the moment of the read |
| Uart.WaitWhileFull | sw/device/lib/drivers/uart/uart.c:84-85 | the polling loop ends, with room in the FIFO and no byte lost |
| Uart.WaitUntilIdle | sw/device/lib/drivers/uart/uart.c:89-90 | the polling loop ends, with everything on the wire |
| Uart.WaitsForever | sw/device/lib/drivers/uart/uart.c:89-90 | with TX off, a byte in the FIFO stays there, so the loop would not end |
| Uart.PutcharUart | sw/device/lib/drivers/uart/uart.c:83-91 | the byte is written when there is room and reaches the wire behind everything accepted before |
| Uart.WriteUart | sw/device/lib/drivers/uart/uart.c:111-119 | the wire grows by exactly the given bytes in order, none is written to a full FIFO, the length is returned and the transmitter is idle if it is not 0 |
| Uart.Reset | sw/device/lib/drivers/uart/uart.c:27-40 | the register writes, in order; exactly the frames completed before CTRL is cleared are left |
| Uart.SetUpCuts | sw/device/lib/drivers/uart/uart.c:28-34 | what is left is a front part of everything accepted, and at least what was on the wire at entry |
| Uart.SetUpKeeps | hw/vendor/lowrisc/opentitan/hw/ip/uart/rtl/uart_tx.sv:57-61 | nothing is dropped if and only if the transmitter has finished when CTRL is cleared |
| Uart.SetUpNeedsIdle | hw/vendor/lowrisc/opentitan/hw/ip/uart/rtl/uart_tx.sv:57-61 | nothing is dropped under any drain schedule if and only if the transmitter is idle at entry |
| Uart.FrameAborted | hw/vendor/lowrisc/opentitan/hw/ip/uart/rtl/uart_tx.sv:57-61 | a byte in the shift register is lost |
| Uart.Init | sw/device/lib/drivers/uart/uart.c:42-66 | accepted if and only if baud rate and clock are not 0 and the divisor has 16 bits; all register writes in order, and the transmitter afterwards: on and empty, behind the completed frames; a rejected configuration touches nothing |
| Uart.InitWritesMeaning | sw/device/lib/drivers/uart/uart.c:28-64 | these writes with their offsets and values: the reset, then CTRL with the divisor in its upper half and 3 below, then no interrupts |
| Uart.ControlWordReadsBack | sw/device/lib/drivers/uart/uart.c:56-62 | the CTRL word has the divisor in its field, TX and RX on, and all other bits 0 |
| Uart.NcoAccepted | sw/device/lib/runtime/syscalls.c:229-240 | for all non-zero baud rates and clocks the divisor is accepted if and only if 16 * baud < clock, and is 0 if and only if baud * 2^20 < clock; the shift does not overflow, and the rate produced lies in (baud - clock / 2^20, baud] |
| Uart.DivisorProgrammed | sw/device/lib/drivers/uart/uart.c:47-62 | then CTRL reads back floor(baud * 2^20 / clock) |
| Uart.Console.WriteSyscall | sw/device/lib/runtime/syscalls.c:219-243 | fails for other files and bad baud rates without sending anything; otherwise the wire is exactly what was complete when the set-up began, and then the bytes |
| Uart.Console.Putchar | sw/device/lib/runtime/syscalls.c:258-276 | sets the UART up once, dropping what is not complete on the wire; later characters follow everything accepted, each as its code modulo 256; nothing happens if the baud rate cannot be reached |
| Uart.Console.Print | sw/device/lib/runtime/printf.c:793-800 | `printf` end to end: the rendered text without NULs goes out, one byte for every character, its code modulo 256, behind everything accepted, or behind what is complete on the wire if the first character has to set the UART up |
| BootRom.Pad | hw/ip/bootrom/gen_bootrom.py:52-58 | the loop finds the least power of two that is at least 8, the image length and the requested padding, and appends zeros |
| BootRom.LiteralValue | hw/ip/bootrom/gen_bootrom.py:71-74 | the literal of four bytes has eight lower-case digits and denotes the bytes, the first one lowest |
| BootRom.IndexValue | hw/ip/bootrom/gen_bootrom.py:82-87 | the label of a case item denotes its index, three digits or more |
| BootRom.ItemFetched | hw/ip/bootrom/bootrom.sv:29-36 | the truncated index of an address selects the item of its word, at every base that is a multiple of the ROM size |
| BootRom.FetchReturnsImage | hw/ip/bootrom/bootrom.sv:29-102 | the fetched word, byte by byte, is the padded image at this place |
| BootRom.RomHoldsImage | hw/ip/bootrom/gen_bootrom.py:52-87 | generation and lookup undo each other: the image, then zeros |
| FastIntr.Controller.Clock | hw/ip/fast_intr_ctrl/rtl/fast_intr_ctrl.sv:43-70 | the per-bit logic and the three registers compute one step of the state machine; the outputs are the pending bits and the bus error |
| FastIntr.ClockMeaning | hw/ip/fast_intr_ctrl/rtl/fast_intr_ctrl_reg_top.sv:162-184 | that step, line by line: what a write to offset 4 or 8 with both byte enables does, and when pending bits change |
| FastIntr.ErrorMeaning | hw/ip/fast_intr_ctrl/rtl/fast_intr_ctrl_reg_top.sv:162-178 | the bus reports an error for other offsets and for partial writes |
| FastIntr.ResetMeaning | hw/ip/fast_intr_ctrl/rtl/fast_intr_ctrl_reg_top.sv:82-157 | after reset exactly lines 0 to 14 are enabled, and nothing is pending |
| FastIntr.ClearWord | hw/vendor/pulp_platform/register_interface/vendor/lowrisc_opentitan/src/prim_subreg_arb.sv:28-36 | a software write to the clear register wins over the hardware update of the same clock |
| FastIntr.PendingLost | hw/ip/fast_intr_ctrl/rtl/fast_intr_ctrl.sv:45-69 | a pending bit is forgotten if and only if some line causes an update while its own source is low, disabled or being cleared |
| FastIntr.OtherLineForgets | hw/ip/fast_intr_ctrl/rtl/fast_intr_ctrl.sv:69 | a concrete case: line 1 going high clears pending line 0 |
| FastIntr.PendingOrigin | hw/ip/fast_intr_ctrl/rtl/fast_intr_ctrl.sv:43-70 | in every run a bit is pending if and only if at the latest update of the register its source was high, enabled and not being cleared |
| FastIntr.HeldStaysPending | hw/ip/fast_intr_ctrl/rtl/fast_intr_ctrl.sv:43-70 | a source held high, enabled and not cleared stays pending from the next clock on, whatever the others do |
| FastIntr.ClearReturnsToZero | hw/ip/fast_intr_ctrl/rtl/fast_intr_ctrl_reg_top.sv:108-133 | the clear word lives for one clock: what was written in the clock before, or zero |
| FastIntr.EnableIsLastWritten | hw/ip/fast_intr_ctrl/rtl/fast_intr_ctrl_reg_top.sv:135-184 | in every run the enable word is the latest one written without a bus error, or the reset value |
| Heap.Break.SetBrk | sw/device/lib/runtime/syscalls.c:282-289 | sets the break if and only if the address lies in the heap, its end included |
| Heap.Break.MoveBrk | sw/device/lib/runtime/syscalls.c:291-302 | grants the old break and moves by the increment if and only if the heap is not empty and the new break stays in it, below its end; otherwise nothing changes |
| Heap.BreakInHeap | sw/device/lib/runtime/syscalls.c:278-302 | over every sequence of calls the break stays in the heap, and a failed call changes nothing |
| Heap.BlocksPartition | sw/device/lib/runtime/syscalls.c:291-302 | with growing `_sbrk` calls only, the granted blocks lie in the heap one behind the other, without overlap, and their sizes add up to what was allocated |

## Left out

- IntegerLaws.HashLaw: the value 0, for which `#` is dropped; PrintfLaws.PrefixText has it.
- PrintfLaws.AddressFormat: `%#p`, which goes through the same prefix code.
- PrintfLaws.IntegerText: `#`, which PrintfLaws.PrefixText and PrintfLaws.HashFormat cover; `*`, which FormatLaws.StarWidth and FormatLaws.StarPrecision reduce to written numbers.
- Printf.Ftoa: rounding of `double`; the arithmetic is over exact reals, without NaN and infinity. Values beyond 1e9 go to `_etoa`, and precisions above 41 index past the table of powers of ten.
- FtoaLaws.FtoaFaithful: precisions above 9, which FtoaLaws.FixedShape and FtoaLaws.TopTieText cover.
- Printf.Snprintf: formats with `%e %E %g %G`; `_etoa` works on the bits of a `double`. The same holds for Printf.Vsnprintf, Printf.Printf and Uart.Console.Print.
- Printf.Ntoa: one method for `_ntoa_long` and `_ntoa_long_long`, which are the same code at the same width under this ABI.
- Preload.ElfLoader.LoadElf: what is read from outside of the file; header decoding, section headers, string tables, the entry point and log messages, none of which reaches the image; the `int` counter of `write`, which limits a segment to 2^31 bytes.
- Preload.PreExec: several runs in one process, which would share the loader's globals; opening and mapping the file.
- Uart.WriteUart: the receive side, and a null device pointer.
- Uart.Console.WriteSyscall: a negative length; `errno`; reading the clock frequency.
- FastIntr.Controller.Clock: the read data of the bus interface.
- Heap.Break.MoveBrk: pointer wrap-around; addresses are integers.
- `sprintf_`, which has no bound and is `snprintf_` with an unlimited count otherwise; `vprintf_` and `vsnprintf_`, which only forward a `va_list`.
- `memset`, `memcmp`, `memchr`, `memrchr`, the stub system calls and the builtin-backed bit functions: easy members only.
- The Arm ROM output of the generator.
- Bus fabric, CPU, debug and memory subsystem, whose IP is not part of this model; `remote_bitbang`, vendoring and reporting scripts, build files, test applications.
