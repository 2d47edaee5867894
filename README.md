# truncate, modelled in Dafny

`truncate` sets each named file to a target length. The length comes from a
size argument (`-s`), from a reference file (`-r`), or from both. A size
argument is a number with an optional unit suffix and an optional modifier
prefix: `+` and `-` are relative, `<` means at most, `>` at least, `/` round
down and `%` round up. With `-o` the size counts I/O blocks. With `-C` the
space between the base size and the new length is filled with a given byte
instead of being left as a hole.

The project models the logic of `truncateb.c`. It has six modules:

- `LongInt` (longint.dfy): LP64 integers. `long`, `off_t` and `intmax_t` are
  64-bit and `int` is 32-bit. It defines wrap-around, and C's truncating `/`
  and `%`.
- `CStrings` (cstrings.dfy): C strings as `string`, read past their end as
  NUL. It defines `isspace` in the "C" locale and `strtol` as described in
  ISO/IEC 9899:2011 section 7.22.1.4.
- `SizeParser` (sizeparser.dfy): the `-s` argument.
  - `bkm_scale_by_power_custom` is modelled twice. `ScaleByPower` is the
    source's loop as a method. `ScaleSpec` is the function that specifies
    it.
  - `xstrtol_custom` becomes `XStrtol` and `xdectoimax_custom` becomes
    `XDecToIMax`.
  - The modifier prefix handling of `main` becomes `Prefix` and
    `SizeOption`.
- `ResizeCalc` (resizecalc.dfy): the size computation of `do_ftruncate` as
  the pure function `Resolve`. The current size, the reference size and the
  block size are its inputs.
- `ResizeEngine` (resizeengine.dfy): the file side of `do_ftruncate`.
  - An open descriptor is the class `OpenFile`. It holds the contents, the
    offset and the block size. It also holds the answers its device will
    give to coming writes, which lets a write fail or come up short.
  - The pad loop becomes the method `WritePad`. It is proved against the
    function `PadTrace`, and the properties of the loop are lemmas about
    `PadTrace`.
  - `DoFtruncate` puts the computation, `ftruncate` and the pad loop
    together.
- `Truncate` (truncate.dfy): the rest of `main` that decides behaviour.
  - The `-C` argument, and the option loop as a fold over the options.
  - The usage checks made before any file is opened.
  - How a reference size combines with `-s`.
  - The exit status the per-file loop yields.

Three details of the code that a reader might expect otherwise:

- After a scaling overflow `bkm_scale_by_power_custom` leaves the wrapped
  product in `*x`, not a saturated value: the store of LONG_MIN or LONG_MAX
  at line 269 is dead, because line 272 overwrites it. No behaviour depends
  on this, because any overflow makes `xdectoimax_custom` fail.
- Padding starts at the base size `fsize`. The usage text at line 81 speaks of
  padding "the sparse extended part", but with `-r` the base size is the
  reference size (lines 129-131), and line 206 seeks there before writing. So
  padding can overwrite existing bytes between the reference size and the old
  end of the file. `DoFtruncate` states this.
- Modifier characters are read only before the number, never after it, as
  the usage text at line 90 says ("SIZE may also be prefixed").

Three places where the code is evidently wrong are modelled twice, as written
and repaired, and the rest of the model uses the repaired version. All three
are listed under "## Findings":

- The `-C` check at lines 482-487 is inverted. `CharCodeAsWritten` models it;
  `CharCode`, which accepts exactly a whole-argument number in 0..255, is the
  one `Truncate.Apply` uses.
- An absolute size with padding leaves `nsize` unassigned.
  `ResolveAsWritten` models that; `Resolve` gives the absolute size, and
  `DoFtruncate` uses `Resolve`.
- `sb` is read in cases where `fstat` was skipped. `StatRead` and
  `FstatCalled` model the code; `DoFtruncate` takes the block size and the
  current size as inputs, as if `fstat` were called whenever `FstatNeeded`
  holds.

## Model

| member | source | states |
|---|---|---|
| LongInt.Wrap64 | truncateb.c:267 | the stored product is in the range of `long`, equals the true product when that fits, and is congruent to it modulo 2^64 |
| LongInt.Wrap32 | truncateb.c:482 | the `long` to `int` conversion lands in the range of `int`, keeps values that fit, and is congruent modulo 2^32 |
| LongInt.CRem | truncateb.c:167 | C's remainder: a = b*q + r with q truncated toward zero, abs(r) < abs(b), and r has the sign of the dividend |
| CStrings.Strtol | truncateb.c:284 | the value fits a `long`; nothing is converted (end 0, value 0) exactly when the character after the leading space and the sign is no digit of the base (decimal for base 0); ERANGE comes with LONG_MIN or LONG_MAX; a negative value needs a '-' after the leading space |
| CStrings.StrtolSigned | truncateb.c:284 | in base 10, or base 0 with a first digit other than 0, leading space, an optional sign and a decimal numeral convert to the signed numeral's value, saturated with ERANGE outside `long`, and end right after the digits |
| CStrings.StrtolHex | truncateb.c:482 | in base 0, "0x" or "0X" followed by hexadecimal digits converts to the signed hexadecimal value, saturated with ERANGE outside `long`, and ends after the digits |
| CStrings.StrtolOctal | truncateb.c:482 | in base 0, a numeral starting with 0 converts to its signed octal value, saturated with ERANGE outside `long`, and ends after the octal digits; a "0x" or "0X" with no hexadecimal digit after it converts only the 0 |
| CStrings.HexPrefixWithoutDigits | truncateb.c:482 | "0xg" in base 0 converts to 0 and ends after the 0 |
| CStrings.StrtolNumeral | truncateb.c:284 | a decimal numeral followed by a non-digit converts to its value (or LONG_MAX with ERANGE) and ends right after its digits |
| SizeParser.ScaleSpec | truncateb.c:261-275 | without overflow the value is exactly x * base^power; the overflow flag is raised exactly when some intermediate product left `long`, so once raised it stays raised |
| SizeParser.ScaleByPower | truncateb.c:261-275 | the loop, including its dead store, computes ScaleSpec: the value is in range and equals x * base^power when no overflow was flagged |
| SizeParser.ScaleOverflowIff | truncateb.c:264-272 | for base >= 1 the scaling overflows exactly when the final product x * base^power is outside `long` |
| SizeParser.LargeValueOverflows | truncateb.c:267-270 | a value above LONG_MAX/1000 with any unit is reported as overflow rather than wrapped |
| SizeParser.XStrtol | truncateb.c:278-390 | LONGINT_INVALID exactly when no digits were read and the first character is no unit letter; a value without overflow is negative only after a '-' |
| SizeParser.XDecToIMax | truncateb.c:392-435 | a value is returned exactly when the scan is LONGINT_OK, and it is the scanned value; every other outcome is the "Invalid number" error |
| SizeParser.SuffixScaling | truncateb.c:284-378 | after white space and an optional sign, a numeral with a unit letter, bare or with "iB", scales by 1024^p, and with "B" or "D" by 1000^p, where p is k/K=1, m/M=2, g/G=3, t/T=4, P=5, E=6, Z=7, Y=8, and the sign scales with the number; when the product fits a `long` it is the value, otherwise overflow is reported; `xdectoimax_custom` accepts exactly when the product fits |
| SizeParser.PlainNumeral | truncateb.c:284-310 | space, an optional sign and a decimal numeral scan to the signed value when it fits a `long`, else to LONG_MAX or LONG_MIN with overflow; `xdectoimax_custom` returns the value exactly when it fits and "Invalid number" otherwise |
| SizeParser.DigitlessSuffix | truncateb.c:286-378 | a unit without digits stands for magnitude 1, so "K" is 1024 and "MB" is 1000000; a unit that does not fit a `long` ("Z", "Y", "ZB", "YB") is an overflow, and `xdectoimax_custom` accepts exactly the units that fit |
| SizeParser.DigitlessInvalid | truncateb.c:284-297 | a token with no digit after its white space and sign, whose first character is no unit letter, is LONGINT_INVALID: "x", "+", "-K" |
| SizeParser.LoneIRejected | truncateb.c:284-385 | with or without a sign, an 'i' after a unit letter without a following 'B' is left unconsumed and gives an invalid suffix, so the number is refused: "5Ki", "-5Ki" (for "Ki" without digits see DigitlessTrailingRejected) |
| SizeParser.TrailingCharRejected | truncateb.c:284-316 | with or without a sign, a non-unit character after the digits is an invalid suffix and the number is refused |
| SizeParser.TrailingAfterUnitRejected | truncateb.c:284-385 | with or without a sign, any character left after a complete "B", "D" or "iB" unit is an invalid suffix and the number is refused: "5KBx", "+5KBx" (for "KBx" and "Kx" without digits see DigitlessTrailingRejected) |
| SizeParser.DigitlessTrailingRejected | truncateb.c:284-385 | a unit letter without digits stands for 1, and any character the unit does not consume after it is an invalid suffix, so the number is refused: "Kx", "Ki", "KBx", "KiBx" |
| SizeParser.SignedScalingExample | truncateb.c:284-378 | "-5K" is -5120 |
| SizeParser.BareUnitOverflows | truncateb.c:286-378 | "Z" alone overflows and is refused |
| SizeParser.SignOnlyRefused | truncateb.c:286-297 | `-s +` is refused as an invalid number |
| SizeParser.ScalingExamples | truncateb.c:309-378 | "10K" is 10240 and "10KB" is 10000 |
| SizeParser.Modifier | truncateb.c:502-523 | exactly '<', '>', '/' and '%' are modifier characters, and none selects Absolute or Relative |
| SizeParser.Prefix | truncateb.c:496-529 | the number starts at a non-space character; it starts after the first non-space character exactly when that is a modifier; everything before it is space or that modifier; the mode is the one the modifier selects, or the earlier mode |
| SizeParser.SizeOptionPrefixed | truncateb.c:495-552 | for space, a modifier, space and a token: a sign at the token's start is "multiple relative modifiers"; otherwise the result is the modifier's mode with the token's `xdectoimax_custom` value, its error, or division by zero for a rounding mode with size 0 |
| SizeParser.SizeOptionUnprefixed | truncateb.c:495-552 | for space and a token without modifier: a sign after an earlier mode is "multiple relative modifiers"; a sign otherwise selects Relative; no sign keeps the earlier mode; the size is the token's `xdectoimax_custom` value, or its error, or division by zero for a rounding mode with size 0 |
| SizeParser.AtMostExample | truncateb.c:495-552 | "<500" gives AtMost with size 500 |
| SizeParser.AtLeastExample | truncateb.c:495-552 | ">500" gives AtLeast with size 500 |
| SizeParser.RoundUpExample | truncateb.c:495-552 | "%512" gives RoundUp with size 512 |
| SizeParser.AbsoluteExample | truncateb.c:495-552 | "100" gives Absolute with size 100 |
| SizeParser.RelativeExample | truncateb.c:495-552 | "-5" gives Relative with size -5 |
| SizeParser.MultipleModifiersExample | truncateb.c:531-538 | "+5" after an earlier "<" is "multiple relative modifiers" |
| SizeParser.DivisionByZeroExample | truncateb.c:546-549 | "/0" is "division by zero" |
| SizeParser.SizeOption | truncateb.c:495-552 | the size fits a `long`; a negative size only comes with Relative and no earlier mode; a rounding mode never gets size 0 |
| SizeParser.PrefixSelectsMode | truncateb.c:502-538 | '<', '>', '/', '%' select AtMost, AtLeast, RoundDown, RoundUp; a sign after them is "multiple relative modifiers" |
| SizeParser.SignSelectsRelative | truncateb.c:531-543 | a leading sign with no earlier mode selects Relative, and the size is the signed number |
| ResizeCalc.Clamp | truncateb.c:189-192 | a negative size becomes 0, any other stays: the result is max(0, n) |
| ResizeCalc.BaseSize | truncateb.c:129-154 | the base is the reference size when there is one, else the current size; it fails exactly when both are negative |
| ResizeCalc.BlockScaled | truncateb.c:115-124 | block mode multiplies by the block size and fails exactly when the product leaves `off_t`; a positive size stays positive |
| ResizeCalc.Adjust | truncateb.c:156-182 | the adjusted size fits `long`; only Relative and RoundUp can fail, and only with "overflow extending size" |
| ResizeCalc.Resolve | truncateb.c:126-192 | the target is between 0 and LONG_MAX; the base is computed exactly when the mode is relative or padding is requested; an absolute target is the clamped, block-scaled size; a block overflow is reported |
| ResizeCalc.ResolveAsWritten | truncateb.c:126-192 | the code as written leaves the target undefined exactly for an absolute size with padding whose block scaling and base size succeed, and agrees with Resolve wherever it defines one |
| ResizeCalc.AbsolutePaddingUnassigned | truncateb.c:126-187 | `-s 100 -C ..` on an empty file has no defined target as written, where the repaired computation gives 100 |
| ResizeCalc.AbsoluteRule | truncateb.c:184-192 | an absolute size gives that size clamped at 0, with or without padding |
| ResizeCalc.BlockModeRule | truncateb.c:115-124 | block mode is the same computation on ssize * blksize, or the block overflow error |
| ResizeCalc.AtLeastRule | truncateb.c:156-159 | '>' gives max(base, s) |
| ResizeCalc.AtMostRule | truncateb.c:160-163 | '<' gives min(base, s) clamped at 0 |
| ResizeCalc.AtLeastAtMostMonotone | truncateb.c:156-163 | a larger base never lowers either result; AtLeast is at least s; AtMost is at most a non-negative s |
| ResizeCalc.FloorMultipleIsFloor | truncateb.c:164-168 | the floor multiple is a multiple of s, at most b, and more than b - s |
| ResizeCalc.CeilMultipleIsCeil | truncateb.c:171-177 | the ceiling multiple is a multiple of s, at least b, less than b + s, and b itself when b is aligned |
| ResizeCalc.ResolveRelative | truncateb.c:126-192 | a relative mode without block mode adjusts the base size and clamps |
| ResizeCalc.AdjustRoundDown | truncateb.c:164-168 | `fsize - fsize % ssize` is the floor multiple of a non-negative base |
| ResizeCalc.RoundDownRule | truncateb.c:164-168 | '/' gives the largest multiple of s not above the base |
| ResizeCalc.AdjustRoundUp | truncateb.c:169-182 | the round-up addition gives the ceiling multiple, or "overflow extending size" when that exceeds LONG_MAX |
| ResizeCalc.RoundUpRule | truncateb.c:169-182 | '%' gives the smallest multiple of s not below the base, or the overflow error |
| ResizeCalc.RoundingAligned | truncateb.c:164-177 | rounding an aligned base in either direction leaves it unchanged |
| ResizeCalc.RoundingIdempotent | truncateb.c:164-182 | rounding again from a rounded result gives that result back |
| ResizeCalc.RelativeRule | truncateb.c:169-182 | '+'/'-' gives base + s, clamped at 0, or the overflow error when the sum exceeds LONG_MAX |
| ResizeCalc.RelativeRoundTrip | truncateb.c:169-192 | extending by d and then reducing by d from the result returns the original base |
| ResizeCalc.Examples | truncateb.c:109-192 | "<500" on 1000 bytes gives 500, "%512" on 1000 gives 1024, two 4096-byte blocks give 8192, "100" on an empty file gives 100 |
| ResizeEngine.Resized | truncateb.c:194 | `ftruncate` to n: n bytes, the old bytes below the old end, zero bytes above it |
| ResizeEngine.Overwrite | truncateb.c:232 | a write leaves the file no shorter and reaches at least past the written bytes; writing nothing changes nothing |
| ResizeEngine.OverwriteAt | truncateb.c:232 | after a write each byte is the written byte inside the written range, the old byte elsewhere, and zero in a gap |
| ResizeEngine.OverwriteCompose | truncateb.c:229-232 | two writes back to back equal one write of both byte strings |
| ResizeEngine.Reply | truncateb.c:232 | `write` returns -1 or at most the bytes requested; a device with no scripted answer takes all of them |
| ResizeEngine.OpenFile.SetLength | truncateb.c:194-199 | the contents become Resized(old, n) when `ftruncate` succeeds and stay unchanged otherwise; offset and device untouched |
| ResizeEngine.OpenFile.Seek | truncateb.c:206-207 | `lseek` to fsize returns fsize and moves the offset there, changing nothing else |
| ResizeEngine.OpenFile.Write | truncateb.c:232 | the device's answer is returned; the accepted prefix of the buffer is written at the offset; the offset advances by it |
| ResizeEngine.WritePad | truncateb.c:227-245 | the loop succeeds exactly as PadTrace says; the bytes the device took are pad bytes written contiguously from the start offset |
| ResizeEngine.PadWrite | truncateb.c:231-244 | one turn keeps the loop invariant after a complete write, and after a short or failed write leaves the final state of the run |
| ResizeEngine.PadTrace | truncateb.c:229-245 | the bytes written never exceed the count, and the run succeeds exactly when it wrote all of them |
| ResizeEngine.PadChunks | truncateb.c:229-231 | no write is requested when nothing is to be padded; every chunk but the last is a whole block; the last is 1 to blksize bytes |
| ResizeEngine.PadRequestedTotal | truncateb.c:229-231 | the requested chunks never exceed the count and add up to it on success |
| ResizeEngine.PadStopsAtShortWrite | truncateb.c:232-244 | every write before the last was complete, and the run succeeds exactly when all writes were complete |
| ResizeEngine.PadCompleteWhenDeviceAccepts | truncateb.c:229-245 | a device that accepts every write lets the loop succeed |
| ResizeEngine.PaddedResult | truncateb.c:201-247 | padding an n-byte file from b to its end leaves the first b bytes followed by n - b pad bytes |
| ResizeEngine.PadOutcome | truncateb.c:201-247 | no write when the new length does not exceed the base; a successful run leaves the first b bytes then n - b pad bytes |
| ResizeEngine.PadExample | truncateb.c:201-247 | padding an empty file to 100 bytes with 0x41 gives 100 bytes of 0x41 |
| ResizeEngine.DoFtruncate | truncateb.c:102-250 | a failed computation or `ftruncate` fails and leaves the contents, offset and device answers alone; without padding the file is Resized to the target and offset and device answers are untouched; with padding it is resized and then filled from the base as PadTrace says, and the result is that trace's success |
| ResizeEngine.ResizeAndPad | truncateb.c:194-247 | once the target is known: a failed `ftruncate` leaves the file alone; without padding the file is Resized and offset and device answers stay; with padding it is Resized and then filled from the base as PadTrace says |
| ResizeEngine.PadFrom | truncateb.c:206-245 | seeking to the base size and running the pad loop leaves the contents filled from the base with the bytes PadTrace says were written, the offset after them, and the device answers PadTrace leaves |
| ResizeEngine.FstatCalled | truncateb.c:109 | `fstat` is called in block mode and for a relative size without a reference size, and is skipped for an absolute size or when a reference size is given without block mode |
| ResizeEngine.StatRead | truncateb.c:117-229 | `sb` is read whenever padding is requested; without padding it is read exactly when `fstat` was called |
| ResizeEngine.FstatNeeded | truncateb.c:109-229 | the repaired condition holds whenever `fstat` is called as written and whenever padding is requested, and without padding it is the written condition |
| ResizeEngine.StatReadWithoutFstat | truncateb.c:109-229 | padding with a reference size, or padding to an absolute size, reads `sb` although `fstat` was skipped |
| ResizeEngine.FstatNeededCoversReads | truncateb.c:109-229 | a definitional check: once `FstatNeeded` and `StatRead` are unfolded, the repaired condition calls `fstat` exactly when `sb` is read |
| Truncate.CharCodeAsWritten | truncateb.c:481-493 | as written, a fully consumed argument is refused; otherwise the `strtol` value converted to `int` is the code when it lies in 0..255, and is refused with that converted value otherwise |
| Truncate.CharCodeCheckInverted | truncateb.c:482-487 | as written "65" is refused and "65x" is taken as 65 |
| Truncate.CharCodeWithoutDigits | truncateb.c:482-487 | as written "x" is taken as 0 |
| Truncate.CharCode | truncateb.c:481-493 | repaired: a code is accepted exactly when the whole non-empty argument is a number in 0..255, and it is that number |
| Truncate.CharCodeNumeral | truncateb.c:482-492 | a decimal numeral not starting with 0 is accepted exactly when its value is at most 255 |
| Truncate.Apply | truncateb.c:467-552 | an option keeps the option state coherent; `-c`, `-o` and `-r` set only the no-create, block-mode and reference flags and never fail; `-C` succeeds exactly when CharCode accepts its argument, sets only the pad byte to that code, and otherwise fails with CharCode's error; `-s` succeeds exactly when SizeOption accepts its argument, sets the size flag, the mode and the size to SizeOption's result, and otherwise fails with its error |
| Truncate.Parsed | truncateb.c:465-566 | options read in order leave a coherent state: no mode without a size, a size in range, a negative size only for Relative, a positive rounding size |
| Truncate.ReadOptions | truncateb.c:465-566 | the option loop yields Parsed of the options, stopping at the first refused one |
| Truncate.ParsedStopsAtError | truncateb.c:465-566 | once an option is refused, the later options do not matter |
| Truncate.LastSizeWins | truncateb.c:495-552 | a later `-s` replaces the size and mode, with the earlier mode as its default |
| Truncate.Validate | truncateb.c:571-597 | no error exactly when a size or reference is given, a reference with a size has a relative mode, `-o` has a size, and a file is named; each of the four errors comes exactly when its own condition holds and no earlier check failed, in the source's order |
| Truncate.Plan | truncateb.c:571-642 | a job exists exactly when parsing and validation succeed; without `-s` the reference size is the absolute size; with `-s` and `-r` the reference size is the base `rsize` and the mode is relative; otherwise `rsize` is -1 |
| Truncate.ReferenceOnly | truncateb.c:599-642 | `-r FILE f` computes the job of an absolute size equal to FILE's size, with no base `rsize`, no padding, no block mode and file creation allowed |
| Truncate.BlocksNeedSize | truncateb.c:585-590 | `-o -r FILE` is refused because no size was given |
| Truncate.ExitStatus | truncateb.c:647-673 | the status is 1 exactly when some file's outcome is an error, where a missing file under `-c` is no error; 0 otherwise |

## Left out

- The system calls `fstat`, `stat`, `open`, `close`, `malloc` and `free` are not modelled, nor `usable_st_size`. The current size, block size and reference size are inputs. The failure branches at lines 109-113, 147-153, 206-219 and 221-226 are not modelled: `fstat`, `lseek` and `malloc` always succeed here.
- `lseek(fd, 0, SEEK_END)` at line 147 is not modelled separately. The current size is the file's length.
- ResizeCalc.BaseSize: a negative current size gives `SizeUnavailable`, the error of line 138. A failed `lseek` at line 148 would give the same error; the two messages are not told apart.
- The reference-file acquisition at lines 599-642 is not modelled: its `stat`, `open`, `lseek` and their errors. Its result is the `refSize` input of `Truncate.Plan`.
- `getopt_long` itself, `-h`, `-v`, `usage`, `error` and the locale setup are not modelled; they are output and plumbing. Options arrive as a sequence of `Opt` values. A `-C` that fails line 488 with a code outside 0..255 is modelled. `-h` and `-v` exit at once and are not modelled.
- The `OFF_T_MIN`/`OFF_T_MAX` check and the choice of `errno` at lines 401-422 are left out. On LP64 `off_t` is `long`, so the check never fires, and `errno` only selects message text.
- `isspace` is the "C" locale's; other locales are not modelled.
- The per-file loop across `open`, `do_ftruncate` and `close` is not modelled as I/O. `Truncate.ExitStatus` takes each file's outcome as an abstract `FileOutcome`.
- ResizeEngine.WritePad: the byte counts of the individual `write` calls are not recorded by `OpenFile`. They are stated on `PadTrace`, which the method's contract ties to the run.
- ResizeEngine.OpenFile.Write: what a real device writes is not modelled. The answers are a sequence fixed in advance. A negative answer is a failed write and a smaller one a short write.
- ResizeEngine.DoFtruncate: it uses the repaired target computation `Resolve`, not `ResolveAsWritten`, so an absolute size with padding gets the absolute size as its target. It takes the block size and the current size as inputs, as if `fstat` had been called whenever `sb` is read.
- Truncate.Apply: `-C` uses the repaired check `CharCode`, not the inverted check of lines 482-487, which `CharCodeAsWritten` models. `CharCode` also compares the `long` that `strtol` returns with 0..255 directly, without the conversion to `int` at line 482 that `CharCodeAsWritten` keeps as `Wrap32`. So "4294967361" (2^32 + 65) is refused, where repairing only the end check would pad with 65. `CharCode` also refuses the empty argument `-C ''`, which repairing only the end check would take as 0, since `strtol` then leaves `endp` at the terminating NUL.
- CStrings.Strtol: its value is stated by `StrtolSigned`, `StrtolHex` and `StrtolOctal` for the bases 0 and 10 the program uses; other bases are not used by the program and their values are not stated.
- tests/test_wrapper.py is not part of this model. It is a process runner with a checksum comparison and has no logic of the program.
- SizeParser.ScaleSpec does not model the saturated value stored at line 269. That value is overwritten at line 272 and can never be observed.

## Findings

| source | as written | input that shows it | evidently intended | confidence | as-written member | corrected member |
|---|---|---|---|---|---|---|
| truncateb.c:482-487 | `-C` is refused when `strtol` consumed the whole argument and accepted when characters follow the number | `-C 65` is refused; `-C 65x` pads with 65; `-C x` pads with 0 | accept exactly a whole-argument number in 0..255 | not executed | Truncate.CharCodeAsWritten, Truncate.CharCodeCheckInverted, Truncate.CharCodeWithoutDigits | Truncate.CharCode, Truncate.CharCodeNumeral |
| truncateb.c:126-187 | with an absolute size and `-C`, the branch at line 126 is taken but no case assigns `nsize` | `truncate -s 100 -C 65x f` on an empty f (`-C 65` is refused, see the row above) | the target is the absolute size, as at line 186 | not executed | ResizeCalc.ResolveAsWritten, ResizeCalc.AbsolutePaddingUnassigned | ResizeCalc.Resolve, ResizeCalc.AbsoluteRule |
| truncateb.c:109-229 | `fstat` is called only in block mode or for a relative size without reference, yet `sb` is read whenever padding is requested (lines 135, 221, 227, 229) | `-r REF -s +0 -C 65x f`, or `-s 100 -C 65x f` (`-C 65` is refused, see the first row) | call `fstat` also whenever a pad byte is given | not executed | ResizeEngine.StatRead, ResizeEngine.FstatCalled, ResizeEngine.StatReadWithoutFstat | ResizeEngine.FstatNeeded, ResizeEngine.FstatNeededCoversReads |
