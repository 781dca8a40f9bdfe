# fix44-forge-helpers, modelled in Dafny

This project models the core of `fix44-forge-helpers`, a Rust library of
hot-path helpers for building and reading FIX 4.4 `tag=value` messages:

- **Writers** (`src/writing.rs`) put `tag=` + value + SOH into a
  caller-owned byte buffer and return the number of bytes written. Integers
  are written as decimal text two digits at a time from a 200-byte digit-pair
  table (`src/lib.rs`). Signed minimum values get a literal magnitude. The
  float writers produce fixed-point text with trailing zeros trimmed.
- **Readers** (`src/reading.rs`) parse the longest leading run of ASCII
  digits of a field value and stop at the first other byte. They wrap on
  overflow, and the signed readers apply a leading `-`.
- **Buffer** (`src/buffer.rs`): the header `8=<version><SOH>9=0000<SOH>35=` is
  laid down once, and the four-digit BodyLength placeholder is patched in
  place after the body is written.
- **Special fields** (`src/special.rs`):
  - the `YYYYMMDD-HH:MM:SS.mmm` SendingTime writer, with its days-to-civil
    date conversion and its one-entry date cache;
  - unique ClOrdIDs: a 32-bit process tag above a 32-bit counter, written as
    13 base-36 characters.

  The timestamp writer and its cache are modelled with the year the code
  computes, which is two years early for January and February (see
  "## Findings"). `Calendar` holds both that conversion and the corrected
  one.
- **Errors** (`src/errors.rs`): rendering of `ReadError`, and the list of
  missing member names selected by a 64-bit mask.

Buffers are `array<u8>`, and every writer is a `method` that modifies it.
Each writer's postcondition gives the whole new buffer as
`Splice(old(buf[..]), offset, <text>)`. `Splice` (module `Ascii`) replaces a
window and keeps every other byte. The text is a function of the inputs
(`Decimal`, `SignedDecimal`, `Padded`, `Field`, `TimestampText`,
`Base36Text`, …), and lemmas tie each text back to its value (the readers,
`DecimalValue`, `Base36Value`).

The two pieces of state the source keeps in statics are classes:

- the process tag and ID counter: `Special.IdGenerator`;
- the cached day and packed date: `Timestamp.DateCache`.

Modules and files:

| file | module | source |
|---|---|---|
| `ascii.dfy` | `Ascii` | integer widths, digit texts, `Splice` |
| `digit_pairs.dfy` | `DigitPairs` | `src/lib.rs` |
| `writing.dfy` | `Writing` | `src/writing.rs` |
| `reading.dfy` | `Reading` | `src/reading.rs` |
| `buffer.dfy` | `Buffer` | `src/buffer.rs` |
| `calendar.dfy` | `Calendar` | days-to-civil conversion in `src/special.rs` |
| `special.dfy` | `Special` | base-36 and ClOrdID parts of `src/special.rs` |
| `timestamp.dfy` | `Timestamp` | timestamp writer and date cache in `src/special.rs` |
| `errors.dfy` | `Errors` | `src/errors.rs` |

## Model

| member | source | states |
|---|---|---|
| Ascii.Decimal | src/writing.rs:195-223 | The text an unsigned writer produces is non-empty, all ASCII digits, and has no leading zero unless it is the single digit of a value below ten. |
| Ascii.DecimalRoundTrip | src/writing.rs:195-223 | The value of the written digits is the number written. |
| Ascii.DecimalOfValue | src/writing.rs:195-223 | Every canonical digit string (no leading zero) is the text of its own value, so the text is unique. |
| Ascii.DecimalLength | src/writing.rs:85-97 | The text of n has d digits exactly when 10^(d-1) <= n < 10^d, which are the thresholds the digit-count helpers test. |
| Ascii.SignedDecimal | src/writing.rs:334-351 | A signed text starts with '-' exactly for negative values; it is '-' and the magnitude's digits, and the plain digits otherwise. |
| Ascii.TwosComplement | src/reading.rs:211-226 | The `as iN` cast: the result lies in [-m/2, m/2), is congruent to the input modulo m, and is the input itself when that is already in range. |
| Ascii.UnsignedAsSigned | src/reading.rs:224 | Casting an unsigned value below m to the signed type of the same width keeps values below m/2 and subtracts m from the rest. |
| Ascii.PaddedValue | src/buffer.rs:129-141 | A zero-padded w-digit field holds the value modulo 10^w. |
| Ascii.PaddedIsDecimal | src/special.rs:120-203 | A value below 10^w padded to w digits is zeros followed by its ordinary text. |
| Ascii.SpliceIdempotent | src/buffer.rs:134-142 | Storing the same bytes twice at one place is storing them once. |
| DigitPairs.PairAt | src/lib.rs:67-77 | Bytes 2k and 2k+1 of the table are the two digits of k, for every k < 100, and their value is k. |
| DigitPairs.TableDigits | src/lib.rs:67-77 | The table has 200 entries and all of them are ASCII digits. |
| DigitPairs.PutPair | src/writing.rs:202-206 | Copying pair k from the table stores Padded(k, 2) at i and nothing else. |
| Writing.DigitsU16 | src/writing.rs:85-97 | The digit count is the length of the decimal text, bounded by 5. |
| Writing.DigitsU32 | src/writing.rs:101-123 | The digit count is the length of the decimal text, bounded by 10. |
| Writing.DigitsU64 | src/writing.rs:127-169 | The digit count is the length of the decimal text, bounded by 20. |
| Writing.DigitsU128 | src/writing.rs:173-179 | The table-driven loop returns the length of the decimal text, bounded by 39. |
| Writing.WriteDigits | src/writing.rs:196-221 | The fill from the right, two digits per step and one or two leading digits, stores exactly the decimal text of n at pos. |
| Writing.WriteU16 | src/writing.rs:195-223 | Stores the decimal text of n at pos, changes nothing else, and returns its length. |
| Writing.WriteU32 | src/writing.rs:230-258 | Stores the decimal text of n at pos, changes nothing else, and returns its length. |
| Writing.WriteU64 | src/writing.rs:265-293 | Stores the decimal text of n at pos, changes nothing else, and returns its length. |
| Writing.WriteU128 | src/writing.rs:300-328 | Stores the decimal text of n at pos, changes nothing else, and returns its length. |
| Writing.MinDigitsI16 | src/writing.rs:337-344 | The literal "32768" is the decimal text of 2^15. |
| Writing.MinDigitsI32 | src/writing.rs:355-371 | The literal magnitude of i32::MIN is the decimal text of 2^31. |
| Writing.MinDigitsI64 | src/writing.rs:375-391 | The literal magnitude of i64::MIN is the decimal text of 2^63. |
| Writing.WriteI16 | src/writing.rs:334-351 | All three branches, MIN included, store SignedDecimal(n) at offset and return its length. |
| Writing.WriteI32 | src/writing.rs:355-371 | All three branches, MIN included, store SignedDecimal(n) at offset and return its length. |
| Writing.WriteI64 | src/writing.rs:375-391 | All three branches, MIN included, store SignedDecimal(n) at offset and return its length. |
| Writing.WriteFrac6 | src/writing.rs:395-411 | Stores exactly six digits, the value zero-padded to width 6, and returns 6. |
| Writing.WriteFrac15 | src/writing.rs:415-451 | Stores exactly fifteen digits, the value zero-padded to width 15 (its value modulo 10^15, since the top digit is taken modulo 10), and returns 15. |
| Writing.TrimZeros | src/writing.rs:490-497 | The trimmed fraction is the longest prefix that does not end in '0'; every byte cut off is '0'. |
| Writing.TrimTrailingZeros | src/writing.rs:491-497 | The backward scan stops where TrimZeros of the written window ends. |
| Writing.TrimmedFractionValue | src/writing.rs:481-498 | A non-zero fraction keeps at least one digit after trimming, its last digit is not '0', and its value times the cut power of ten is the fraction. |
| Writing.FixedTextIsPrefix | src/writing.rs:463-501 | The reported text (sign, integer digits, '.' and trimmed fraction only when the fraction is non-zero) is a prefix of the bytes stored. |
| Writing.WriteScaled6 | src/writing.rs:464-500 | From the scaled integer: stores sign, integer part, and '.' plus the six padded fraction digits when the fraction is non-zero. Returns the length of the trimmed text. |
| Writing.WriteScaled15 | src/writing.rs:514-556 | The same for the 10^15 scale, with the u64/u128 choice of integer writer. |
| Writing.Field | src/writing.rs:593-619 | A field is tag, value and SOH, one byte longer than its tag and value. |
| Writing.FieldSplits | src/writing.rs:593-619 | When neither tag nor value holds SOH, the field's only SOH is its last byte, and splitting there gives back tag and value. |
| Writing.WriteTagAndBool | src/writing.rs:569-589 | Stores tag, 'Y' or 'N', SOH and returns tag length + 2. |
| Writing.WriteTagAndBytes | src/writing.rs:593-619 | Stores Field(tag, value) at offset and returns its length. |
| Writing.WriteTagAndStr | src/writing.rs:623-625 | The string writer stores the field of the string's bytes. |
| Writing.WriteTagAndU16 | src/writing.rs:629-643 | Stores Field(tag, Decimal(value)) and returns its length. |
| Writing.WriteTagAndU32 | src/writing.rs:647-661 | Stores Field(tag, Decimal(value)) and returns its length. |
| Writing.WriteTagAndU64 | src/writing.rs:665-679 | Stores Field(tag, Decimal(value)) and returns its length. |
| Writing.WriteTagAndI16 | src/writing.rs:683-697 | Stores Field(tag, SignedDecimal(value)) and returns its length. |
| Writing.WriteTagAndI32 | src/writing.rs:701-715 | Stores Field(tag, SignedDecimal(value)) and returns its length. |
| Writing.WriteTagAndI64 | src/writing.rs:719-733 | Stores Field(tag, SignedDecimal(value)) and returns its length. |
| Reading.DigitByteIsDigitValue | src/reading.rs:69-71 | A byte is a digit exactly when it is '0' plus a value below ten. |
| Reading.DigitRunIsLongestPrefix | src/reading.rs:125-132 | The run the loop consumes is a prefix of the input, and the byte after it, if any, is not a digit. |
| Reading.ReadBool | src/reading.rs:85-87 | True exactly for the one-byte input "Y". |
| Reading.BoolRoundTrip | src/reading.rs:85-87 | The text the boolean writer produces reads back as the same boolean. |
| Reading.ReadUnsigned | src/reading.rs:118-134 | The accumulate-and-break loop returns ParseUnsigned: the value of the leading digit run, modulo m. |
| Reading.ReadU16 | src/reading.rs:118-134 | Returns the leading digit run's value modulo 2^16. |
| Reading.ReadU32 | src/reading.rs:149-165 | Returns the leading digit run's value modulo 2^32. |
| Reading.ReadU64 | src/reading.rs:180-196 | Returns the leading digit run's value modulo 2^64. |
| Reading.ParseNoDigits | src/reading.rs:120-129 | Input that is empty or starts with a non-digit reads as 0. |
| Reading.ParsePrefixStable | src/reading.rs:127-129 | Bytes after the first non-digit never change the result. |
| Reading.ParseStopsAtNonDigit | src/reading.rs:451-458 | "123abc" reads as 123. |
| Reading.UnsignedRoundTrip | src/reading.rs:118-196 | The text a writer produces for n < m, alone or followed by a non-digit, reads back as n. |
| Reading.FieldRoundTrip | src/writing.rs:629-679 | The value part of a written unsigned field, SOH included, reads back as the value. |
| Reading.ReadI16 | src/reading.rs:211-226 | Returns 0 for empty input. After '-' it returns the negated magnitude cast to i16 (MIN included); otherwise the unsigned result cast to i16. |
| Reading.ReadI32 | src/reading.rs:241-255 | The same as ReadI16, at 32 bits. |
| Reading.ReadI64 | src/reading.rs:270-285 | The same as ReadI16, at 64 bits. |
| Reading.NegateWrapped | src/reading.rs:215-222 | Negating after the wrapping cast is casting the negation, except at the minimum. |
| Reading.ParseMinusAlone | src/reading.rs:215-222 | A lone "-" reads as 0. |
| Reading.ParseSignedNoMinus | src/reading.rs:223-225 | Without a leading '-', the signed result is the unsigned result, less m when it is m/2 or more. |
| Reading.SignedRoundTrip | src/reading.rs:211-285 | The text a signed writer produces for any n in range, followed by nothing or a non-digit, reads back as n. |
| Reading.SignedMinRoundTrip | src/reading.rs:217-219 | i16::MIN, i32::MIN and i64::MIN read back as themselves. |
| Buffer.HeaderText | src/buffer.rs:64-91 | The header is "8=", the version, then SOH "9=0000" SOH "35=". |
| Buffer.ForgeOutBuffer | src/buffer.rs:61-94 | A fresh 1024-byte buffer that starts with the header and is zero after it. |
| Buffer.ForgeWriteStart | src/buffer.rs:158-160 | For a seven-byte version the write start is the header's length. |
| Buffer.HeaderLayout | src/buffer.rs:12-26 | For "FIX.4.x" the header is 20 bytes, equal to FORGE_HEADER_LEN and FORGE_WRITE_START. The placeholder "0000" sits at BODY_LENGTH_VALUE_POS = 12, and 17 bytes precede the BodyLength-counted part. |
| Buffer.BodyLength | src/buffer.rs:126 | For message lengths from 17 to 17 + 2^16 - 1, the BodyLength is the message length minus the 17 header bytes it does not count. |
| Buffer.UpdateBodyLength | src/buffer.rs:121-143 | Stores the four digits (thousands, hundreds, tens, units) of the body length at 12..16 and nothing else. |
| Buffer.UpdateTouchesOnlyPlaceholder | src/buffer.rs:134-142 | Every byte outside 12..16 is unchanged, and the four stored digits hold the body length modulo 10000. |
| Buffer.BodyLengthReadBack | src/buffer.rs:269-295 | For message lengths 17..10016, reading the patched digits gives back length - 17. |
| Buffer.UpdateIdempotent | src/buffer.rs:121-143 | Patching twice with the same length is patching once. |
| Buffer.ExampleMessage | src/buffer.rs:213-239 | A 29-byte message "8=FIX.4.4|9=0000|35=D|34=123|" is patched to BodyLength 0012. |
| Calendar.CivilFromDaysNext | src/special.rs:92-103 | With the month-dependent year adjustment corrected, consecutive day numbers give consecutive valid Gregorian dates, across month, year, leap-day and 400-year era boundaries. |
| Calendar.CivilFromDaysValid | src/special.rs:92-103 | Every day number converts to a valid date: month 1..12 and day within that month of that year. |
| Calendar.CivilFromDaysEpoch | src/special.rs:92-103 | Day 0 is 1970-01-01. |
| Calendar.AsWrittenEpochIs1968 | src/special.rs:101 | The conversion as written maps day 0 to 1968-01-01, not 1970-01-01. |
| Calendar.AsWrittenMisdatesJanuaryAndFebruary | src/special.rs:101 | The conversion as written gives the correct date for March..December and a year two too small for January and February. |
| Calendar.YearOfEraUnique | src/special.rs:95 | The year-of-era formula picks the unique year whose day range holds the day of era. |
| Calendar.MonthIndexUnique | src/special.rs:98 | The month formula picks the unique March-based month whose day range holds the day of year. |
| Calendar.MonthLength | src/special.rs:98-100 | The March-based month starts are apart by the length of each civil month. |
| Calendar.YearLengthIsLeap | src/special.rs:95-97 | Each year of an era has 366 days exactly when the Gregorian year holding its February is a leap year. |
| Special.Digit36 | src/special.rs:261-268 | The character is a base-36 digit of value rem, and it is an ASCII decimal digit exactly when rem < 10. |
| Special.Digit36Examples | src/special.rs:364-369 | 0, 9, 10 and 35 map to '0', '9', 'A' and 'Z'. |
| Special.Base36Text | src/special.rs:292-297 | The text of n in w base-36 digits has length w and only base-36 characters. |
| Special.Base36RoundTripMod | src/special.rs:292-297 | The value of the w low base-36 digits of n is n modulo 36^w. |
| Special.Base36RoundTrip | src/special.rs:284-299 | Thirteen digits are enough for every u64, since 36^13 > 2^64, so the text decodes back to n. |
| Special.Base36Examples | src/special.rs:346-361 | 0 encodes as thirteen '0's, and 35 as twelve '0's then 'Z'. |
| Special.EncodeBase36Fixed13 | src/special.rs:284-299 | With at least 13 bytes of room, stores Base36Text(n, 13) at offset and returns 13; otherwise returns 0 and leaves the buffer unchanged. |
| Special.IdOf | src/special.rs:253-257 | An ID's high 32 bits are the process tag and its low 32 bits the counter modulo 2^32. |
| Special.FoldTag | src/special.rs:240-247 | The folded process tag is never 0. |
| Special.RotationIsInvertible | src/special.rs:241-246 | The rotation by 5 is invertible, so only a zero fold becomes 1. |
| Special.CounterAfter | src/special.rs:255 | After k increments, the counter's low 32 bits are start + k modulo 2^32. |
| Special.IdsDistinct | src/special.rs:251-257 | Two IDs drawn fewer than 2^32 increments apart under the same tag differ. |
| Special.IdGenerator.constructor | src/special.rs:19-22 | A fresh generator has counter 0 and no process tag yet (0). |
| Special.IdGenerator.ProcessTag | src/special.rs:223-249 | The tag is non-zero, computed from the seed on first use and fixed afterwards. |
| Special.IdGenerator.NextId | src/special.rs:253-257 | Returns the ID of the current tag and counter, and advances the counter by one. A set tag is kept; an unset one becomes the fold of the mixed seed. |
| Special.WriteTagAndClOrdID | src/special.rs:319-339 | With room, stores the field tag + the 13-character ID + SOH and returns tag length + 14. Without room for the ID, stores tag + SOH and returns tag length + 1. The counter advances either way, a set process tag is kept, and an unset one becomes the fold of the mixed seed. |
| Special.ClOrdIDReadBack | src/special.rs:319-339 | A written ClOrdID field is tag length + 14 bytes, ends in SOH, and its 13 characters decode to the ID. |
| Timestamp.SplitSeconds | src/special.rs:71-78 | Hour < 24, minute < 60, second < 60, and the parts recompose to the input seconds. |
| Timestamp.SplitSecondsUnique | src/special.rs:71-78 | The split is the only one with those bounds. |
| Timestamp.DateOfDay | src/special.rs:92-103 | The date the writer computes, with the year adjustment of line 101 as written, has month 1..12 and day 1..31. |
| Timestamp.DateOfDayMisdatesJanuaryAndFebruary | src/special.rs:92-103 | Against the Gregorian date of the day (for years that fit 16 bits), the writer's month and day are right, and its year is right from March to December and two too small in January and February. |
| Timestamp.Pack | src/special.rs:106 | Packing year << 32, month << 16 and day is undone by the unpacking at lines 86-88. |
| Timestamp.DateCache.constructor | src/special.rs:15-16 | The cache starts empty (day 0, packed date 0) and valid. |
| Timestamp.DateCache.Lookup | src/special.rs:81-111 | On a hit and on a miss it returns the writer's date of the current day (DateOfDay, with the January/February year as written) and caches that day. A hit keeps the cached word; a miss stores Pack(date). The cache stays valid: a non-zero cached day's word unpacks to that day's date. |
| Timestamp.TimestampFormat | src/special.rs:120-205 | The value is 21 bytes: '-' at 8, ':' at 11 and 14, '.' at 17, and ASCII digits elsewhere. |
| Timestamp.TimestampReadBack | src/special.rs:120-205 | For years below 10000 each digit group reads back as its field: year, month, day, hour, minute, second, millisecond. |
| Timestamp.EpochFields | src/special.rs:71-103 | Second 0 is 00:00:00 of day 0, which the writer dates 1968-01-01. |
| Timestamp.EpochText | src/special.rs:71-205 | The value written for second 0 and millisecond 0 is "19680101-00:00:00.000", where 1970-01-01 is meant. |
| Timestamp.WriteTimestampValue | src/special.rs:120-205 | Stores the 21-byte timestamp text and an SOH, and nothing else. |
| Timestamp.WriteTagAndTimestamp | src/special.rs:43-209 | Stores tag + the timestamp of the given seconds and milliseconds + SOH, with the date as the code writes it (DateOfDay: January and February dates two years early). It returns tag length + 22, keeps the cache valid and caches the current day. |
| Errors.MissingMembers | src/errors.rs:51-52 | Every member whose bit is set in the mask is listed, and every listed member has its bit set. |
| Errors.MissingEmpty | src/errors.rs:40-52 | The listing is empty exactly when no bit below |meta| is set. |
| Errors.NonzeroMaskNamesSomeone | src/errors.rs:40-52 | With 64 members, a non-zero mask names at least one. |
| Errors.HexRoundTrip | src/errors.rs:48 | The hex text of the mask in the header reads back as the mask. |
| Errors.DecimalText | src/errors.rs:66-81 | A tag is rendered as its decimal digits. |
| Errors.DescribeAll | src/errors.rs:57-73 | The listing has one description per missing member, in the members' order. |
| Errors.ListingStep | src/errors.rs:51-75 | One step of the loop: a set bit appends the description, preceded by ", " unless it is the first. |
| Errors.Fmt | src/errors.rs:34-85 | The rendering is the no-missing sentence for mask 0, the header with the hex mask followed by the joined listing otherwise, and the invalid-value sentence for the other variant. |
| Errors.FmtListing | src/errors.rs:50-75 | The `first`-flag loop produces the listing joined by ", ". |
| Errors.MissingMemberNames | src/errors.rs:97-112 | None exactly for InvalidValue; otherwise the names of the members whose bits are set, in order (empty for mask 0). |
| Errors.NoMissingSentence | src/errors.rs:40-45 | Mask 0 renders "No required members are missing" whatever the metadata. |
| Errors.MissingRendering | src/errors.rs:46-49 | A non-zero mask renders starting with the header, whose hex text decodes to the mask. |
| Errors.OtherKindsRenderAsGroup | src/errors.rs:57-72 | A kind above 2 is named "group" but keeps the "(tag=" form. |
| Errors.GroupUsesCountTag | src/errors.rs:62-67 | Kind 2 renders "group <name>(countTag=<tag>)". |
| Errors.MaskExample | src/errors.rs:158-193 | Mask 5 over Field1..Field3 names Field1 and Field3. |

## Left out

- Floating point: the float part of `write_f32` and `write_f64` (scaling by 10^6 or 10^15, rounding to nearest even, the `<= 0.0` clamp, NaN and infinity) is not modelled. `Writing.WriteScaled6` and `Writing.WriteScaled15` start from the already scaled integer and its sign. `read_f32` and `read_f64` are not part of this model.
- `read_str` only reinterprets the bytes as `&str` without a UTF-8 check. Strings are byte sequences here, so there is nothing to model.
- I/O, the clock and randomness become parameters. `Timestamp.WriteTagAndTimestamp` takes the seconds and milliseconds that `clock_gettime` would return. `Special.IdGenerator.ProcessTag` takes the 64-bit entropy word built from the PID and addresses; `Special.EntropySeed` only shows how it is built.
- Concurrency: the counter, the process tag's `OnceLock` and the two date-cache atomics are fields of single-threaded objects. The model does not capture Relaxed ordering or a cache update that another thread sees half-done (the two stores are not atomic together).
- `Special.SplitMix64` is a plain function. It has no proved property, such as being a bijection: the 64-bit multiplications it needs are too costly for the solver.
- Overflow checks of debug builds are not modelled; wrapping (release) arithmetic is. `update_body_length` subtracts 17 from the message length; the model wraps that too, where a debug build panics for lengths below 17.
- Reading.ReadU16: line 130 of `src/reading.rs` computes `acc * 10 + d` with plain `u16` arithmetic, which panics on overflow in a debug build, although the doc comment at line 108 promises wrapping; the model wraps. `read_u32` and `read_u64` use `wrapping_mul` and `wrapping_add` and wrap in every build.
- Reading.ParseUnsigned: the specification function reduces modulo m once, at the end, while `Reading.ReadUnsigned` reduces after every step, as the source does. `Reading.ModStep` shows the two agree: reduction modulo m commutes with `* 10 + d`.
- Errors.Fmt: requires at most 64 members. With more, `missing_mask >> i` overflows the shift (a panic in debug, a masked shift in release), which this model does not follow.
- Errors.MissingMemberNames: requires at most 64 members, for the same reason.
- Errors.Fmt: formatter errors (`?` on a failing writer) are not modelled; the result is the whole string.
- Timestamp.WriteTagAndTimestamp: requires seconds in 0..2^63, so times before 1970 (negative `secs`) are not modelled.
- Timestamp.WriteTagAndTimestamp: requires a year below 10000. For larger years the source indexes `DIGIT_PAIRS` out of bounds with unchecked reads.
- Timestamp.WriteTagAndTimestamp: the caller must give 22 bytes of room after the tag, as the source writes without bounds checks.
- Timestamp.Pack: the word Pack builds is the sum of the shifted fields. That equals the source's bitwise OR because the fields do not overlap.
- Special.WriteTagAndClOrdID: requires that the buffer does not end exactly 13 bytes after the tag.
  - In that case `encode_base36_fixed13` succeeds and the SOH store at `offset + tag + 13` is one past the end, through `get_unchecked_mut` (undefined behaviour).
  - The same unchecked store is modelled on its in-bounds paths, including the fallback where the ID does not fit and SOH follows the tag directly.
- Buffer.ForgeOutBuffer: requires the header to fit in the 1024-byte buffer; the source copies the version without a bounds check.
- Buffer.BodyLength: the contract gives the value only in range. Below 17 and at 17 + 2^16 or more, the body wraps modulo 2^16, as a release build does.
- Buffer.ForgeWriteStart: states the header length only for seven-byte versions. The source always returns 20, whatever the version.
- Unchecked buffer bounds: every writer requires its text to fit, because the source writes with `get_unchecked_mut` and raw stores, without bounds checks.
- Benchmarks, `impl Error for ReadError`, the module re-exports and the non-Unix `compile_error!` are not modelled; they carry no behaviour.

## Findings

| source | as written | input that shows it | evidently intended | confidence | as-written member | corrected member |
|---|---|---|---|---|---|---|
| src/special.rs:101 | `let year = (y + if m <= 2 { -1 } else { 0 }) as u16;` | days = 0 (1970-01-01): the March-based year is 1969 and the month is 1, so the year is 1968 and the timestamp for second 0 is "19680101-00:00:00.000" | `y + 1` for January and February (the March-based year ends in February of the next calendar year), giving 1970-01-01 | not executed | Timestamp.EpochText | Calendar.CivilFromDaysNext |
