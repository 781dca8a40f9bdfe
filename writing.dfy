/**
 * The integer and field writers: decimal digit counts, back-to-front digit
 * filling from the digit-pair table, signed values with a literal for each
 * type's minimum, fixed-width fraction digits, and whole TAG=VALUE<SOH> fields.
 *
 * Every writer takes the buffer, an offset and a value, writes its text at the
 * offset and returns the number of bytes it wrote. The source does no bounds
 * checking; here each writer requires the room it writes into.
 */
module Writing {
  import opened Ascii
  import opened DigitPairs

  /** The powers of ten the digit counters compare against. */
  lemma Pow10Facts()
    ensures Pow10(2) == 100
    ensures Pow10(3) == 1000
    ensures Pow10(4) == 10000
    ensures Pow10(5) == 100000
    ensures Pow10(6) == 1000000
    ensures Pow10(7) == 10000000
    ensures Pow10(8) == 100000000
    ensures Pow10(9) == 1000000000
    ensures Pow10(10) == 10000000000
    ensures Pow10(14) == 100000000000000
    ensures Pow10(15) == 1000000000000000
    ensures Pow10(19) == 10000000000000000000
    ensures Pow10(20) == 100000000000000000000
    ensures Pow10(39) == 1000000000000000000000000000000000000000
  {
    assert Pow10(1) == 10;
    assert Pow10(2) == 100;
    assert Pow10(3) == 1000;
    assert Pow10(4) == 10000;
    assert Pow10(5) == 100000;
    assert Pow10(6) == 1000000;
    assert Pow10(7) == 10000000;
    assert Pow10(8) == 100000000;
    assert Pow10(9) == 1000000000;
    assert Pow10(10) == 10000000000;
    assert Pow10(11) == 100000000000;
    assert Pow10(12) == 1000000000000;
    assert Pow10(13) == 10000000000000;
    assert Pow10(14) == 100000000000000;
    assert Pow10(15) == 1000000000000000;
    assert Pow10(16) == 10000000000000000;
    assert Pow10(17) == 100000000000000000;
    assert Pow10(18) == 1000000000000000000;
    assert Pow10(19) == 10000000000000000000;
    assert Pow10(20) == 100000000000000000000;
    assert Pow10(21) == 1000000000000000000000;
    assert Pow10(22) == 10000000000000000000000;
    assert Pow10(23) == 100000000000000000000000;
    assert Pow10(24) == 1000000000000000000000000;
    assert Pow10(25) == 10000000000000000000000000;
    assert Pow10(26) == 100000000000000000000000000;
    assert Pow10(27) == 1000000000000000000000000000;
    assert Pow10(28) == 10000000000000000000000000000;
    assert Pow10(29) == 100000000000000000000000000000;
    assert Pow10(30) == 1000000000000000000000000000000;
    assert Pow10(31) == 10000000000000000000000000000000;
    assert Pow10(32) == 100000000000000000000000000000000;
    assert Pow10(33) == 1000000000000000000000000000000000;
    assert Pow10(34) == 10000000000000000000000000000000000;
    assert Pow10(35) == 100000000000000000000000000000000000;
    assert Pow10(36) == 1000000000000000000000000000000000000;
    assert Pow10(37) == 10000000000000000000000000000000000000;
    assert Pow10(38) == 100000000000000000000000000000000000000;
    assert Pow10(39) == 1000000000000000000000000000000000000000;
  }

  /** The number of decimal digits of n: 1 below 10, else the d with 10^(d-1) <= n < 10^d. */
  function DigitsU16(n: u16): (d: nat)
    ensures 1 <= d <= 5 && n < Pow10(d) && (d == 1 || Pow10(d - 1) <= n)
    ensures d == |Decimal(n)|
  {
    Pow10Facts();
    var d :=
      if n >= 10_000 then 5
      else if n >= 1_000 then 4
      else if n >= 100 then 3
      else if n >= 10 then 2
      else 1;
    DigitCountIsLength(n, d);
    d
  }

  /** The number of decimal digits of n: 1 below 10, else the d with 10^(d-1) <= n < 10^d. */
  function DigitsU32(n: u32): (d: nat)
    ensures 1 <= d <= 10 && n < Pow10(d) && (d == 1 || Pow10(d - 1) <= n)
    ensures d == |Decimal(n)|
  {
    Pow10Facts();
    var d :=
      if n >= 1_000_000_000 then 10
      else if n >= 100_000_000 then 9
      else if n >= 10_000_000 then 8
      else if n >= 1_000_000 then 7
      else if n >= 100_000 then 6
      else if n >= 10_000 then 5
      else if n >= 1_000 then 4
      else if n >= 100 then 3
      else if n >= 10 then 2
      else 1;
    DigitCountIsLength(n, d);
    d
  }

  /** The number of decimal digits of n: 1 below 10, else the d with 10^(d-1) <= n < 10^d. */
  function DigitsU64(n: u64): (d: nat)
    ensures 1 <= d <= 20 && n < Pow10(d) && (d == 1 || Pow10(d - 1) <= n)
    ensures d == |Decimal(n)|
  {
    Pow10Facts();
    var d :=
      if n >= 10_000_000_000_000_000_000 then 20
      else if n >= 1_000_000_000_000_000_000 then 19
      else if n >= 100_000_000_000_000_000 then 18
      else if n >= 10_000_000_000_000_000 then 17
      else if n >= 1_000_000_000_000_000 then 16
      else if n >= 100_000_000_000_000 then 15
      else if n >= 10_000_000_000_000 then 14
      else if n >= 1_000_000_000_000 then 13
      else if n >= 100_000_000_000 then 12
      else if n >= 10_000_000_000 then 11
      else if n >= 1_000_000_000 then 10
      else if n >= 100_000_000 then 9
      else if n >= 10_000_000 then 8
      else if n >= 1_000_000 then 7
      else if n >= 100_000 then 6
      else if n >= 10_000 then 5
      else if n >= 1_000 then 4
      else if n >= 100 then 3
      else if n >= 10 then 2
      else 1;
    DigitCountIsLength(n, d);
    d
  }

  /** 10^0 .. 10^38, the thresholds of the u128 digit count. */
  const POW10_U128: seq<nat> := seq(39, i requires 0 <= i < 39 => Pow10(i))

  /** The u128 digit count: step down from 39 while n is below 10^(d-1). */
  method DigitsU128(n: u128) returns (d: nat)
    ensures 1 <= d <= 39 && n < Pow10(d) && (d == 1 || Pow10(d - 1) <= n)
    ensures d == |Decimal(n)|
  {
    Pow10Facts();
    d := 39;
    while d > 1 && d <= |POW10_U128| && n < POW10_U128[d - 1]
      invariant 1 <= d <= 39 && n < Pow10(d)
    {
      d := d - 1;
    }
    DigitCountIsLength(n, d);
  }

  // ---------------------------------------------------------------------------
  // Unsigned writers
  // ---------------------------------------------------------------------------

  /**
   * The loop every unsigned writer runs once it knows the digit count: fill
   * buf[pos..pos+len] from the end, two digits per step from the pair table,
   * then the last one or two leading digits.
   */
  method WriteDigits(buf: array<u8>, pos: nat, n: nat, len: nat)
    requires len == |Decimal(n)| && pos + len <= buf.Length
    modifies buf
    ensures buf[..] == Splice(old(buf[..]), pos, Decimal(n))
  {
    ghost var before := buf[..];
    ghost var done: seq<u8> := [];
    var m := n;
    var i := pos + len;
    assert before == Splice(before, i, done);
    while m >= 100
      invariant pos + |Decimal(m)| == i <= pos + len
      invariant Decimal(m) + done == Decimal(n) && i + |done| == pos + len
      invariant buf[..] == Splice(before, i, done)
    {
      var rem := m % 100;
      PeelStep(m, done, n);
      m := m / 100;
      i := i - 2;
      PrependPair(buf, before, i, done, rem);
      done := Padded(rem, 2) + done;
    }
    i := WriteLeading(buf, i, m);
    SplicePrepend(before, i, Decimal(m), done);
  }

  /** Stores the two digits of k just before text already written at i + 2. */
  method PrependPair(buf: array<u8>, ghost before: seq<u8>, i: nat, ghost done: seq<u8>, k: nat)
    requires k < 100 && |before| == buf.Length && i + 2 + |done| <= buf.Length
    requires buf[..] == Splice(before, i + 2, done)
    modifies buf
    ensures buf[..] == Splice(before, i, Padded(k, 2) + done)
  {
    PaddedTwo(k);
    PutPair(buf, i, k);
    SplicePrepend(before, i, Padded(k, 2), done);
  }

  /** One step of the fill: the last two digits of m move from the value still to write to the text written. */
  lemma PeelStep(m: nat, done: seq<u8>, n: nat)
    requires m >= 100 && Decimal(m) + done == Decimal(n)
    ensures Decimal(m / 100) + (Padded(m % 100, 2) + done) == Decimal(n)
    ensures |Decimal(m)| == |Decimal(m / 100)| + 2
  {
    var high, low := Decimal(m / 100), Padded(m % 100, 2);
    DecimalPeelPair(m);
    PaddedTwo(m % 100);
    assert high + (low + done) == (high + low) + done;
  }

  /** The last step of the fill: the one or two leading digits of m < 100, ending just before `end`. */
  method WriteLeading(buf: array<u8>, end: nat, m: nat) returns (start: nat)
    requires m < 100 && |Decimal(m)| <= end <= buf.Length
    modifies buf
    ensures start == end - |Decimal(m)|
    ensures buf[..] == Splice(old(buf[..]), start, Decimal(m))
  {
    if m < 10 {
      start := end - 1;
      SpliceOne(buf[..], start, ZERO + m);
      buf[start] := ZERO + m;
    } else {
      DecimalTwoDigits(m);
      start := end - 2;
      PutPair(buf, start, m);
    }
  }

  /** Writes the decimal text of n at pos; returns its length, the digit count. */
  method WriteU16(buf: array<u8>, pos: nat, n: u16) returns (len: nat)
    requires pos + |Decimal(n)| <= buf.Length
    modifies buf
    ensures len == |Decimal(n)|
    ensures buf[..] == Splice(old(buf[..]), pos, Decimal(n))
  {
    len := DigitsU16(n);
    WriteDigits(buf, pos, n, len);
  }

  /** Writes the decimal text of n at pos; returns its length, the digit count. */
  method WriteU32(buf: array<u8>, pos: nat, n: u32) returns (len: nat)
    requires pos + |Decimal(n)| <= buf.Length
    modifies buf
    ensures len == |Decimal(n)|
    ensures buf[..] == Splice(old(buf[..]), pos, Decimal(n))
  {
    len := DigitsU32(n);
    WriteDigits(buf, pos, n, len);
  }

  /** Writes the decimal text of n at pos; returns its length, the digit count. */
  method WriteU64(buf: array<u8>, pos: nat, n: u64) returns (len: nat)
    requires pos + |Decimal(n)| <= buf.Length
    modifies buf
    ensures len == |Decimal(n)|
    ensures buf[..] == Splice(old(buf[..]), pos, Decimal(n))
  {
    len := DigitsU64(n);
    WriteDigits(buf, pos, n, len);
  }

  /** Writes the decimal text of n at pos; returns its length, the digit count. */
  method WriteU128(buf: array<u8>, pos: nat, n: u128) returns (len: nat)
    requires pos + |Decimal(n)| <= buf.Length
    modifies buf
    ensures len == |Decimal(n)|
    ensures buf[..] == Splice(old(buf[..]), pos, Decimal(n))
  {
    len := DigitsU128(n);
    WriteDigits(buf, pos, n, len);
  }

  // ---------------------------------------------------------------------------
  // Byte copies and signed writers
  // ---------------------------------------------------------------------------

  /** Copies x into buf at `at`, as a non-overlapping block copy does. */
  method CopyBytes(buf: array<u8>, at: nat, x: seq<u8>)
    requires at + |x| <= buf.Length
    modifies buf
    ensures buf[..] == Splice(old(buf[..]), at, x)
  {
    forall j | 0 <= j < |x| {
      buf[at + j] := x[j];
    }
    assert buf[..] == old(buf[..])[..at] + x + old(buf[..])[at + |x|..];
  }

  /** Stores one byte at `at`. */
  method PutByte(buf: array<u8>, at: nat, b: u8)
    requires at < buf.Length
    modifies buf
    ensures buf[..] == Splice(old(buf[..]), at, [b])
  {
    SpliceOne(buf[..], at, b);
    buf[at] := b;
  }

  /** Appending a digit to the text of n >= 1 is the text of 10n + d. */
  lemma DecimalAppend(n: nat, d: nat)
    requires n >= 1 && d < 10
    ensures Decimal(10 * n + d) == Decimal(n) + [ZERO + d]
  {
    assert (10 * n + d) / 10 == n && (10 * n + d) % 10 == d;
  }

  /** The digit literals the signed writers use for each type's minimum. */
  const I16_MIN_DIGITS: seq<u8> := [51, 50, 55, 54, 56]
  const I32_MIN_DIGITS: seq<u8> := [50, 49, 52, 55, 52, 56, 51, 54, 52, 56]
  const I64_MIN_DIGITS: seq<u8> := [57, 50, 50, 51, 51, 55, 50, 48, 51, 54, 56, 53, 52, 55, 55, 53, 56, 48, 56]

  /** Each literal is the decimal text of the magnitude of the minimum, 2^(w-1). */
  lemma MinDigitsI16()
    ensures I16_MIN_DIGITS == Decimal(0x8000)
  {
    assert Decimal(3) == [51];
    DecimalAppend(3, 2);
    DecimalAppend(32, 7);
    DecimalAppend(327, 6);
    DecimalAppend(3276, 8);
  }

  lemma MinDigitsI32()
    ensures I32_MIN_DIGITS == Decimal(0x8000_0000)
  {
    assert Decimal(2) == [50];
    DecimalAppend(2, 1);
    DecimalAppend(21, 4);
    DecimalAppend(214, 7);
    DecimalAppend(2147, 4);
    DecimalAppend(21474, 8);
    DecimalAppend(214748, 3);
    DecimalAppend(2147483, 6);
    DecimalAppend(21474836, 4);
    DecimalAppend(214748364, 8);
  }

  lemma MinDigitsI64()
    ensures I64_MIN_DIGITS == Decimal(0x8000_0000_0000_0000)
  {
    MinDigitsI64High();
    DecimalAppend(922337203, 6);
    DecimalAppend(9223372036, 8);
    DecimalAppend(92233720368, 5);
    DecimalAppend(922337203685, 4);
    DecimalAppend(9223372036854, 7);
    DecimalAppend(92233720368547, 7);
    DecimalAppend(922337203685477, 5);
    DecimalAppend(9223372036854775, 8);
    DecimalAppend(92233720368547758, 0);
    DecimalAppend(922337203685477580, 8);
  }

  /** The first nine digits of 2^63. */
  lemma MinDigitsI64High()
    ensures Decimal(922337203) == [57, 50, 50, 51, 51, 55, 50, 48, 51]
  {
    assert Decimal(9) == [57];
    DecimalAppend(9, 2);
    DecimalAppend(92, 2);
    DecimalAppend(922, 3);
    DecimalAppend(9223, 3);
    DecimalAppend(92233, 7);
    DecimalAppend(922337, 2);
    DecimalAppend(9223372, 0);
    DecimalAppend(92233720, 3);
  }

  /** Writes the signed decimal text of n at offset: the unsigned text for n >= 0, else '-' and the magnitude. */
  method WriteI16(buf: array<u8>, offset: nat, n: i16) returns (len: nat)
    requires offset + |SignedDecimal(n)| <= buf.Length
    modifies buf
    ensures len == |SignedDecimal(n)|
    ensures buf[..] == Splice(old(buf[..]), offset, SignedDecimal(n))
  {
    ghost var before := buf[..];
    if n >= 0 {
      len := WriteU16(buf, offset, n);
    } else if n == -0x8000 {
      MinDigitsI16();
      PutByte(buf, offset, MINUS);
      CopyBytes(buf, offset + 1, I16_MIN_DIGITS);
      SpliceAdjacent(before, offset, [MINUS], I16_MIN_DIGITS);
      len := 6;
    } else {
      PutByte(buf, offset, MINUS);
      var digits := WriteU16(buf, offset + 1, -n);
      SpliceAdjacent(before, offset, [MINUS], Decimal(-n));
      len := 1 + digits;
    }
  }

  /** Writes the signed decimal text of n at offset: the unsigned text for n >= 0, else '-' and the magnitude. */
  method WriteI32(buf: array<u8>, offset: nat, n: i32) returns (len: nat)
    requires offset + |SignedDecimal(n)| <= buf.Length
    modifies buf
    ensures len == |SignedDecimal(n)|
    ensures buf[..] == Splice(old(buf[..]), offset, SignedDecimal(n))
  {
    ghost var before := buf[..];
    if n >= 0 {
      len := WriteU32(buf, offset, n);
    } else if n == -0x8000_0000 {
      MinDigitsI32();
      PutByte(buf, offset, MINUS);
      CopyBytes(buf, offset + 1, I32_MIN_DIGITS);
      SpliceAdjacent(before, offset, [MINUS], I32_MIN_DIGITS);
      len := 11;
    } else {
      PutByte(buf, offset, MINUS);
      var digits := WriteU32(buf, offset + 1, -n);
      SpliceAdjacent(before, offset, [MINUS], Decimal(-n));
      len := 1 + digits;
    }
  }

  /** Writes the signed decimal text of n at offset: the unsigned text for n >= 0, else '-' and the magnitude. */
  method WriteI64(buf: array<u8>, offset: nat, n: i64) returns (len: nat)
    requires offset + |SignedDecimal(n)| <= buf.Length
    modifies buf
    ensures len == |SignedDecimal(n)|
    ensures buf[..] == Splice(old(buf[..]), offset, SignedDecimal(n))
  {
    ghost var before := buf[..];
    if n >= 0 {
      len := WriteU64(buf, offset, n);
    } else if n == -0x8000_0000_0000_0000 {
      MinDigitsI64();
      PutByte(buf, offset, MINUS);
      CopyBytes(buf, offset + 1, I64_MIN_DIGITS);
      SpliceAdjacent(before, offset, [MINUS], I64_MIN_DIGITS);
      len := 20;
    } else {
      PutByte(buf, offset, MINUS);
      var digits := WriteU64(buf, offset + 1, -n);
      SpliceAdjacent(before, offset, [MINUS], Decimal(-n));
      len := 1 + digits;
    }
  }

  // ---------------------------------------------------------------------------
  // Fraction digits
  // ---------------------------------------------------------------------------

  /** Writes exactly six digits at pos: v modulo 10^6, zero padded on the left. */
  method WriteFrac6(v: u32, buf: array<u8>, pos: nat) returns (len: nat)
    requires pos + 6 <= buf.Length
    modifies buf
    ensures len == 6
    ensures buf[..] == Splice(old(buf[..]), pos, Padded(v, 6))
  {
    ghost var before := buf[..];
    var p0 := v % 100;
    var v1 := v / 100;
    var p1 := v1 % 100;
    var v2 := v1 / 100;
    var p2 := v2 % 100;
    PaddedPeelPair(v, 4);
    PaddedPeelPair(v1, 2);
    PaddedMod(v2, 2);
    assert Pow10(2) == 100;
    PutPair(buf, pos, p2);
    PutPair(buf, pos + 2, p1);
    SpliceAdjacent(before, pos, Padded(p2, 2), Padded(p1, 2));
    PutPair(buf, pos + 4, p0);
    SpliceAdjacent(before, pos, Padded(p2, 2) + Padded(p1, 2), Padded(p0, 2));
    len := 6;
  }

  /**
   * Fifteen padded digits are the last digit of v / 100^7 followed by seven
   * pairs, most significant first. The width is passed as w + 14 with w == 1
   * so that every peeled width is a `w + k` term the solver matches without
   * arithmetic on literals.
   */
  lemma Frac15Digits(w: nat, v0: nat, v1: nat, v2: nat, v3: nat, v4: nat, v5: nat, v6: nat, v7: nat)
    requires w == 1 && v1 == v0 / 100 && v2 == v1 / 100 && v3 == v2 / 100 && v4 == v3 / 100 && v5 == v4 / 100 && v6 == v5 / 100 && v7 == v6 / 100
    ensures Padded(v0, w + 14) == [ZERO + v7 % 10] + Padded(v6 % 100, 2) + Padded(v5 % 100, 2) + Padded(v4 % 100, 2) + Padded(v3 % 100, 2) + Padded(v2 % 100, 2) + Padded(v1 % 100, 2) + Padded(v0 % 100, 2)
  {
    ghost var tail: seq<u8> := [];
    assert Padded(v0, w + 14) == Padded(v0, w + 14) + tail;
    PeelPairStep(v0, w + 12, tail);
    tail := Padded(v0 % 100, 2) + tail;
    PeelPairStep(v1, w + 10, tail);
    tail := Padded(v1 % 100, 2) + tail;
    PeelPairStep(v2, w + 8, tail);
    tail := Padded(v2 % 100, 2) + tail;
    PeelPairStep(v3, w + 6, tail);
    tail := Padded(v3 % 100, 2) + tail;
    PeelPairStep(v4, w + 4, tail);
    tail := Padded(v4 % 100, 2) + tail;
    PeelPairStep(v5, w + 2, tail);
    tail := Padded(v5 % 100, 2) + tail;
    PeelPairStep(v6, w + 0, tail);
    tail := Padded(v6 % 100, 2) + tail;
    assert Padded(v7, w) == [ZERO + v7 % 10];
  }

  lemma PeelPairStep(v: nat, w: nat, tail: seq<u8>)
    ensures Padded(v, w + 2) + tail == Padded(v / 100, w) + (Padded(v % 100, 2) + tail)
  {
    PaddedPeelPair(v, w);
  }

  /** Writes exactly fifteen digits at pos: v modulo 10^15, zero padded on the left. */
  method WriteFrac15(v: u128, buf: array<u8>, pos: nat) returns (len: nat)
    requires pos + 15 <= buf.Length
    modifies buf
    ensures len == 15
    ensures buf[..] == Splice(old(buf[..]), pos, Padded(v, 15))
  {
    ghost var before := buf[..];
    var v0 := v;
    var p0 := v0 % 100;
    var v1 := v0 / 100;
    var p1 := v1 % 100;
    var v2 := v1 / 100;
    var p2 := v2 % 100;
    var v3 := v2 / 100;
    var p3 := v3 % 100;
    var v4 := v3 / 100;
    var p4 := v4 % 100;
    var v5 := v4 / 100;
    var p5 := v5 % 100;
    var v6 := v5 / 100;
    var p6 := v6 % 100;
    var v7 := v6 / 100;
    var hi := v7 % 10;
    Frac15Digits(1, v0, v1, v2, v3, v4, v5, v6, v7);
    PutByte(buf, pos, ZERO + hi);
    ghost var written: seq<u8> := [ZERO + hi];
    PutPair(buf, pos + 1, p6);
    SpliceAdjacent(before, pos, written, Padded(p6, 2));
    written := written + Padded(p6, 2);
    PutPair(buf, pos + 3, p5);
    SpliceAdjacent(before, pos, written, Padded(p5, 2));
    written := written + Padded(p5, 2);
    PutPair(buf, pos + 5, p4);
    SpliceAdjacent(before, pos, written, Padded(p4, 2));
    written := written + Padded(p4, 2);
    PutPair(buf, pos + 7, p3);
    SpliceAdjacent(before, pos, written, Padded(p3, 2));
    written := written + Padded(p3, 2);
    PutPair(buf, pos + 9, p2);
    SpliceAdjacent(before, pos, written, Padded(p2, 2));
    written := written + Padded(p2, 2);
    PutPair(buf, pos + 11, p1);
    SpliceAdjacent(before, pos, written, Padded(p1, 2));
    written := written + Padded(p1, 2);
    PutPair(buf, pos + 13, p0);
    SpliceAdjacent(before, pos, written, Padded(p0, 2));
    written := written + Padded(p0, 2);
    len := 15;
  }

  // ---------------------------------------------------------------------------
  // Trailing-zero trim and the fixed-point text of a scaled value
  // ---------------------------------------------------------------------------

  /** s without its trailing '0' bytes. */
  function TrimZeros(s: seq<u8>): (t: seq<u8>)
    ensures |t| <= |s| && t == s[..|t|]
    ensures forall j :: |t| <= j < |s| ==> s[j] == ZERO
    ensures t == [] || t[|t| - 1] != ZERO
  {
    if s != [] && s[|s| - 1] == ZERO then TrimZeros(s[..|s| - 1]) else s
  }

  /** Steps pos back from `end` over '0' bytes, never below `start`. */
  method TrimTrailingZeros(buf: array<u8>, start: nat, end: nat) returns (pos: nat)
    requires start <= end <= buf.Length
    ensures start <= pos <= end
    ensures buf[start..pos] == TrimZeros(buf[start..end])
  {
    pos := end;
    while pos > start
      invariant start <= pos <= end
      invariant TrimZeros(buf[start..pos]) == TrimZeros(buf[start..end])
    {
      var c := buf[pos - 1];
      if c != ZERO {
        break;
      }
      assert buf[start..pos - 1] == buf[start..pos][..pos - 1 - start];
      pos := pos - 1;
    }
  }

  /** '-' for a negative value, nothing otherwise. */
  function SignText(neg: bool): seq<u8> {
    if neg then [MINUS] else []
  }

  /**
   * The bytes a float writer stores for a magnitude already scaled by 10^places
   * and rounded, split into its integer part and its fraction: sign, integer
   * digits, and '.' with `places` fraction digits when the fraction is not zero.
   */
  function FixedDigits(neg: bool, intPart: nat, frac: nat, places: nat): seq<u8> {
    SignText(neg) + Decimal(intPart) + (if frac == 0 then [] else [DOT] + Padded(frac, places))
  }

  /** The text the float writer reports: FixedDigits with the fraction's trailing zeros dropped. */
  function FixedText(neg: bool, intPart: nat, frac: nat, places: nat): seq<u8> {
    SignText(neg) + Decimal(intPart) + (if frac == 0 then [] else [DOT] + TrimZeros(Padded(frac, places)))
  }

  /** The reported text is a prefix of the bytes stored. */
  lemma FixedTextIsPrefix(neg: bool, intPart: nat, frac: nat, places: nat)
    ensures var t := FixedText(neg, intPart, frac, places);
      |t| <= |FixedDigits(neg, intPart, frac, places)| && t == FixedDigits(neg, intPart, frac, places)[..|t|]
  {
  }

  /** After the stored bytes are spliced in, the reported text sits at the front of them. */
  lemma FixedTextInBuffer(s: seq<u8>, before: seq<u8>, offset: nat, neg: bool, intPart: nat, frac: nat, places: nat)
    requires offset + |FixedDigits(neg, intPart, frac, places)| <= |before|
    requires s == Splice(before, offset, FixedDigits(neg, intPart, frac, places))
    ensures s[offset..offset + |FixedText(neg, intPart, frac, places)|] == FixedText(neg, intPart, frac, places)
  {
    FixedTextIsPrefix(neg, intPart, frac, places);
    SpliceContents(before, offset, FixedDigits(neg, intPart, frac, places));
  }

  lemma SplitLastZero(t: seq<u8>, u: seq<u8>)
    requires u != [] && u[|u| - 1] == ZERO
    ensures t + u == (t + u[..|u| - 1]) + [ZERO]
  {
  }

  lemma AllDigitsZeros(t: seq<u8>, u: seq<u8>)
    requires AllDigits(t) && forall j :: 0 <= j < |u| ==> u[j] == ZERO
    ensures AllDigits(t + u)
  {
  }

  lemma MulAssoc(v: nat, p: nat)
    ensures v * p * 10 == v * (10 * p)
  {
  }

  /** Trailing '0' bytes add nothing but a power of ten. */
  lemma {:induction false} DecimalValueZeros(t: seq<u8>, u: seq<u8>)
    requires AllDigits(t) && forall j :: 0 <= j < |u| ==> u[j] == ZERO
    ensures AllDigits(t + u)
    ensures DecimalValue(t + u) == DecimalValue(t) * Pow10(|u|)
    decreases |u|
  {
    AllDigitsZeros(t, u);
    if u == [] {
      assert t + u == t;
    } else {
      var init := u[..|u| - 1];
      SplitLastZero(t, u);
      DecimalValueZeros(t, init);
      DecimalValueSnoc(t + init, ZERO);
      MulAssoc(DecimalValue(t), Pow10(|init|));
    }
  }

  /**
   * A non-zero fraction keeps at least one digit, ends in a non-zero digit,
   * and still denotes the same value: its digits times 10^(dropped zeros).
   */
  lemma TrimmedFractionValue(frac: nat, places: nat)
    requires 0 < frac < Pow10(places)
    ensures var t := TrimZeros(Padded(frac, places));
      1 <= |t| && t[|t| - 1] != ZERO && DecimalValue(t) * Pow10(places - |t|) == frac
  {
    var p := Padded(frac, places);
    var t := TrimZeros(p);
    var k := places - |t|;
    assert DecimalValue(p) == frac by {
      PaddedValue(frac, places);
      DivModUnique(frac, Pow10(places), 0, frac);
    }
    assert DecimalValue(p) == DecimalValue(t) * Pow10(k) by {
      assert p == t + p[|t|..];
      DecimalValueZeros(t, p[|t|..]);
    }
    if t == [] {
      assert false;
    }
  }

  /** The sign and integer digits of the f32 writer. */
  method WriteSignAndU64(buf: array<u8>, offset: nat, neg: bool, intPart: u64) returns (pos: nat)
    requires offset + |SignText(neg) + Decimal(intPart)| <= buf.Length
    modifies buf
    ensures buf[..] == Splice(old(buf[..]), offset, SignText(neg) + Decimal(intPart))
    ensures pos == offset + |SignText(neg) + Decimal(intPart)|
  {
    ghost var before := buf[..];
    pos := offset;
    if neg {
      PutByte(buf, pos, MINUS);
      pos := pos + 1;
    }
    assert buf[..] == Splice(before, offset, SignText(neg));
    var n := WriteU64(buf, pos, intPart);
    pos := pos + n;
    SpliceAdjacent(before, offset, SignText(neg), Decimal(intPart));
  }

  /** The sign and integer digits of the f64 writer: the u64 writer when the integer part fits, else the u128 one. */
  method WriteSignAndU128(buf: array<u8>, offset: nat, neg: bool, intPart: u128) returns (pos: nat)
    requires offset + |SignText(neg) + Decimal(intPart)| <= buf.Length
    modifies buf
    ensures buf[..] == Splice(old(buf[..]), offset, SignText(neg) + Decimal(intPart))
    ensures pos == offset + |SignText(neg) + Decimal(intPart)|
  {
    ghost var before := buf[..];
    pos := offset;
    if neg {
      PutByte(buf, pos, MINUS);
      pos := pos + 1;
    }
    assert buf[..] == Splice(before, offset, SignText(neg));
    var n;
    if intPart <= TWO_64 - 1 {
      n := WriteU64(buf, pos, intPart);
    } else {
      n := WriteU128(buf, pos, intPart);
    }
    pos := pos + n;
    SpliceAdjacent(before, offset, SignText(neg), Decimal(intPart));
  }

  /** The fraction part of the f32 writer: '.', six digits, then the trim back over trailing zeros. */
  method WriteFraction6(buf: array<u8>, pos: nat, frac: u32) returns (end: nat)
    requires pos + 7 <= buf.Length
    modifies buf
    ensures buf[..] == Splice(old(buf[..]), pos, [DOT] + Padded(frac, 6))
    ensures end == pos + 1 + |TrimZeros(Padded(frac, 6))|
  {
    ghost var before := buf[..];
    PutByte(buf, pos, DOT);
    var start := pos + 1;
    var k := WriteFrac6(frac, buf, start);
    SpliceAdjacent(before, pos, [DOT], Padded(frac, 6));
    SpliceContents(before, pos, [DOT] + Padded(frac, 6));
    assert buf[start..start + k] == ([DOT] + Padded(frac, 6))[1..];
    end := TrimTrailingZeros(buf, start, start + k);
  }

  /**
   * The fixed-point part of the f32 writer: sign, integer digits, and for a
   * non-zero fraction '.', six digits and the trailing-zero trim. `scaled` is
   * the magnitude times 10^6 after rounding.
   */
  method WriteScaled6(buf: array<u8>, offset: nat, neg: bool, scaled: u64) returns (len: nat)
    requires offset + |FixedDigits(neg, scaled / 1_000_000, scaled % 1_000_000, 6)| <= buf.Length
    modifies buf
    ensures buf[..] == Splice(old(buf[..]), offset, FixedDigits(neg, scaled / 1_000_000, scaled % 1_000_000, 6))
    ensures len == |FixedText(neg, scaled / 1_000_000, scaled % 1_000_000, 6)|
  {
    var pos := offset;
    var intPart := scaled / 1_000_000;
    var frac := scaled % 1_000_000;
    ghost var before := buf[..];
    ghost var head := SignText(neg) + Decimal(intPart);
    ghost var digits := FixedDigits(neg, intPart, frac, 6);
    ghost var text := FixedText(neg, intPart, frac, 6);
    pos := WriteSignAndU64(buf, offset, neg, intPart);
    if frac != 0 {
      pos := WriteFraction6(buf, pos, frac);
      assert buf[..] == Splice(before, offset, digits) && pos == offset + |text| by {
        SpliceAdjacent(before, offset, head, [DOT] + Padded(frac, 6));
        assert head + ([DOT] + Padded(frac, 6)) == digits;
        assert head + ([DOT] + TrimZeros(Padded(frac, 6))) == text;
      }
    } else {
      assert head == digits == text;
    }
    len := pos - offset;
  }

  /** The fraction part of the f64 writer: '.', fifteen digits, then the trim back over trailing zeros. */
  method WriteFraction15(buf: array<u8>, pos: nat, frac: u128) returns (end: nat)
    requires pos + 16 <= buf.Length
    modifies buf
    ensures buf[..] == Splice(old(buf[..]), pos, [DOT] + Padded(frac, 15))
    ensures end == pos + 1 + |TrimZeros(Padded(frac, 15))|
  {
    ghost var before := buf[..];
    PutByte(buf, pos, DOT);
    var start := pos + 1;
    var k := WriteFrac15(frac, buf, start);
    SpliceAdjacent(before, pos, [DOT], Padded(frac, 15));
    SpliceContents(before, pos, [DOT] + Padded(frac, 15));
    assert buf[start..start + k] == ([DOT] + Padded(frac, 15))[1..];
    end := TrimTrailingZeros(buf, start, start + k);
  }

  /**
   * The fixed-point part of the f64 writer: sign, integer digits, and for a
   * non-zero fraction '.', fifteen digits and the trailing-zero trim. `scaled` is
   * the magnitude times 10^15 after rounding.
   */
  method WriteScaled15(buf: array<u8>, offset: nat, neg: bool, scaled: u128) returns (len: nat)
    requires offset + |FixedDigits(neg, scaled / 1_000_000_000_000_000, scaled % 1_000_000_000_000_000, 15)| <= buf.Length
    modifies buf
    ensures buf[..] == Splice(old(buf[..]), offset, FixedDigits(neg, scaled / 1_000_000_000_000_000, scaled % 1_000_000_000_000_000, 15))
    ensures len == |FixedText(neg, scaled / 1_000_000_000_000_000, scaled % 1_000_000_000_000_000, 15)|
  {
    var pos := offset;
    var intPart := scaled / 1_000_000_000_000_000;
    var frac := scaled % 1_000_000_000_000_000;
    ghost var before := buf[..];
    ghost var head := SignText(neg) + Decimal(intPart);
    ghost var digits := FixedDigits(neg, intPart, frac, 15);
    ghost var text := FixedText(neg, intPart, frac, 15);
    pos := WriteSignAndU128(buf, offset, neg, intPart);
    if frac != 0 {
      pos := WriteFraction15(buf, pos, frac);
      assert buf[..] == Splice(before, offset, digits) && pos == offset + |text| by {
        SpliceAdjacent(before, offset, head, [DOT] + Padded(frac, 15));
        assert head + ([DOT] + Padded(frac, 15)) == digits;
        assert head + ([DOT] + TrimZeros(Padded(frac, 15))) == text;
      }
    } else {
      assert head == digits == text;
    }
    len := pos - offset;
  }

  // ---------------------------------------------------------------------------
  // Fields
  // ---------------------------------------------------------------------------

  /** One TAG=VALUE<SOH> field; `tagAndEq` already ends in '='. */
  function Field(tagAndEq: seq<u8>, value: seq<u8>): (f: seq<u8>)
    ensures |f| == |tagAndEq| + |value| + 1
  {
    tagAndEq + value + [SOH]
  }

  /** The text of a boolean field value. */
  function BoolText(b: bool): seq<u8> {
    if b then [YES] else [NO]
  }

  /** A field splits back into its tag and value at its only delimiter when neither contains SOH. */
  lemma FieldSplits(tagAndEq: seq<u8>, value: seq<u8>)
    requires SOH !in tagAndEq && SOH !in value
    ensures var f := Field(tagAndEq, value);
      f[|f| - 1] == SOH &&
      (forall j :: 0 <= j < |f| - 1 ==> f[j] != SOH) &&
      f[..|tagAndEq|] == tagAndEq && f[|tagAndEq|..|f| - 1] == value
  {
    var f := Field(tagAndEq, value);
    forall j | 0 <= j < |f| - 1
      ensures f[j] != SOH
    {
      if j < |tagAndEq| {
        assert f[j] == tagAndEq[j];
      } else {
        assert f[j] == value[j - |tagAndEq|];
      }
    }
    assert f[|tagAndEq|..|f| - 1] == value;
  }

  /** Ends a field whose tag and value are already in place by storing SOH right after them. */
  method CloseField(bytes: array<u8>, offset: nat, ghost before: seq<u8>, ghost tagAndEq: seq<u8>, ghost value: seq<u8>, end: nat)
    returns (len: nat)
    requires |before| == bytes.Length && end == offset + |tagAndEq| + |value| && end < bytes.Length
    requires bytes[..] == Splice(Splice(before, offset, tagAndEq), offset + |tagAndEq|, value)
    modifies bytes
    ensures len == |Field(tagAndEq, value)|
    ensures bytes[..] == Splice(before, offset, Field(tagAndEq, value))
  {
    SpliceAdjacent(before, offset, tagAndEq, value);
    PutByte(bytes, end, SOH);
    SpliceAdjacent(before, offset, tagAndEq + value, [SOH]);
    len := end - offset + 1;
  }

  /** Writes tag ++ ('Y' or 'N') ++ SOH at offset; returns |tag| + 2. */
  method WriteTagAndBool(bytes: array<u8>, offset: nat, tagAndEq: seq<u8>, value: bool) returns (len: nat)
    requires offset + |tagAndEq| + 2 <= bytes.Length
    modifies bytes
    ensures len == |tagAndEq| + 2 == |Field(tagAndEq, BoolText(value))|
    ensures bytes[..] == Splice(old(bytes[..]), offset, Field(tagAndEq, BoolText(value)))
  {
    ghost var before := bytes[..];
    CopyBytes(bytes, offset, tagAndEq);
    var pos := offset + |tagAndEq|;
    PutByte(bytes, pos, if value then YES else NO);
    len := CloseField(bytes, offset, before, tagAndEq, BoolText(value), pos + 1);
  }

  /** Writes tag ++ value ++ SOH at offset; returns |tag| + |value| + 1. */
  method WriteTagAndBytes(bytes: array<u8>, offset: nat, tagAndEq: seq<u8>, value: seq<u8>) returns (len: nat)
    requires offset + |tagAndEq| + |value| + 1 <= bytes.Length
    modifies bytes
    ensures len == |tagAndEq| + |value| + 1 == |Field(tagAndEq, value)|
    ensures bytes[..] == Splice(old(bytes[..]), offset, Field(tagAndEq, value))
  {
    ghost var before := bytes[..];
    CopyBytes(bytes, offset, tagAndEq);
    CopyBytes(bytes, offset + |tagAndEq|, value);
    len := CloseField(bytes, offset, before, tagAndEq, value, offset + |tagAndEq| + |value|);
  }

  /** The string writer: the UTF-8 bytes of the string go through the byte writer unchanged. */
  method WriteTagAndStr(bytes: array<u8>, offset: nat, tagAndEq: seq<u8>, utf8: seq<u8>) returns (len: nat)
    requires offset + |tagAndEq| + |utf8| + 1 <= bytes.Length
    modifies bytes
    ensures len == |tagAndEq| + |utf8| + 1
    ensures bytes[..] == Splice(old(bytes[..]), offset, Field(tagAndEq, utf8))
  {
    len := WriteTagAndBytes(bytes, offset, tagAndEq, utf8);
  }

  /** Writes the field tag ++ the text of value ++ SOH at offset; returns its length. */
  method WriteTagAndU16(bytes: array<u8>, offset: nat, tagAndEq: seq<u8>, value: u16) returns (len: nat)
    requires offset + |Field(tagAndEq, Decimal(value))| <= bytes.Length
    modifies bytes
    ensures len == |Field(tagAndEq, Decimal(value))|
    ensures bytes[..] == Splice(old(bytes[..]), offset, Field(tagAndEq, Decimal(value)))
  {
    ghost var before := bytes[..];
    CopyBytes(bytes, offset, tagAndEq);
    var n := WriteU16(bytes, offset + |tagAndEq|, value);
    len := CloseField(bytes, offset, before, tagAndEq, Decimal(value), offset + |tagAndEq| + n);
  }

  /** Writes the field tag ++ the text of value ++ SOH at offset; returns its length. */
  method WriteTagAndU32(bytes: array<u8>, offset: nat, tagAndEq: seq<u8>, value: u32) returns (len: nat)
    requires offset + |Field(tagAndEq, Decimal(value))| <= bytes.Length
    modifies bytes
    ensures len == |Field(tagAndEq, Decimal(value))|
    ensures bytes[..] == Splice(old(bytes[..]), offset, Field(tagAndEq, Decimal(value)))
  {
    ghost var before := bytes[..];
    CopyBytes(bytes, offset, tagAndEq);
    var n := WriteU32(bytes, offset + |tagAndEq|, value);
    len := CloseField(bytes, offset, before, tagAndEq, Decimal(value), offset + |tagAndEq| + n);
  }

  /** Writes the field tag ++ the text of value ++ SOH at offset; returns its length. */
  method WriteTagAndU64(bytes: array<u8>, offset: nat, tagAndEq: seq<u8>, value: u64) returns (len: nat)
    requires offset + |Field(tagAndEq, Decimal(value))| <= bytes.Length
    modifies bytes
    ensures len == |Field(tagAndEq, Decimal(value))|
    ensures bytes[..] == Splice(old(bytes[..]), offset, Field(tagAndEq, Decimal(value)))
  {
    ghost var before := bytes[..];
    CopyBytes(bytes, offset, tagAndEq);
    var n := WriteU64(bytes, offset + |tagAndEq|, value);
    len := CloseField(bytes, offset, before, tagAndEq, Decimal(value), offset + |tagAndEq| + n);
  }

  /** Writes the field tag ++ the text of value ++ SOH at offset; returns its length. */
  method WriteTagAndI16(bytes: array<u8>, offset: nat, tagAndEq: seq<u8>, value: i16) returns (len: nat)
    requires offset + |Field(tagAndEq, SignedDecimal(value))| <= bytes.Length
    modifies bytes
    ensures len == |Field(tagAndEq, SignedDecimal(value))|
    ensures bytes[..] == Splice(old(bytes[..]), offset, Field(tagAndEq, SignedDecimal(value)))
  {
    ghost var before := bytes[..];
    CopyBytes(bytes, offset, tagAndEq);
    var n := WriteI16(bytes, offset + |tagAndEq|, value);
    len := CloseField(bytes, offset, before, tagAndEq, SignedDecimal(value), offset + |tagAndEq| + n);
  }

  /** Writes the field tag ++ the text of value ++ SOH at offset; returns its length. */
  method WriteTagAndI32(bytes: array<u8>, offset: nat, tagAndEq: seq<u8>, value: i32) returns (len: nat)
    requires offset + |Field(tagAndEq, SignedDecimal(value))| <= bytes.Length
    modifies bytes
    ensures len == |Field(tagAndEq, SignedDecimal(value))|
    ensures bytes[..] == Splice(old(bytes[..]), offset, Field(tagAndEq, SignedDecimal(value)))
  {
    ghost var before := bytes[..];
    CopyBytes(bytes, offset, tagAndEq);
    var n := WriteI32(bytes, offset + |tagAndEq|, value);
    len := CloseField(bytes, offset, before, tagAndEq, SignedDecimal(value), offset + |tagAndEq| + n);
  }

  /** Writes the field tag ++ the text of value ++ SOH at offset; returns its length. */
  method WriteTagAndI64(bytes: array<u8>, offset: nat, tagAndEq: seq<u8>, value: i64) returns (len: nat)
    requires offset + |Field(tagAndEq, SignedDecimal(value))| <= bytes.Length
    modifies bytes
    ensures len == |Field(tagAndEq, SignedDecimal(value))|
    ensures bytes[..] == Splice(old(bytes[..]), offset, Field(tagAndEq, SignedDecimal(value)))
  {
    ghost var before := bytes[..];
    CopyBytes(bytes, offset, tagAndEq);
    var n := WriteI64(bytes, offset + |tagAndEq|, value);
    len := CloseField(bytes, offset, before, tagAndEq, SignedDecimal(value), offset + |tagAndEq| + n);
  }
}
