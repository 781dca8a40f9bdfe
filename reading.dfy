/**
 * The integer and boolean readers. Each reader takes the bytes of one field
 * value, parses the longest leading run of ASCII digits, stops at the first
 * other byte, and wraps on overflow; the signed readers apply a leading '-'.
 */
module Reading {
  import opened Ascii
  import opened Writing

  /** A byte is a decimal digit exactly when it is '0' plus a value below ten. */
  lemma DigitByteIsDigitValue(b: u8)
    ensures IsDigit(b) <==> 0 <= b - ZERO < 10
  {
  }

  /** The longest prefix of s made only of ASCII digits. */
  function DigitRun(s: seq<u8>): (r: seq<u8>)
    ensures AllDigits(r)
  {
    if s == [] || !IsDigit(s[0]) then [] else [s[0]] + DigitRun(s[1..])
  }

  /** The run is a prefix of s, and the byte after it, if any, is not a digit. */
  lemma {:induction false} DigitRunIsLongestPrefix(s: seq<u8>)
    ensures var r := DigitRun(s); |r| <= |s| && r == s[..|r|]
    ensures var r := DigitRun(s); |r| == |s| || !IsDigit(s[|r|])
  {
    if s != [] && IsDigit(s[0]) {
      DigitRunIsLongestPrefix(s[1..]);
    }
  }

  /** What the unsigned reader of a width with modulus m returns for s. */
  function ParseUnsigned(s: seq<u8>, m: nat): nat
    requires m > 0
  {
    DecimalValue(DigitRun(s)) % m
  }

  /** What the signed reader of a width with modulus m returns for s. */
  function ParseSigned(s: seq<u8>, m: nat): int
    requires m >= 2 && m % 2 == 0
  {
    if s == [] then 0
    else if s[0] == MINUS then TwosComplement(-(ParseUnsigned(s[1..], m) as int), m)
    else TwosComplement(ParseUnsigned(s, m), m)
  }

  /** Returns true exactly for the one-byte input "Y". */
  function ReadBool(buf: seq<u8>): (b: bool)
    ensures b <==> buf == [YES]
  {
    |buf| == 1 && buf[0] == YES
  }

  /** A written boolean value reads back as itself. */
  lemma BoolRoundTrip(b: bool)
    ensures ReadBool(BoolText(b)) == b
  {
  }

  // ---------------------------------------------------------------------------
  // Unsigned readers
  // ---------------------------------------------------------------------------

  /** Multiplying by ten and adding a digit commutes with reduction modulo m. */
  lemma ModStep(a: nat, acc: nat, d: nat, m: nat, n: nat, r: nat)
    requires m > 0 && acc == a % m && n == a * 10 + d && r == acc * 10 + d
    ensures r % m == n % m
  {
    var q := a / m;
    assert n == m * (10 * q) + r;
    DivModUnique(r, m, r / m, r % m);
    DivModUnique(n, m, 10 * q + r / m, r % m);
  }

  /** One more digit at the end of a run: the value grows by the standard step. */
  lemma RunStep(buf: seq<u8>, i: nat)
    requires i < |buf| && AllDigits(buf[..i]) && IsDigit(buf[i])
    ensures AllDigits(buf[..i + 1])
    ensures DecimalValue(buf[..i + 1]) == DecimalValue(buf[..i]) * 10 + (buf[i] - ZERO)
  {
    assert buf[..i + 1][..i] == buf[..i];
  }

  /** A run that starts with a digit is that digit and the run after it. */
  lemma RunCons(u: seq<u8>)
    requires u != [] && IsDigit(u[0])
    ensures DigitRun(u) == [u[0]] + DigitRun(u[1..])
  {
  }

  /** The run of digits at the front is the digits already read and the run after them. */
  lemma RunSplit(s: seq<u8>, i: nat)
    requires i < |s| && AllDigits(s[..i]) && IsDigit(s[i])
    requires DigitRun(s) == s[..i] + DigitRun(s[i..])
    ensures DigitRun(s) == s[..i + 1] + DigitRun(s[i + 1..])
  {
    var u := s[i..];
    assert u[0] == s[i] && u[1..] == s[i + 1..];
    RunCons(u);
    var rest := DigitRun(s[i + 1..]);
    assert s[..i + 1] == s[..i] + [s[i]];
    assert s[..i] + ([s[i]] + rest) == (s[..i] + [s[i]]) + rest;
  }

  /** One iteration of the reader's loop keeps its invariant. */
  lemma ReadStep(buf: seq<u8>, i: nat, acc: nat, m: nat)
    requires m > 0 && i < |buf| && AllDigits(buf[..i]) && IsDigit(buf[i])
    requires DigitRun(buf) == buf[..i] + DigitRun(buf[i..])
    requires acc == DecimalValue(buf[..i]) % m
    ensures AllDigits(buf[..i + 1]) && DigitRun(buf) == buf[..i + 1] + DigitRun(buf[i + 1..])
    ensures (acc * 10 + (buf[i] - ZERO)) % m == DecimalValue(buf[..i + 1]) % m
  {
    RunStep(buf, i);
    RunSplit(buf, i);
    ModStep(DecimalValue(buf[..i]), acc, buf[i] - ZERO, m, DecimalValue(buf[..i + 1]), acc * 10 + (buf[i] - ZERO));
  }

  /** The loop every unsigned reader runs: accumulate digits modulo m until the first non-digit. */
  method ReadUnsigned(buf: seq<u8>, m: nat) returns (acc: nat)
    requires m > 0
    ensures acc == ParseUnsigned(buf, m)
  {
    var len := |buf|;
    if len == 0 {
      return 0;
    }
    acc := 0;
    var i := 0;
    assert buf[..0] == [] && buf[0..] == buf;
    while i < len
      invariant i <= len && AllDigits(buf[..i])
      invariant DigitRun(buf) == buf[..i] + DigitRun(buf[i..])
      invariant acc == DecimalValue(buf[..i]) % m
    {
      var b := buf[i];
      if !IsDigit(b) {
        break;
      }
      ReadStep(buf, i, acc, m);
      acc := (acc * 10 + (b - ZERO)) % m;
      i := i + 1;
    }
    assert DigitRun(buf[i..]) == [];
    assert DigitRun(buf) == buf[..i];
  }

  /** read_u16: the digit run modulo 2^16. */
  method ReadU16(buf: seq<u8>) returns (r: u16)
    ensures r == ParseUnsigned(buf, TWO_16)
  {
    r := ReadUnsigned(buf, TWO_16);
  }

  /** read_u32: the digit run modulo 2^32. */
  method ReadU32(buf: seq<u8>) returns (r: u32)
    ensures r == ParseUnsigned(buf, TWO_32)
  {
    r := ReadUnsigned(buf, TWO_32);
  }

  /** read_u64: the digit run modulo 2^64. */
  method ReadU64(buf: seq<u8>) returns (r: u64)
    ensures r == ParseUnsigned(buf, TWO_64)
  {
    r := ReadUnsigned(buf, TWO_64);
  }

  /** Empty input, or input that does not start with a digit, parses as zero. */
  lemma ParseNoDigits(s: seq<u8>, m: nat)
    requires m > 0 && (s == [] || !IsDigit(s[0]))
    ensures ParseUnsigned(s, m) == 0
  {
  }

  /** The run of a digit string followed by a non-digit (or nothing) is the digit string. */
  lemma {:induction false} DigitRunOfDigits(d: seq<u8>, rest: seq<u8>)
    requires AllDigits(d) && (rest == [] || !IsDigit(rest[0]))
    ensures DigitRun(d + rest) == d
  {
    if d != [] {
      assert (d + rest)[1..] == d[1..] + rest;
      DigitRunOfDigits(d[1..], rest);
      assert d == [d[0]] + d[1..];
    } else {
      assert d + rest == rest;
    }
  }

  /** Once a non-digit has been seen, whatever follows it does not change the run. */
  lemma {:induction false} DigitRunStable(s: seq<u8>, t: seq<u8>)
    requires |DigitRun(s)| < |s|
    ensures DigitRun(s + t) == DigitRun(s)
  {
    if s != [] && IsDigit(s[0]) {
      assert (s + t)[1..] == s[1..] + t;
      DigitRunStable(s[1..], t);
    }
  }

  /** Prefix stability: bytes after the first non-digit never change what a reader returns. */
  lemma ParsePrefixStable(s: seq<u8>, t: seq<u8>, m: nat)
    requires m > 0 && |DigitRun(s)| < |s|
    ensures ParseUnsigned(s + t, m) == ParseUnsigned(s, m)
  {
    DigitRunStable(s, t);
  }

  /** "123abc" reads as 123, whatever the width. */
  lemma ParseStopsAtNonDigit(m: nat)
    requires m > 123
    ensures ParseUnsigned([49, 50, 51, 97, 98, 99], m) == 123
  {
    DigitRunOfDigits([49, 50, 51], [97, 98, 99]);
    assert [49, 50, 51] + [97, 98, 99] == [49, 50, 51, 97, 98, 99];
    assert [49, 50, 51][..2] == [49, 50] && [49, 50][..1] == [49];
  }

  /** Round trip: the decimal text of n < m, alone or before a non-digit, reads back as n. */
  lemma UnsignedRoundTrip(n: nat, rest: seq<u8>, m: nat)
    requires n < m && (rest == [] || !IsDigit(rest[0]))
    ensures ParseUnsigned(Decimal(n) + rest, m) == n
  {
    DigitRunOfDigits(Decimal(n), rest);
    DecimalRoundTrip(n);
    DivModUnique(n, m, 0, n);
  }

  /** A field written by a tag writer reads back: the value after the tag is followed by SOH. */
  lemma FieldRoundTrip(tagAndEq: seq<u8>, n: nat, m: nat)
    requires n < m
    ensures ParseUnsigned(Field(tagAndEq, Decimal(n))[|tagAndEq|..], m) == n
  {
    assert Field(tagAndEq, Decimal(n))[|tagAndEq|..] == Decimal(n) + [SOH];
    UnsignedRoundTrip(n, [SOH], m);
  }

  // ---------------------------------------------------------------------------
  // Signed readers
  // ---------------------------------------------------------------------------

  /** read_i16: a magnitude of 32768 after '-' is MIN; any other is negated and cast. */
  method ReadI16(buf: seq<u8>) returns (r: i16)
    ensures r == ParseSigned(buf, TWO_16)
  {
    if |buf| == 0 {
      return 0;
    }
    if buf[0] == MINUS {
      var mag := ReadU16(buf[1..]);
      if mag == 0x8000 {
        r := -0x8000;
      } else {
        r := TwosComplement(-(mag as int), TWO_16);
      }
    } else {
      var u := ReadU16(buf);
      r := TwosComplement(u, TWO_16);
    }
  }

  /** read_i32: a magnitude of 2^31 after '-' is MIN; any other is negated and cast. */
  method ReadI32(buf: seq<u8>) returns (r: i32)
    ensures r == ParseSigned(buf, TWO_32)
  {
    if |buf| == 0 {
      return 0;
    }
    if buf[0] == MINUS {
      var mag := ReadU32(buf[1..]);
      if mag == 0x8000_0000 {
        r := -0x8000_0000;
      } else {
        r := TwosComplement(-(mag as int), TWO_32);
      }
    } else {
      var u := ReadU32(buf);
      r := TwosComplement(u, TWO_32);
    }
  }

  /** Negating a wrapped value that is not MIN wraps the negation. */
  lemma NegateWrapped(x: int, m: nat)
    requires m >= 2 && m % 2 == 0 && TwosComplement(x, m) != -(m / 2)
    ensures -TwosComplement(x, m) == TwosComplement(-x, m)
  {
    var r := TwosComplement(x, m);
    var k := (r - x) / m;
    assert r - x == m * k;
    DivModUnique(-r - -x, m, -k, 0);
    TwosComplementUnique(-x, -r, m);
  }

  /**
   * read_i64: a magnitude of 2^63 after '-' is MIN; any other is cast to i64
   * (wrapping above 2^63) and then negated, which cannot overflow.
   */
  method ReadI64(buf: seq<u8>) returns (r: i64)
    ensures r == ParseSigned(buf, TWO_64)
  {
    if |buf| == 0 {
      return 0;
    }
    if buf[0] == MINUS {
      var mag := ReadU64(buf[1..]);
      if mag == 0x8000_0000_0000_0000 {
        r := -0x8000_0000_0000_0000;
      } else {
        var asSigned := TwosComplement(mag, TWO_64);
        assert asSigned != -0x8000_0000_0000_0000 by {
          if asSigned == -0x8000_0000_0000_0000 {
            TwosComplementUnique(mag, 0x8000_0000_0000_0000 - TWO_64, TWO_64);
            DivModUnique(asSigned - mag, TWO_64, -1, 0);
          }
        }
        NegateWrapped(mag, TWO_64);
        r := -asSigned;
      }
    } else {
      var u := ReadU64(buf);
      r := TwosComplement(u, TWO_64);
    }
  }

  /** "-" alone reads as zero. */
  lemma ParseMinusAlone(m: nat)
    requires m >= 2 && m % 2 == 0
    ensures ParseSigned([MINUS], m) == 0
  {
    assert DigitRun([MINUS][1..]) == [] && DecimalValue([]) == 0;
    DivModUnique(0, m, 0, 0);
    DivModUnique(m, 2, m / 2, 0);
  }

  /**
   * Signed round trip, MIN included: the text a signed writer produces for n in
   * the range of modulus m, alone or before a non-digit, reads back as n.
   */
  lemma SignedRoundTrip(n: int, rest: seq<u8>, m: nat)
    requires m >= 2 && m % 2 == 0 && -(m / 2) <= n < m / 2
    requires rest == [] || !IsDigit(rest[0])
    ensures ParseSigned(SignedDecimal(n) + rest, m) == n
  {
    var s := SignedDecimal(n) + rest;
    if n < 0 {
      assert s == [MINUS] + (Decimal(-n) + rest);
      assert s[0] == MINUS && s[1..] == Decimal(-n) + rest;
      UnsignedRoundTrip(-n, rest, m);
      assert ParseSigned(s, m) == TwosComplement(n, m);
    } else {
      assert s != [] && s[0] != MINUS;
      UnsignedRoundTrip(n, rest, m);
      assert ParseSigned(s, m) == TwosComplement(n, m);
    }
  }

  /** The signed text of n alone reads back as n. */
  lemma SignedTextRoundTrip(n: int, m: nat)
    requires m >= 2 && m % 2 == 0 && -(m / 2) <= n < m / 2
    ensures ParseSigned(SignedDecimal(n), m) == n
  {
    assert SignedDecimal(n) + [] == SignedDecimal(n);
    SignedRoundTrip(n, [], m);
  }

  /** i16::MIN, i32::MIN and i64::MIN read back exactly from their text. */
  lemma SignedMinRoundTrip()
    ensures ParseSigned(SignedDecimal(-0x8000), TWO_16) == -0x8000
    ensures ParseSigned(SignedDecimal(-0x8000_0000), TWO_32) == -0x8000_0000
    ensures ParseSigned(SignedDecimal(-0x8000_0000_0000_0000), TWO_64) == -0x8000_0000_0000_0000
  {
    SignedTextRoundTrip(-0x8000, TWO_16);
    SignedTextRoundTrip(-0x8000_0000, TWO_32);
    SignedTextRoundTrip(-0x8000_0000_0000_0000, TWO_64);
  }

  /** Without '-', a signed reader reinterprets the unsigned result as two's complement. */
  lemma ParseSignedNoMinus(s: seq<u8>, m: nat)
    requires m >= 2 && m % 2 == 0 && (s == [] || s[0] != MINUS)
    ensures var u := ParseUnsigned(s, m);
      ParseSigned(s, m) == (if u < m / 2 then u else u - m)
  {
    var u := ParseUnsigned(s, m);
    if s == [] {
      assert DigitRun(s) == [] && DecimalValue([]) == 0;
      DivModUnique(0, m, 0, 0);
      DivModUnique(m, 2, m / 2, m % 2);
    } else {
      assert ParseSigned(s, m) == TwosComplement(u, m);
      UnsignedAsSigned(u, m);
    }
  }
}
