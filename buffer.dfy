/**
 * The pre-initialised output buffer of a FIX 4.x message: the header
 * "8=<version><SOH>9=0000<SOH>35=" is laid down once, the body is written
 * after it, and the four-digit BodyLength placeholder is patched at the end.
 */
module Buffer {
  import opened Ascii
  import opened Writing
  import opened Reading

  /** Size of every buffer the builder hands out. */
  const FORGE_BUFFER_SIZE: nat := 1024
  /** Length of the header for a seven-byte version such as "FIX.4.4". */
  const FORGE_HEADER_LEN: nat := 20
  /** Offset of the "0000" BodyLength placeholder. */
  const BODY_LENGTH_VALUE_POS: nat := 12
  /** Offset at which the MsgType value is written. */
  const FORGE_WRITE_START: nat := 20
  /** "8=FIX.4.x<SOH>" plus "9=0000<SOH>": the bytes BodyLength does not count. */
  const BODY_LENGTH_PREFIX: nat := 17

  /** "8=" */
  const BEGIN_STRING_TAG: seq<u8> := [56, EQUALS]
  /** "<SOH>9=0000<SOH>35=" */
  const HEADER_SUFFIX: seq<u8> := [SOH, 57, EQUALS, ZERO, ZERO, ZERO, ZERO, SOH, 51, 53, EQUALS]
  /** "FIX.4.4" */
  const FIX44: seq<u8> := [70, 73, 88, 46, 52, 46, 52]

  /** The header for a version string: "8=" version "<SOH>9=0000<SOH>35=". */
  function HeaderText(version: seq<u8>): (h: seq<u8>)
    ensures |h| == 13 + |version|
    ensures h[..2] == BEGIN_STRING_TAG && h[2..2 + |version|] == version
    ensures h[2 + |version|..] == HEADER_SUFFIX
  {
    BEGIN_STRING_TAG + version + HEADER_SUFFIX
  }

  /**
   * A fresh buffer of FORGE_BUFFER_SIZE bytes holding the header and zeros
   * after it. The header must fit in the buffer.
   */
  method ForgeOutBuffer(version: seq<u8>) returns (buf: array<u8>)
    requires 13 + |version| <= FORGE_BUFFER_SIZE
    ensures fresh(buf) && buf.Length == FORGE_BUFFER_SIZE
    ensures buf[..|HeaderText(version)|] == HeaderText(version)
    ensures forall j :: |HeaderText(version)| <= j < buf.Length ==> buf[j] == 0
  {
    buf := new u8[FORGE_BUFFER_SIZE](_ => 0);
    ghost var zeros := buf[..];
    CopyBytes(buf, 0, BEGIN_STRING_TAG);
    CopyBytes(buf, 2, version);
    SpliceAdjacent(zeros, 0, BEGIN_STRING_TAG, version);
    CopyBytes(buf, 2 + |version|, HEADER_SUFFIX);
    SpliceAdjacent(zeros, 0, BEGIN_STRING_TAG + version, HEADER_SUFFIX);
    SpliceContents(zeros, 0, HeaderText(version));
  }

  /** The builder always starts the MsgType value at FORGE_WRITE_START, right after a FIX 4.x header. */
  function ForgeWriteStart(version: seq<u8>): (start: nat)
    ensures |version| == 7 ==> start == |HeaderText(version)|
  {
    FORGE_WRITE_START
  }

  /** For a seven-byte version the constants describe the header exactly. */
  lemma HeaderLayout(version: seq<u8>)
    requires |version| == 7
    ensures |HeaderText(version)| == FORGE_HEADER_LEN == FORGE_WRITE_START
    ensures HeaderText(version)[9] == SOH && HeaderText(version)[10..12] == [57, EQUALS]
    ensures HeaderText(version)[BODY_LENGTH_VALUE_POS..BODY_LENGTH_VALUE_POS + 4] == [ZERO, ZERO, ZERO, ZERO]
    ensures HeaderText(version)[16] == SOH && HeaderText(version)[17..20] == [51, 53, EQUALS]
    ensures BODY_LENGTH_PREFIX == |HeaderText(version)| - 3
  {
    var h := HeaderText(version);
    assert h[9..] == HEADER_SUFFIX;
  }

  /** The BodyLength value update_body_length stores: message length minus 17, wrapped to 16 bits. */
  function BodyLength(messageLength: nat): (b: u16)
    ensures BODY_LENGTH_PREFIX <= messageLength < BODY_LENGTH_PREFIX + TWO_16 ==> b == messageLength - BODY_LENGTH_PREFIX
  {
    (messageLength - BODY_LENGTH_PREFIX) % TWO_16
  }

  /** The four bytes of a BodyLength: thousands, hundreds, tens and units digits of b. */
  lemma FourDigits(b: nat)
    ensures Padded(b, 4) == [ZERO + (b / 1000) % 10, ZERO + (b / 100) % 10, ZERO + (b / 10) % 10, ZERO + b % 10]
  {
    assert b / 10 / 10 == b / 100 && b / 100 / 10 == b / 1000;
    assert Padded(b, 4) == Padded(b / 10, 3) + [ZERO + b % 10];
    assert Padded(b / 10, 3) == Padded(b / 100, 2) + [ZERO + (b / 10) % 10];
    assert Padded(b / 100, 2) == Padded(b / 1000, 1) + [ZERO + (b / 100) % 10];
  }

  /**
   * Overwrites buf[12..16] with the four digits of BodyLength(messageLength)
   * modulo 10000 and leaves every other byte alone.
   */
  method UpdateBodyLength(buf: array<u8>, messageLength: nat)
    requires BODY_LENGTH_VALUE_POS + 4 <= buf.Length
    modifies buf
    ensures buf[..] == Splice(old(buf[..]), BODY_LENGTH_VALUE_POS, Padded(BodyLength(messageLength), 4))
  {
    var bodyLength := BodyLength(messageLength);
    var thousands := (bodyLength / 1000) % 10;
    var hundreds := (bodyLength / 100) % 10;
    var tens := (bodyLength / 10) % 10;
    var units := bodyLength % 10;
    FourDigits(bodyLength);
    CopyBytes(buf, BODY_LENGTH_VALUE_POS, [ZERO + thousands, ZERO + hundreds, ZERO + tens, ZERO + units]);
  }

  /** Only the four placeholder bytes change, and they hold BodyLength modulo 10000. */
  lemma UpdateTouchesOnlyPlaceholder(s: seq<u8>, messageLength: nat)
    requires BODY_LENGTH_VALUE_POS + 4 <= |s|
    ensures var t := Splice(s, BODY_LENGTH_VALUE_POS, Padded(BodyLength(messageLength), 4));
      |t| == |s| && t[..BODY_LENGTH_VALUE_POS] == s[..BODY_LENGTH_VALUE_POS]
      && t[BODY_LENGTH_VALUE_POS + 4..] == s[BODY_LENGTH_VALUE_POS + 4..]
      && DecimalValue(t[BODY_LENGTH_VALUE_POS..BODY_LENGTH_VALUE_POS + 4]) == BodyLength(messageLength) % 10000
  {
    SpliceContents(s, BODY_LENGTH_VALUE_POS, Padded(BodyLength(messageLength), 4));
    PaddedValue(BodyLength(messageLength), 4);
    assert Pow10(4) == 10000;
  }

  /** A body of up to 9999 bytes reads back exactly from the patched placeholder. */
  lemma BodyLengthReadBack(messageLength: nat)
    requires BODY_LENGTH_PREFIX <= messageLength <= BODY_LENGTH_PREFIX + 9999
    ensures ParseUnsigned(Padded(BodyLength(messageLength), 4), TWO_16) == messageLength - BODY_LENGTH_PREFIX
  {
    var b := BodyLength(messageLength);
    assert Padded(b, 4) + [] == Padded(b, 4);
    DigitRunOfDigits(Padded(b, 4), []);
    PaddedValue(b, 4);
    assert Pow10(4) == 10000;
    DivModUnique(b, 10000, 0, b);
    DivModUnique(b, TWO_16, 0, b);
  }

  /** Patching the same length twice is the same as patching it once. */
  lemma UpdateIdempotent(s: seq<u8>, messageLength: nat)
    requires BODY_LENGTH_VALUE_POS + 4 <= |s|
    ensures var d := Padded(BodyLength(messageLength), 4);
      Splice(Splice(s, BODY_LENGTH_VALUE_POS, d), BODY_LENGTH_VALUE_POS, d) == Splice(s, BODY_LENGTH_VALUE_POS, d)
  {
    SpliceIdempotent(s, BODY_LENGTH_VALUE_POS, Padded(BodyLength(messageLength), 4));
  }

  /**
   * The builder's example: a FIX.4.4 header, MsgType "D", field 34=123, then
   * the BodyLength patch at the final position gives
   * "8=FIX.4.4<SOH>9=0012<SOH>35=D<SOH>34=123<SOH>".
   */
  lemma ExampleMessage()
    ensures var body := HeaderText(FIX44) + [68, SOH] + Field([51, 52, EQUALS], Decimal(123));
      |body| == 29 &&
      Splice(body, BODY_LENGTH_VALUE_POS, Padded(BodyLength(|body|), 4))
        == [56, EQUALS] + FIX44 + [SOH, 57, EQUALS, ZERO, ZERO, 49, 50, SOH, 51, 53, EQUALS, 68, SOH,
            51, 52, EQUALS, 49, 50, 51, SOH]
  {
    var body := HeaderText(FIX44) + [68, SOH] + Field([51, 52, EQUALS], Decimal(123));
    assert Decimal(1) == [49];
    DecimalAppend(1, 2);
    DecimalAppend(12, 3);
    assert |body| == 29;
    assert BodyLength(29) == 12;
    FourDigits(12);
    assert Padded(12, 4) == [ZERO, ZERO, 49, 50];
  }
}
