/**
 * The 200-byte digit-pair table: entry k (0 <= k < 100) is the two ASCII
 * digits of k, at bytes 2k and 2k+1. Every writer fills its output two digits
 * at a time from this table.
 */
module DigitPairs {
  import opened Ascii

  /** The table's bytes, ten pairs ("00".."09", "10".."19", ...) per row. */
  const ROWS: seq<seq<u8>> := [
    [48, 48, 48, 49, 48, 50, 48, 51, 48, 52, 48, 53, 48, 54, 48, 55, 48, 56, 48, 57],
    [49, 48, 49, 49, 49, 50, 49, 51, 49, 52, 49, 53, 49, 54, 49, 55, 49, 56, 49, 57],
    [50, 48, 50, 49, 50, 50, 50, 51, 50, 52, 50, 53, 50, 54, 50, 55, 50, 56, 50, 57],
    [51, 48, 51, 49, 51, 50, 51, 51, 51, 52, 51, 53, 51, 54, 51, 55, 51, 56, 51, 57],
    [52, 48, 52, 49, 52, 50, 52, 51, 52, 52, 52, 53, 52, 54, 52, 55, 52, 56, 52, 57],
    [53, 48, 53, 49, 53, 50, 53, 51, 53, 52, 53, 53, 53, 54, 53, 55, 53, 56, 53, 57],
    [54, 48, 54, 49, 54, 50, 54, 51, 54, 52, 54, 53, 54, 54, 54, 55, 54, 56, 54, 57],
    [55, 48, 55, 49, 55, 50, 55, 51, 55, 52, 55, 53, 55, 54, 55, 55, 55, 56, 55, 57],
    [56, 48, 56, 49, 56, 50, 56, 51, 56, 52, 56, 53, 56, 54, 56, 55, 56, 56, 56, 57],
    [57, 48, 57, 49, 57, 50, 57, 51, 57, 52, 57, 53, 57, 54, 57, 55, 57, 56, 57, 57]
  ]

  /** The 200 bytes of the table, the rows laid end to end. */
  const DIGIT_PAIRS: seq<u8> := seq(200, i requires 0 <= i < 200 =>
    if i / 20 < |ROWS| && i % 20 < |ROWS[i / 20]| then ROWS[i / 20][i % 20] else 0)

  lemma Row0(j: nat)
    requires j < 10
    ensures |ROWS| == 10 && |ROWS[0]| == 20 && ROWS[0][2 * j] == ZERO + 0 && ROWS[0][2 * j + 1] == ZERO + j
  {
  }

  lemma Row1(j: nat)
    requires j < 10
    ensures |ROWS| == 10 && |ROWS[1]| == 20 && ROWS[1][2 * j] == ZERO + 1 && ROWS[1][2 * j + 1] == ZERO + j
  {
  }

  lemma Row2(j: nat)
    requires j < 10
    ensures |ROWS| == 10 && |ROWS[2]| == 20 && ROWS[2][2 * j] == ZERO + 2 && ROWS[2][2 * j + 1] == ZERO + j
  {
  }

  lemma Row3(j: nat)
    requires j < 10
    ensures |ROWS| == 10 && |ROWS[3]| == 20 && ROWS[3][2 * j] == ZERO + 3 && ROWS[3][2 * j + 1] == ZERO + j
  {
  }

  lemma Row4(j: nat)
    requires j < 10
    ensures |ROWS| == 10 && |ROWS[4]| == 20 && ROWS[4][2 * j] == ZERO + 4 && ROWS[4][2 * j + 1] == ZERO + j
  {
  }

  lemma Row5(j: nat)
    requires j < 10
    ensures |ROWS| == 10 && |ROWS[5]| == 20 && ROWS[5][2 * j] == ZERO + 5 && ROWS[5][2 * j + 1] == ZERO + j
  {
  }

  lemma Row6(j: nat)
    requires j < 10
    ensures |ROWS| == 10 && |ROWS[6]| == 20 && ROWS[6][2 * j] == ZERO + 6 && ROWS[6][2 * j + 1] == ZERO + j
  {
  }

  lemma Row7(j: nat)
    requires j < 10
    ensures |ROWS| == 10 && |ROWS[7]| == 20 && ROWS[7][2 * j] == ZERO + 7 && ROWS[7][2 * j + 1] == ZERO + j
  {
  }

  lemma Row8(j: nat)
    requires j < 10
    ensures |ROWS| == 10 && |ROWS[8]| == 20 && ROWS[8][2 * j] == ZERO + 8 && ROWS[8][2 * j + 1] == ZERO + j
  {
  }

  lemma Row9(j: nat)
    requires j < 10
    ensures |ROWS| == 10 && |ROWS[9]| == 20 && ROWS[9][2 * j] == ZERO + 9 && ROWS[9][2 * j + 1] == ZERO + j
  {
  }

  /** Row r holds the pairs of 10r .. 10r+9: tens digit r, units digit j. */
  lemma RowDigits(r: nat, j: nat)
    requires r < 10 && j < 10
    ensures |ROWS| == 10 && |ROWS[r]| == 20
    ensures ROWS[r][2 * j] == ZERO + r && ROWS[r][2 * j + 1] == ZERO + j
  {
    if r == 0 {
      Row0(j);
    } else 
    if r == 1 {
      Row1(j);
    } else 
    if r == 2 {
      Row2(j);
    } else 
    if r == 3 {
      Row3(j);
    } else 
    if r == 4 {
      Row4(j);
    } else 
    if r == 5 {
      Row5(j);
    } else 
    if r == 6 {
      Row6(j);
    } else 
    if r == 7 {
      Row7(j);
    } else 
    if r == 8 {
      Row8(j);
    } else 
    {
      Row9(j);
    }
  }

  /** The pair at 2k holds the tens digit of k, then its units digit. */
  lemma PairDigits(k: nat)
    requires k < 100
    ensures DIGIT_PAIRS[2 * k] == ZERO + k / 10 && DIGIT_PAIRS[2 * k + 1] == ZERO + k % 10
  {
    var r, j := k / 10, k % 10;
    RowDigits(r, j);
    TableByte(2 * k, r, 2 * j);
    TableByte(2 * k + 1, r, 2 * j + 1);
  }

  /** Byte 20r + c of the table is byte c of row r. */
  lemma TableByte(i: nat, r: nat, c: nat)
    requires r < 10 && c < 20 && i == 20 * r + c
    ensures |DIGIT_PAIRS| == 200 && DIGIT_PAIRS[i] == ROWS[r][c]
  {
    RowDigits(r, 0);
    DivModUnique(i, 20, r, c);
  }

  /** Both bytes of pair k are ASCII digits. */
  lemma PairIsDigits(i: nat, k: nat)
    requires k < 100 && (i == 2 * k || i == 2 * k + 1)
    ensures IsDigit(DIGIT_PAIRS[i])
  {
    PairDigits(k);
  }

  /** Every entry of the table is an ASCII digit. */
  lemma TableDigits()
    ensures |DIGIT_PAIRS| == 200 && AllDigits(DIGIT_PAIRS)
  {
    forall i | 0 <= i < |DIGIT_PAIRS|
      ensures IsDigit(DIGIT_PAIRS[i])
    {
      PairIsDigits(i, i / 2);
    }
  }

  lemma SliceTwo(s: seq<u8>, j: nat)
    requires j + 2 <= |s|
    ensures s[j..j + 2] == [s[j], s[j + 1]]
  {
  }

  /** The pair at 2k is k zero padded to two digits; read back, it gives k. */
  lemma PairAt(k: nat)
    requires k < 100
    ensures |DIGIT_PAIRS| == 200
    ensures DIGIT_PAIRS[2 * k..2 * k + 2] == Padded(k, 2)
    ensures DecimalValue(DIGIT_PAIRS[2 * k..2 * k + 2]) == k
  {
    PairDigits(k);
    PaddedTwo(k);
    SliceTwo(DIGIT_PAIRS, 2 * k);
  }

  /** Copies pair k of the table to buf[i] and buf[i+1], as every writer does per two digits. */
  method PutPair(buf: array<u8>, i: nat, k: nat)
    requires k < 100 && i + 2 <= buf.Length
    modifies buf
    ensures buf[..] == Splice(old(buf[..]), i, Padded(k, 2))
  {
    PairAt(k);
    buf[i] := DIGIT_PAIRS[k * 2];
    buf[i + 1] := DIGIT_PAIRS[k * 2 + 1];
    assert buf[i..i + 2] == DIGIT_PAIRS[2 * k..2 * k + 2];
    assert buf[..] == old(buf[..])[..i] + buf[i..i + 2] + old(buf[..])[i + 2..];
  }
}
