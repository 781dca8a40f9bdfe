/**
 * Byte and fixed-width integer types, and the ASCII decimal text that every
 * reader and writer of the codec produces or consumes.
 *
 * Integers are unbounded in Dafny; the Rust widths are subset types here, and
 * every wrap-around is written out as an explicit `%`.
 */
module Ascii {

  type u8 = x: int | 0 <= x < 0x100
  type u16 = x: int | 0 <= x < 0x1_0000
  type u32 = x: int | 0 <= x < 0x1_0000_0000
  type u64 = x: int | 0 <= x < 0x1_0000_0000_0000_0000
  type u128 = x: int | 0 <= x < 0x1_0000_0000_0000_0000_0000_0000_0000_0000
  type i16 = x: int | -0x8000 <= x < 0x8000
  type i32 = x: int | -0x8000_0000 <= x < 0x8000_0000
  type i64 = x: int | -0x8000_0000_0000_0000 <= x < 0x8000_0000_0000_0000

  /** Moduli of the unsigned widths. */
  const TWO_16: nat := 0x1_0000
  const TWO_32: nat := 0x1_0000_0000
  const TWO_64: nat := 0x1_0000_0000_0000_0000

  /** The field delimiter of the tag=value wire format. */
  const SOH: u8 := 0x01
  /** ASCII '0', '-', '.', ':', '=', 'Y' and 'N'. */
  const ZERO: u8 := 48
  const MINUS: u8 := 45
  const DOT: u8 := 46
  const COLON: u8 := 58
  const EQUALS: u8 := 61
  const YES: u8 := 89
  const NO: u8 := 78

  predicate IsDigit(b: int) {
    ZERO <= b <= ZERO + 9
  }

  predicate AllDigits(s: seq<int>) {
    forall i :: 0 <= i < |s| ==> IsDigit(s[i])
  }

  function Pow10(k: nat): (r: nat)
    ensures r >= 1
  {
    if k == 0 then 1 else 10 * Pow10(k - 1)
  }

  lemma {:induction false} Pow10Monotone(a: nat, b: nat)
    requires a <= b
    ensures Pow10(a) <= Pow10(b)
    decreases b
  {
    if a < b {
      Pow10Monotone(a, b - 1);
    }
  }

  /** `x as` a signed type of modulus m: the low bits of x read as two's complement. */
  function TwosComplement(x: int, m: nat): (r: int)
    requires m >= 2 && m % 2 == 0
    ensures -(m / 2) <= r < m / 2
    ensures (r - x) % m == 0
    ensures -(m / 2) <= x < m / 2 ==> r == x
  {
    var u := x % m;
    var c := if u >= m / 2 then -(x / m) - 1 else -(x / m);
    assert x == m * (x / m) + u;
    assert (if u >= m / 2 then u - m else u) - x == m * c;
    DivModUnique(m * c, m, c, 0);
    if -(m / 2) <= x < 0 then DivModUnique(x, m, -1, x + m); x
    else if 0 <= x < m / 2 then DivModUnique(x, m, 0, x); x
    else if u >= m / 2 then u - m else u
  }

  /** TwosComplement(x, m) is the only value of the signed range congruent to x modulo m. */
  lemma TwosComplementUnique(x: int, y: int, m: nat)
    requires m >= 2 && m % 2 == 0
    requires -(m / 2) <= y < m / 2 && (y - x) % m == 0
    ensures TwosComplement(x, m) == y
  {
    var r := TwosComplement(x, m);
    var a, b := (r - x) / m, (y - x) / m;
    assert r - x == m * a && y - x == m * b;
    assert r - y == m * (a - b);
    if a > b {
      MulAtLeast(m, a - b);
    } else if a < b {
      MulAtLeast(m, b - a);
    }
  }

  /** Casting an unsigned value to the signed type of the same width: values from m/2 up lose m. */
  lemma UnsignedAsSigned(u: int, m: nat)
    requires m >= 2 && m % 2 == 0 && 0 <= u < m
    ensures TwosComplement(u, m) == if u < m / 2 then u else u - m
  {
    if u >= m / 2 {
      DivModUnique(u - m - u, m, -1, 0);
      TwosComplementUnique(u, u - m, m);
    }
  }

  lemma MulAtLeast(d: int, t: int)
    requires d > 0 && t >= 1
    ensures d * t >= d
  {
    var u := t - 1;
    assert d * t == d + d * u;
    assert d * u >= 0;
  }

  /** Euclidean division is unique: n = d * k + r with 0 <= r < d fixes both. */
  lemma DivModUnique(n: int, d: int, k: int, r: int)
    requires d > 0 && 0 <= r < d && n == d * k + r
    ensures n / d == k && n % d == r
  {
    var q, s := n / d, n % d;
    assert n == d * q + s;
    assert d * k - d * q == s - r;
    assert d * k - d * q == d * (k - q);
    if k > q {
      MulAtLeast(d, k - q);
    } else if k < q {
      MulAtLeast(d, q - k);
    }
  }

  /** Dividing by b and then by p is dividing by b * p, and the remainders compose. */
  lemma DivModCompose(n: nat, b: nat, p: nat)
    requires b >= 1 && p >= 1
    ensures n / b / p == n / (b * p)
    ensures ((n / b) % p) * b + n % b == n % (b * p)
  {
    var q, r1 := n / b, n % b;
    var q2, r2 := q / p, q % p;
    assert n == b * q + r1;
    assert q == p * q2 + r2;
    assert b * q == (b * p) * q2 + b * r2 by {
      assert b * (p * q2 + r2) == b * (p * q2) + b * r2;
      assert b * (p * q2) == (b * p) * q2;
    }
    assert b * r2 + r1 < b * p by {
      var slack := p - 1 - r2;
      assert slack >= 0;
      assert b * slack >= 0;
      assert b * (p - 1) == b * r2 + b * slack;
      assert b * (p - 1) == b * p - b;
    }
    DivModUnique(n, b * p, q2, b * r2 + r1);
  }

  // ---------------------------------------------------------------------------
  // Decimal text
  // ---------------------------------------------------------------------------

  /** The decimal text of n: most significant digit first, "0" for zero, no leading zero. */
  function Decimal(n: nat): (s: seq<u8>)
    ensures 1 <= |s| && AllDigits(s)
    ensures |s| == 1 <==> n < 10
    ensures |s| > 1 ==> s[0] != ZERO
  {
    if n < 10 then [ZERO + n] else Decimal(n / 10) + [ZERO + n % 10]
  }

  /** The number a run of ASCII digits denotes. */
  function DecimalValue(s: seq<u8>): (n: nat)
    requires AllDigits(s)
    ensures n < Pow10(|s|)
  {
    if s == [] then 0
    else
      var p := DecimalValue(s[..|s| - 1]);
      assert p <= Pow10(|s| - 1) - 1;
      p * 10 + (s[|s| - 1] - ZERO)
  }

  /** The low w decimal digits of n, zero padded on the left. */
  function Padded(n: nat, w: nat): (s: seq<u8>)
    ensures |s| == w && AllDigits(s)
  {
    if w == 0 then [] else Padded(n / 10, w - 1) + [ZERO + n % 10]
  }

  /** The decimal text of a signed value: a '-' before the magnitude of a negative one. */
  function SignedDecimal(n: int): (s: seq<u8>)
    ensures |s| >= 1
    ensures n < 0 <==> s[0] == MINUS
    ensures n < 0 ==> s == [MINUS] + Decimal(-n)
    ensures n >= 0 ==> s == Decimal(n)
  {
    if n < 0 then [MINUS] + Decimal(-n) else Decimal(n)
  }

  /** Decimal text read back gives the number written. */
  lemma {:induction false} DecimalRoundTrip(n: nat)
    ensures DecimalValue(Decimal(n)) == n
    decreases n
  {
    if n >= 10 {
      DecimalRoundTrip(n / 10);
      var s := Decimal(n);
      assert s[..|s| - 1] == Decimal(n / 10);
    }
  }

  /** Text with no leading zero is the decimal text of the number it denotes. */
  lemma {:induction false} DecimalOfValue(s: seq<u8>)
    requires AllDigits(s) && |s| >= 1
    requires |s| > 1 ==> s[0] != ZERO
    ensures Decimal(DecimalValue(s)) == s
    decreases |s|
  {
    var p := s[..|s| - 1];
    if |s| > 1 {
      assert p[0] == s[0];
      DecimalOfValue(p);
      if |p| > 1 {
        assert DecimalValue(p) >= 10 by { DecimalLength(DecimalValue(p)); }
      } else {
        assert DecimalValue(p) >= 1 by { assert DecimalValue(p[..0]) == 0; }
      }
      assert p + [s[|s| - 1]] == s;
    }
  }

  /** The length of the decimal text is the digit count: 10^(d-1) <= n < 10^d, or d = 1. */
  lemma {:induction false} DecimalLength(n: nat)
    ensures n < Pow10(|Decimal(n)|)
    ensures |Decimal(n)| == 1 || Pow10(|Decimal(n)| - 1) <= n
    decreases n
  {
    if n >= 10 {
      DecimalLength(n / 10);
    }
  }

  /** The digit count is the only d with 10^(d-1) <= n < 10^d (or d = 1 and n < 10). */
  lemma DigitCountIsLength(n: nat, d: nat)
    requires 1 <= d && n < Pow10(d)
    requires d == 1 || Pow10(d - 1) <= n
    ensures |Decimal(n)| == d
  {
    DecimalLength(n);
    var e := |Decimal(n)|;
    if e < d {
      Pow10Monotone(e, d - 1);
    } else if d < e {
      Pow10Monotone(d, e - 1);
    }
  }

  /** Two digits at a time: the text of n >= 100 is the text of n / 100 followed by n % 100 padded to two. */
  lemma DecimalPeelPair(n: nat)
    requires n >= 100
    ensures Decimal(n) == Decimal(n / 100) + Padded(n % 100, 2)
  {
    assert n / 10 / 10 == n / 100;
    assert (n / 10) % 10 == (n % 100) / 10;
  }

  /** A value in 10..99 is exactly its two padded digits. */
  lemma DecimalTwoDigits(n: nat)
    requires 10 <= n < 100
    ensures Decimal(n) == Padded(n, 2)
  {
  }

  /** One more digit on the right: ten times the value plus the digit. */
  lemma DecimalValueSnoc(s: seq<u8>, b: u8)
    requires AllDigits(s) && IsDigit(b)
    ensures AllDigits(s + [b])
    ensures DecimalValue(s + [b]) == DecimalValue(s) * 10 + (b - ZERO)
  {
    assert (s + [b])[..|s|] == s;
  }

  /** Two padded digits of k < 100 are its tens digit and its units digit, and they read back as k. */
  lemma PaddedTwo(k: nat)
    requires k < 100
    ensures Padded(k, 2) == [ZERO + k / 10, ZERO + k % 10]
    ensures DecimalValue(Padded(k, 2)) == k
  {
    assert Padded(k, 2) == Padded(k / 10, 1) + [ZERO + k % 10];
    assert Padded(k / 10, 1) == [ZERO + k / 10 % 10];
    PaddedValue(k, 2);
    assert Pow10(2) == 100;
  }

  /** Padded digits denote n modulo 10^w. */
  lemma {:induction false} PaddedValue(n: nat, w: nat)
    ensures DecimalValue(Padded(n, w)) == n % Pow10(w)
    decreases w
  {
    if w > 0 {
      PaddedValue(n / 10, w - 1);
      var s := Padded(n, w);
      assert s[..w - 1] == Padded(n / 10, w - 1);
      PaddedModStep(n, Pow10(w - 1));
    }
  }

  lemma PaddedModStep(n: nat, p: nat)
    requires p >= 1
    ensures ((n / 10) % p) * 10 + n % 10 == n % (10 * p)
    ensures (n % (10 * p)) / 10 == (n / 10) % p
    ensures (n % (10 * p)) % 10 == n % 10
  {
    var q := n / 10;
    var rest := 10 * (q % p) + n % 10;
    assert q == p * (q / p) + q % p;
    assert n == (10 * p) * (q / p) + rest;
    DivModUnique(n, 10 * p, q / p, rest);
    DivModUnique(rest, 10, q % p, n % 10);
  }

  /** Padding splits into a padded prefix and the last two digits. */
  lemma PaddedPeelPair(n: nat, w: nat)
    ensures Padded(n, w + 2) == Padded(n / 100, w) + Padded(n % 100, 2)
  {
    assert n / 10 / 10 == n / 100;
    assert (n / 10) % 10 == (n % 100) / 10;
  }

  /** Padding depends on n only modulo 10^w. */
  lemma {:induction false} PaddedMod(n: nat, w: nat)
    ensures Padded(n, w) == Padded(n % Pow10(w), w)
    decreases w
  {
    if w > 0 {
      var p := Pow10(w - 1);
      PaddedModStep(n, p);
      PaddedMod(n / 10, w - 1);
      PaddedMod((n / 10) % p, w - 1);
      assert ((n / 10) % p) % p == (n / 10) % p by {
        DivModUnique((n / 10) % p, p, 0, (n / 10) % p);
      }
    }
  }

  /** A value below 10^w is its decimal text preceded by zeros. */
  lemma {:induction false} PaddedIsDecimal(n: nat, w: nat)
    requires n < Pow10(w) && |Decimal(n)| <= w
    ensures Padded(n, w) == seq(w - |Decimal(n)|, _ => ZERO) + Decimal(n)
    decreases w
  {
    if n < 10 {
      if w > 1 {
        PaddedIsDecimal(n / 10, w - 1);
        assert Decimal(0) == [ZERO];
        assert seq(w - 1 - 1, _ => ZERO) + [ZERO] == seq(w - 1, _ => ZERO);
      }
    } else {
      PaddedIsDecimal(n / 10, w - 1);
    }
  }

  // ---------------------------------------------------------------------------
  // Buffers
  // ---------------------------------------------------------------------------

  /** The buffer s with x copied over it starting at `at`; everything else is kept. */
  function Splice(s: seq<u8>, at: nat, x: seq<u8>): (r: seq<u8>)
    requires at + |x| <= |s|
    ensures |r| == |s|
  {
    s[..at] + x + s[at + |x|..]
  }

  /** The window of a splice holds x, and every byte outside it is kept. */
  lemma SpliceContents(s: seq<u8>, at: nat, x: seq<u8>)
    requires at + |x| <= |s|
    ensures Splice(s, at, x)[at..at + |x|] == x
    ensures Splice(s, at, x)[..at] == s[..at]
    ensures Splice(s, at, x)[at + |x|..] == s[at + |x|..]
    ensures forall j :: 0 <= j < |s| && !(at <= j < at + |x|) ==> Splice(s, at, x)[j] == s[j]
  {
  }

  /** Writing x and then y right after it is writing x + y. */
  lemma SpliceAdjacent(s: seq<u8>, at: nat, x: seq<u8>, y: seq<u8>)
    requires at + |x| + |y| <= |s|
    ensures Splice(Splice(s, at, x), at + |x|, y) == Splice(s, at, x + y)
  {
    var l := Splice(Splice(s, at, x), at + |x|, y);
    var r := Splice(s, at, x + y);
    assert forall j :: 0 <= j < |s| ==> l[j] == r[j] by {
      forall j | 0 <= j < |s| ensures l[j] == r[j] {
        if at <= j < at + |x| {
          assert l[j] == Splice(s, at, x)[at..at + |x|][j - at];
          assert r[j] == r[at..at + |x| + |y|][j - at];
        } else if at + |x| <= j < at + |x| + |y| {
          assert l[j] == l[at + |x|..at + |x| + |y|][j - at - |x|];
          assert r[j] == r[at..at + |x| + |y|][j - at];
        }
      }
    }
  }

  /** Writing the same bytes twice at the same place is writing them once. */
  lemma SpliceIdempotent(s: seq<u8>, at: nat, x: seq<u8>)
    requires at + |x| <= |s|
    ensures Splice(Splice(s, at, x), at, x) == Splice(s, at, x)
  {
    var once := Splice(s, at, x);
    assert once[..at] + x + once[at + |x|..] == once;
  }

  /** Writing y and then x right before it is writing x + y. */
  lemma SplicePrepend(s: seq<u8>, at: nat, x: seq<u8>, y: seq<u8>)
    requires at + |x| + |y| <= |s|
    ensures Splice(Splice(s, at + |x|, y), at, x) == Splice(s, at, x + y)
  {
    var l := Splice(Splice(s, at + |x|, y), at, x);
    var r := Splice(s, at, x + y);
    assert l == s[..at] + x + y + s[at + |x| + |y|..];
    assert r == s[..at] + (x + y) + s[at + |x| + |y|..];
  }

  /** Storing one byte is splicing a one-byte sequence. */
  lemma SpliceOne(s: seq<u8>, at: nat, b: u8)
    requires at < |s|
    ensures s[at := b] == Splice(s, at, [b])
  {
  }
}
