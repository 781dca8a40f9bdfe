/**
 * Unique identifiers: a process tag in the high 32 bits, a wrapping counter in
 * the low 32 bits, rendered as exactly thirteen base-36 characters
 * (0-9 then A-Z), most significant first.
 */
module Special {
  import opened Ascii
  import opened Writing

  /** ASCII 'A'. */
  const UPPER_A: u8 := 65

  predicate IsBase36Char(c: int) {
    ZERO <= c <= ZERO + 9 || UPPER_A <= c <= UPPER_A + 25
  }

  /** The value 0..35 of a base-36 character. */
  function Base36CharValue(c: u8): nat
    requires IsBase36Char(c)
  {
    if c <= ZERO + 9 then c - ZERO else c - UPPER_A + 10
  }

  /** The base-36 character of a remainder: '0'..'9' for 0..9, 'A'..'Z' for 10..35. */
  function Digit36(rem: nat): (c: u8)
    requires rem < 36
    ensures IsBase36Char(c) && Base36CharValue(c) == rem
    ensures rem < 10 <==> IsDigit(c)
  {
    if rem < 10 then ZERO + rem else UPPER_A + (rem - 10)
  }

  /** The digit table of the encoder's tests. */
  lemma Digit36Examples()
    ensures Digit36(0) == 48 && Digit36(9) == 57 && Digit36(10) == 65 && Digit36(35) == 90
  {
  }

  function Pow36(k: nat): (r: nat)
    ensures r >= 1
  {
    if k == 0 then 1 else 36 * Pow36(k - 1)
  }

  /** The low w base-36 digits of n, zero padded, most significant first. */
  function Base36Text(n: nat, w: nat): (s: seq<u8>)
    ensures |s| == w
    ensures forall j :: 0 <= j < |s| ==> IsBase36Char(s[j])
  {
    if w == 0 then [] else Base36Text(n / 36, w - 1) + [Digit36(n % 36)]
  }

  /** The number a run of base-36 characters denotes. */
  function Base36Value(s: seq<u8>): nat
    requires forall j :: 0 <= j < |s| ==> IsBase36Char(s[j])
  {
    if s == [] then 0 else Base36Value(s[..|s| - 1]) * 36 + Base36CharValue(s[|s| - 1])
  }

  /** Decoding w characters of n gives n modulo 36^w. */
  lemma {:induction false} Base36RoundTripMod(n: nat, w: nat)
    ensures Base36Value(Base36Text(n, w)) == n % Pow36(w)
    decreases w
  {
    if w == 0 {
      DivModUnique(n, 1, n, 0);
    } else {
      var s := Base36Text(n, w);
      assert s[..w - 1] == Base36Text(n / 36, w - 1);
      Base36RoundTripMod(n / 36, w - 1);
      DivModCompose(n, 36, Pow36(w - 1));
    }
  }

  /** 36^13 exceeds 2^64, so thirteen characters hold every u64. */
  lemma Pow36Of13()
    ensures Pow36(13) == 170_581_728_179_578_208_256 && Pow36(13) > TWO_64
  {
  }

  /** Thirteen base-36 characters of a u64 decode back to it exactly. */
  lemma Base36RoundTrip(n: u64)
    ensures Base36Value(Base36Text(n, 13)) == n
  {
    Base36RoundTripMod(n, 13);
    Pow36Of13();
    DivModUnique(n, Pow36(13), 0, n);
  }

  /** The text of w + 1 digits is the digit of n / 36^w followed by the text of w digits. */
  lemma {:induction false} Base36TextCons(n: nat, w: nat)
    ensures Base36Text(n, w + 1) == [Digit36((n / Pow36(w)) % 36)] + Base36Text(n, w)
    decreases w
  {
    if w > 0 {
      Base36TextCons(n / 36, w - 1);
      DivModCompose(n, 36, Pow36(w - 1));
    }
  }

  /** One step of the encoder: the next quotient and the digit it puts in front. */
  lemma Base36Step(n: nat, i: nat, m: nat)
    requires m == n / Pow36(i)
    ensures m / 36 == n / Pow36(i + 1)
    ensures Base36Text(n, i + 1) == [Digit36(m % 36)] + Base36Text(n, i)
  {
    Base36TextCons(n, i);
    DivModCompose(n, Pow36(i), 36);
  }

  /** Storing one byte just before a spliced run extends the run by that byte. */
  lemma SpliceStep(before: seq<u8>, prev: seq<u8>, at: nat, b: u8, x: seq<u8>)
    requires at + 1 + |x| <= |before| && prev == Splice(before, at + 1, x)
    ensures prev[at := b] == Splice(before, at, [b] + x)
  {
    SplicePrepend(before, at, [b], x);
    SpliceOne(prev, at, b);
  }

  /** The encoder's examples: 0 is thirteen '0's and 35 is twelve '0's and a 'Z'. */
  lemma Base36Examples()
    ensures Base36Text(0, 13) == seq(13, _ => ZERO)
    ensures Base36Text(35, 13) == seq(12, _ => ZERO) + [90]
  {
    assert Base36Text(0, 12) == seq(12, _ => ZERO);
    assert Base36Text(0, 13) == Base36Text(0, 12) + [ZERO];
  }

  /**
   * Writes the thirteen base-36 characters of n at offset and returns 13, or,
   * when fewer than thirteen bytes remain from offset, writes nothing and
   * returns 0.
   */
  method EncodeBase36Fixed13(dst: array<u8>, offset: nat, n: u64) returns (written: nat)
    modifies dst
    ensures written == (if offset + 13 <= dst.Length then 13 else 0)
    ensures offset + 13 <= dst.Length ==> dst[..] == Splice(old(dst[..]), offset, Base36Text(n, 13))
    ensures offset + 13 > dst.Length ==> dst[..] == old(dst[..])
  {
    var room := if dst.Length >= offset then dst.Length - offset else 0;
    if room < 13 {
      return 0;
    }
    ghost var before := dst[..];
    var m := n;
    for i := 0 to 13
      invariant m == n / Pow36(i)
      invariant dst[..] == Splice(before, offset + 13 - i, Base36Text(n, i))
    {
      var q := m / 36;
      var rem := m - q * 36;
      Base36Step(n, i, m);
      ghost var prev := dst[..];
      dst[offset + 12 - i] := Digit36(rem);
      SpliceStep(before, prev, offset + 12 - i, Digit36(rem), Base36Text(n, i));
      m := q;
    }
    written := 13;
  }

  // ---------------------------------------------------------------------------
  // Identifiers
  // ---------------------------------------------------------------------------

  /** The id of a counter value: the process tag above the counter's low 32 bits. */
  function IdOf(tag: u32, counter: nat): (id: u64)
    ensures id / TWO_32 == tag && id % TWO_32 == counter % TWO_32
  {
    var id := tag * TWO_32 + counter % TWO_32;
    DivModUnique(id, TWO_32, tag, counter % TWO_32);
    id
  }

  /** The seed of the process tag: the process id xor-ed with rotated addresses (layout noise). */
  function EntropySeed(pid: bv64, tagAddr: bv64, counterAddr: bv64, codeAddr: bv64, stackAddr: bv64): bv64 {
    pid ^ tagAddr.RotateLeft(7) ^ counterAddr.RotateLeft(17) ^ codeAddr.RotateLeft(29) ^ stackAddr.RotateLeft(3)
  }

  /** The splitmix64 mixer, all arithmetic wrapping at 2^64. */
  function SplitMix64(seed: bv64): bv64 {
    var x := seed + 0x9E37_79B9_7F4A_7C15;
    var z1 := (x ^ (x >> 30)) * 0xBF58_476D_1CE4_E5B9;
    var z2 := (z1 ^ (z1 >> 27)) * 0x94D0_49BB_1331_11EB;
    z2 ^ (z2 >> 31)
  }

  /** The process tag fold: the two halves of the mixed entropy added, rotated left by 5, and 0 moved to 1. */
  function FoldTag(mixed: u64): (t: u32)
    ensures t != 0
  {
    var lo := (mixed % TWO_32) as bv32;
    var hi := (mixed / TWO_32) as bv32;
    var folded := (lo + hi).RotateLeft(5);
    if folded == 0 then 1 else folded as int
  }

  /** Rotation loses nothing: the fold is 0 before the remap only for a zero sum. */
  lemma RotationIsInvertible(x: bv32)
    ensures x.RotateLeft(5).RotateRight(5) == x
    ensures x.RotateLeft(5) == 0 <==> x == 0
  {
  }

  /** The counter after k more ids: it rises by one per id and wraps at 2^64. */
  function CounterAfter(start: u64, k: nat): (c: u64)
    ensures c % TWO_32 == (start + k) % TWO_32
  {
    var c := (start + k) % TWO_64;
    DivModCompose(start + k, TWO_32, TWO_32);
    DivModUnique(c, TWO_32, ((start + k) / TWO_32) % TWO_32, (start + k) % TWO_32);
    c
  }

  /** Counting one id after k is counting k + 1. */
  lemma CounterAfterStep(start: u64, k: nat)
    ensures CounterAfter(CounterAfter(start, k), 1) == CounterAfter(start, k + 1)
  {
    var q := (start + k) / TWO_64;
    var c := CounterAfter(start, k);
    assert start + k == TWO_64 * q + c;
    if c + 1 < TWO_64 {
      DivModUnique(start + k + 1, TWO_64, q, c + 1);
    } else {
      DivModUnique(start + k + 1, TWO_64, q + 1, 0);
    }
  }

  /**
   * Any two ids minted fewer than 2^32 ids apart under one tag differ: their
   * low 32 bits are different counter values.
   */
  lemma IdsDistinct(tag: u32, start: u64, j: nat, k: nat)
    requires j < k < j + TWO_32
    ensures IdOf(tag, CounterAfter(start, j)) != IdOf(tag, CounterAfter(start, k))
  {
  }

  /**
   * The process-wide id state: the lazily computed tag (0 until first use) and
   * the counter. The tag's entropy arrives as a seed (EntropySeed of the
   * process id and addresses), since those are platform values.
   */
  class IdGenerator {
    var counter: u64
    var processTag: u32

    constructor ()
      ensures counter == 0 && processTag == 0
    {
      counter := 0;
      processTag := 0;
    }

    /** The tag is computed from the entropy on first use, then never changes, and is never 0. */
    method ProcessTag(seed: bv64) returns (t: u32)
      modifies this`processTag
      ensures t != 0 && processTag == t
      ensures old(processTag) != 0 ==> t == old(processTag)
      ensures old(processTag) == 0 ==> t == FoldTag(SplitMix64(seed) as int)
    {
      if processTag == 0 {
        processTag := FoldTag(SplitMix64(seed) as int);
      }
      t := processTag;
    }

    /** Mints the id of the current counter value and advances the counter by one, wrapping at 2^64. */
    method NextId(seed: bv64) returns (id: u64)
      modifies this
      ensures processTag != 0 && (old(processTag) != 0 ==> processTag == old(processTag))
      ensures old(processTag) == 0 ==> processTag == FoldTag(SplitMix64(seed) as int)
      ensures id == IdOf(processTag, old(counter))
      ensures counter == CounterAfter(old(counter), 1)
    {
      var tag := ProcessTag(seed);
      var n := counter % TWO_32;
      counter := (counter + 1) % TWO_64;
      id := tag * TWO_32 + n;
    }
  }

  /**
   * Writes tag ++ the thirteen base-36 characters of a fresh id ++ SOH. When
   * fewer than thirteen bytes follow the tag, the encoder writes nothing and
   * the SOH lands right after the tag. The SOH store is unchecked, so the
   * caller must leave room for it on either path: exactly thirteen bytes
   * after the tag would put it one past the end.
   */
  method WriteTagAndClOrdID(gen: IdGenerator, bytes: array<u8>, offset: nat, tagAndEq: seq<u8>, seed: bv64)
    returns (len: nat)
    requires offset + |tagAndEq| + 1 <= bytes.Length
    requires bytes.Length != offset + |tagAndEq| + 13
    modifies gen, bytes
    ensures gen.processTag != 0 && gen.counter == CounterAfter(old(gen.counter), 1)
    ensures old(gen.processTag) != 0 ==> gen.processTag == old(gen.processTag)
    ensures old(gen.processTag) == 0 ==> gen.processTag == FoldTag(SplitMix64(seed) as int)
    ensures offset + |tagAndEq| + 13 <= bytes.Length ==>
      len == |tagAndEq| + 14 &&
      bytes[..] == Splice(old(bytes[..]), offset, Field(tagAndEq, Base36Text(IdOf(gen.processTag, old(gen.counter)), 13)))
    ensures offset + |tagAndEq| + 13 > bytes.Length ==>
      len == |tagAndEq| + 1 && bytes[..] == Splice(old(bytes[..]), offset, Field(tagAndEq, []))
  {
    ghost var before := bytes[..];
    CopyBytes(bytes, offset, tagAndEq);
    var pos := |tagAndEq|;
    var id := gen.NextId(seed);
    var n := EncodeBase36Fixed13(bytes, offset + pos, id);
    ghost var value := if n == 13 then Base36Text(id, 13) else [];
    assert bytes[..] == Splice(before, offset, tagAndEq + value) by {
      if n == 13 {
        SpliceAdjacent(before, offset, tagAndEq, value);
      } else {
        assert tagAndEq + value == tagAndEq;
      }
    }
    pos := pos + n;
    PutByte(bytes, offset + pos, SOH);
    SpliceAdjacent(before, offset, tagAndEq + value, [SOH]);
    len := pos + 1;
  }

  /** A ClOrdID field written with room reads back as the id it was minted from. */
  lemma ClOrdIDReadBack(tagAndEq: seq<u8>, id: u64)
    ensures var f := Field(tagAndEq, Base36Text(id, 13));
      |f| == |tagAndEq| + 14 && f[|f| - 1] == SOH &&
      Base36Value(f[|tagAndEq|..|tagAndEq| + 13]) == id
  {
    var f := Field(tagAndEq, Base36Text(id, 13));
    assert f[|tagAndEq|..|tagAndEq| + 13] == Base36Text(id, 13);
    Base36RoundTrip(id);
  }
}
