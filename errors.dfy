/**
 * The parse error taxonomy: a missing-members error carrying a 64-bit mask
 * over a table of (name, tag, kind) entries, and an invalid-value error; the
 * rendering of both as text and the extraction of the missing names.
 */
module Errors {
  import opened Ascii

  datatype Option<T> = None | Some(value: T)

  /** One entry of a message's member table. Kind 0 is a field, 1 a component, 2 a group (whose tag is its count tag). */
  datatype Member = Member(name: string, tag: u16, kind: u8)

  datatype ReadError =
    | MissingRequiredFields(missingMask: u64, meta: seq<Member>)
    | InvalidValue(name: string, tag: u16, msg: string)

  function Pow2(k: nat): (r: nat)
    ensures r >= 1
  {
    if k == 0 then 1 else 2 * Pow2(k - 1)
  }

  /** Bit i of the mask: (mask >> i) & 1 == 1. */
  predicate Bit(mask: nat, i: nat) {
    (mask / Pow2(i)) % 2 == 1
  }

  /** The members whose bit is set, in table order. */
  function Missing(mask: nat, meta: seq<Member>): seq<Member>
    decreases |meta|
  {
    if meta == [] then []
    else
      var rest := Missing(mask, meta[..|meta| - 1]);
      if Bit(mask, |meta| - 1) then rest + [meta[|meta| - 1]] else rest
  }

  /** Scanning one more table entry appends it exactly when its bit is set. */
  lemma MissingStep(mask: nat, meta: seq<Member>, i: nat)
    requires i < |meta|
    ensures Missing(mask, meta[..i + 1]) ==
      if Bit(mask, i) then Missing(mask, meta[..i]) + [meta[i]] else Missing(mask, meta[..i])
  {
    assert meta[..i + 1][..i] == meta[..i];
  }

  /** Every member whose bit is set is listed, and only those are. */
  lemma {:induction false} MissingMembers(mask: nat, meta: seq<Member>)
    ensures forall i :: 0 <= i < |meta| && Bit(mask, i) ==> meta[i] in Missing(mask, meta)
    ensures forall m :: m in Missing(mask, meta) ==> exists i :: 0 <= i < |meta| && Bit(mask, i) && meta[i] == m
    decreases |meta|
  {
    if meta != [] {
      var init := meta[..|meta| - 1];
      MissingMembers(mask, init);
      forall i | 0 <= i < |meta| && Bit(mask, i)
        ensures meta[i] in Missing(mask, meta)
      {
        if i < |meta| - 1 {
          assert init[i] == meta[i];
        }
      }
      forall m | m in Missing(mask, meta)
        ensures exists i :: 0 <= i < |meta| && Bit(mask, i) && meta[i] == m
      {
        if m in Missing(mask, init) {
          var i :| 0 <= i < |init| && Bit(mask, i) && init[i] == m;
          assert meta[i] == m;
        } else {
          assert Bit(mask, |meta| - 1) && meta[|meta| - 1] == m;
        }
      }
    }
  }

  /** Nothing is missing exactly when the mask has no bit set below the table length; bits above it are ignored. */
  lemma {:induction false} MissingEmpty(mask: nat, meta: seq<Member>)
    ensures Missing(mask, meta) == [] <==> mask % Pow2(|meta|) == 0
    decreases |meta|
  {
    if meta == [] {
      DivModUnique(mask, 1, mask, 0);
    } else {
      var n := |meta| - 1;
      MissingEmpty(mask, meta[..n]);
      DivModCompose(mask, Pow2(n), 2);
      assert Pow2(n) * 2 == Pow2(n + 1);
      var low := mask % Pow2(n);
      var bit := (mask / Pow2(n)) % 2;
      assert mask % Pow2(n + 1) == bit * Pow2(n) + low;
      if bit == 1 {
        assert mask % Pow2(n + 1) >= Pow2(n);
      }
    }
  }

  /** A full 64-entry table and a nonzero mask always name at least one member. */
  lemma NonzeroMaskNamesSomeone(mask: u64, meta: seq<Member>)
    requires mask != 0 && |meta| == 64
    ensures Missing(mask, meta) != []
  {
    MissingEmpty(mask, meta);
    Pow2Of64();
    DivModUnique(mask, Pow2(64), 0, mask);
  }

  lemma Pow2Of64()
    ensures Pow2(64) == TWO_64
  {
    assert Pow2(2) == 4;
    Pow2Add(2, 2);
    assert Pow2(4) == 16;
    Pow2Add(4, 4);
    assert Pow2(8) == 256;
    Pow2Add(8, 8);
    assert Pow2(16) == TWO_16;
    Pow2Add(16, 16);
    assert Pow2(32) == TWO_32;
    Pow2Add(32, 32);
  }

  lemma {:induction false} Pow2Add(a: nat, b: nat)
    ensures Pow2(a + b) == Pow2(a) * Pow2(b)
    decreases a
  {
    if a > 0 {
      Pow2Add(a - 1, b);
    }
  }

  // ---------------------------------------------------------------------------
  // Number text
  // ---------------------------------------------------------------------------

  /** The decimal text of n, as the formatter prints integers. */
  function DecimalText(n: nat): (s: string)
    ensures |s| == |Decimal(n)|
    ensures forall i :: 0 <= i < |s| ==> s[i] as int == Decimal(n)[i]
  {
    if n < 10 then [(ZERO + n) as char]
    else
      var init := DecimalText(n / 10);
      var s := init + [(ZERO + n % 10) as char];
      assert Decimal(n) == Decimal(n / 10) + [ZERO + n % 10];
      s
  }

  /** An upper-case hexadecimal digit. */
  function HexDigit(d: nat): (c: char)
    requires d < 16
    ensures HexDigitValue(c) == d
  {
    if d < 10 then (ZERO + d) as char else ('A' as int + (d - 10)) as char
  }

  function HexDigitValue(c: char): nat {
    if '0' <= c <= '9' then c as int - '0' as int
    else if 'A' <= c <= 'F' then c as int - 'A' as int + 10
    else 0
  }

  /** The upper-case hexadecimal text of n without padding: "0X" formatting with no width. */
  function HexText(n: nat): (s: string)
    ensures |s| >= 1 && (|s| > 1 ==> s[0] != '0')
  {
    if n < 16 then [HexDigit(n)] else HexText(n / 16) + [HexDigit(n % 16)]
  }

  function HexValue(s: string): nat {
    if s == [] then 0 else HexValue(s[..|s| - 1]) * 16 + HexDigitValue(s[|s| - 1])
  }

  /** Hexadecimal text reads back as the number printed. */
  lemma {:induction false} HexRoundTrip(n: nat)
    ensures HexValue(HexText(n)) == n
  {
    var s := HexText(n);
    if n >= 16 {
      assert s[..|s| - 1] == HexText(n / 16);
      HexRoundTrip(n / 16);
    }
  }

  // ---------------------------------------------------------------------------
  // Rendering
  // ---------------------------------------------------------------------------

  /** Kind 0 is "field", 1 "component", anything else "group". */
  function KindName(kind: u8): string {
    if kind == 0 then "field" else if kind == 1 then "component" else "group"
  }

  /** One listed member: its kind, name and tag, a group's tag labelled as its count tag. */
  function Describe(m: Member): string {
    KindName(m.kind) + " " + m.name + (if m.kind == 2 then "(countTag=" else "(tag=") + DecimalText(m.tag) + ")"
  }

  function DescribeAll(ms: seq<Member>): (r: seq<string>)
    ensures |r| == |ms| && forall k :: 0 <= k < |ms| ==> r[k] == Describe(ms[k])
  {
    if ms == [] then [] else DescribeAll(ms[..|ms| - 1]) + [Describe(ms[|ms| - 1])]
  }

  /** The parts separated by ", ". */
  function Joined(parts: seq<string>): string {
    if parts == [] then ""
    else if |parts| == 1 then parts[0]
    else Joined(parts[..|parts| - 1]) + ", " + parts[|parts| - 1]
  }

  const NOTHING_MISSING: string := "No required members are missing"

  function MissingHeader(mask: nat): string {
    "Missing required members (mask=0x" + HexText(mask) + "): "
  }

  /** The text of an error. */
  function Render(e: ReadError): string {
    match e
    case MissingRequiredFields(mask, meta) =>
      if mask == 0 then NOTHING_MISSING
      else MissingHeader(mask) + Joined(DescribeAll(Missing(mask, meta)))
    case InvalidValue(name, tag, msg) =>
      "Invalid value for " + name + " (tag=" + DecimalText(tag) + "): " + msg
  }

  lemma JoinedSnoc(parts: seq<string>, p: string)
    ensures Joined(parts + [p]) == if parts == [] then p else Joined(parts) + ", " + p
  {
    assert (parts + [p])[..|parts|] == parts;
  }

  lemma DescribeAllSnoc(ms: seq<Member>, m: Member)
    ensures DescribeAll(ms + [m]) == DescribeAll(ms) + [Describe(m)]
  {
    assert (ms + [m])[..|ms|] == ms;
  }

  /** The listing of the first i + 1 entries extends that of the first i by the entry's description when its bit is set. */
  lemma ListingStep(mask: nat, meta: seq<Member>, i: nat)
    requires i < |meta|
    ensures var before := Joined(DescribeAll(Missing(mask, meta[..i])));
      Joined(DescribeAll(Missing(mask, meta[..i + 1]))) ==
        if !Bit(mask, i) then before
        else if Missing(mask, meta[..i]) == [] then Describe(meta[i])
        else before + ", " + Describe(meta[i])
  {
    var listed := Missing(mask, meta[..i]);
    MissingStep(mask, meta, i);
    if Bit(mask, i) {
      DescribeAllSnoc(listed, meta[i]);
      JoinedSnoc(DescribeAll(listed), Describe(meta[i]));
    }
  }

  /**
   * The formatter: the header, then for each set bit in table order the
   * member's description, preceded by ", " unless it is the first one listed.
   * A mask of zero renders the fixed "nothing missing" sentence.
   */
  method Fmt(e: ReadError) returns (s: string)
    requires e.MissingRequiredFields? ==> |e.meta| <= 64
    ensures s == Render(e)
  {
    match e
    case InvalidValue(name, tag, msg) =>
      s := "Invalid value for " + name + " (tag=" + DecimalText(tag) + "): " + msg;
    case MissingRequiredFields(mask, meta) =>
      if mask == 0 {
        return NOTHING_MISSING;
      }
      var listing := FmtListing(mask, meta);
      s := MissingHeader(mask) + listing;
  }

  /** The loop of the formatter over the member table, with its `first` flag. */
  method FmtListing(mask: u64, meta: seq<Member>) returns (s: string)
    requires |meta| <= 64
    ensures s == Joined(DescribeAll(Missing(mask, meta)))
  {
    s := "";
    var first := true;
    for i := 0 to |meta|
      invariant first <==> Missing(mask, meta[..i]) == []
      invariant s == Joined(DescribeAll(Missing(mask, meta[..i])))
    {
      ListingStep(mask, meta, i);
      MissingStep(mask, meta, i);
      if Bit(mask, i) {
        if !first {
          s := s + ", ";
        }
        first := false;
        s := s + Describe(meta[i]);
      }
    }
    assert meta[..|meta|] == meta;
  }

  /** The names of the missing members in table order, none for an invalid-value error. */
  method MissingMemberNames(e: ReadError) returns (names: Option<seq<string>>)
    requires e.MissingRequiredFields? ==> |e.meta| <= 64
    ensures e.InvalidValue? <==> names.None?
    ensures e.MissingRequiredFields? ==> names == Some(NamesOf(Missing(e.missingMask, e.meta)))
  {
    match e
    case InvalidValue(_, _, _) =>
      names := None;
    case MissingRequiredFields(mask, meta) =>
      var v: seq<string> := [];
      if mask != 0 {
        for i := 0 to |meta|
          invariant v == NamesOf(Missing(mask, meta[..i]))
        {
          MissingStep(mask, meta, i);
          if Bit(mask, i) {
            NamesOfSnoc(Missing(mask, meta[..i]), meta[i]);
            v := v + [meta[i].name];
          }
        }
        assert meta[..|meta|] == meta;
      } else {
        MissingEmpty(0, meta);
      }
      names := Some(v);
  }

  function NamesOf(ms: seq<Member>): (r: seq<string>)
    ensures |r| == |ms| && forall k :: 0 <= k < |ms| ==> r[k] == ms[k].name
  {
    if ms == [] then [] else NamesOf(ms[..|ms| - 1]) + [ms[|ms| - 1].name]
  }

  lemma NamesOfSnoc(ms: seq<Member>, m: Member)
    ensures NamesOf(ms + [m]) == NamesOf(ms) + [m.name]
  {
    assert (ms + [m])[..|ms|] == ms;
  }

  // ---------------------------------------------------------------------------
  // Properties of the rendering
  // ---------------------------------------------------------------------------

  /** A zero mask renders the fixed sentence whatever the table holds. */
  lemma NoMissingSentence(meta: seq<Member>)
    ensures Render(MissingRequiredFields(0, meta)) == "No required members are missing"
  {
  }

  /** A nonzero mask renders the header with the mask in hex, then one description per missing member. */
  lemma MissingRendering(mask: u64, meta: seq<Member>)
    requires mask != 0
    ensures var r := Render(MissingRequiredFields(mask, meta));
      r[..|MissingHeader(mask)|] == MissingHeader(mask) &&
      HexValue(HexText(mask)) == mask
  {
    HexRoundTrip(mask);
  }

  /** Kinds other than 0, 1 and 2 render as "group" but keep the plain tag label. */
  lemma OtherKindsRenderAsGroup(m: Member)
    requires m.kind > 2
    ensures Describe(m) == "group " + m.name + "(tag=" + DecimalText(m.tag) + ")"
  {
  }

  /** A group is labelled with its count tag. */
  lemma GroupUsesCountTag(m: Member)
    requires m.kind == 2
    ensures Describe(m) == "group " + m.name + "(countTag=" + DecimalText(m.tag) + ")"
  {
  }

  /** Tags print in decimal: 42 prints as "42". */
  lemma DecimalTextExample()
    ensures DecimalText(42) == "42"
  {
    assert DecimalText(4) == "4";
  }

  /** Mask 0b101 over three members lists the first and the third. */
  lemma MaskExample()
    ensures var meta := [Member("Field1", 1, 0), Member("Field2", 2, 0), Member("Field3", 3, 0)];
      NamesOf(Missing(5, meta)) == ["Field1", "Field3"]
  {
    var meta := [Member("Field1", 1, 0), Member("Field2", 2, 0), Member("Field3", 3, 0)];
    assert Bit(5, 0) && !Bit(5, 1) && Bit(5, 2) by {
      assert Pow2(1) == 2 && Pow2(2) == 4;
    }
    assert meta[..0] == [];
    MissingStep(5, meta, 0);
    MissingStep(5, meta, 1);
    MissingStep(5, meta, 2);
    assert meta[..3] == meta;
    assert Missing(5, meta) == [meta[0], meta[2]];
  }
}
