// parseDashlessUUID and formatUUIDFromBytes: a UUID as 32 hexadecimal digits
// without dashes, and as 16 bytes printed in the 8-4-4-4-12 layout of section 3
// of RFC 4122.
module Uuid {
  import opened Wrappers
  import opened Ints
  import Dashes

  /** isxdigit in the C locale. */
  predicate IsHexDigit(c: char)
  {
    ('0' <= c <= '9') || ('a' <= c <= 'f') || ('A' <= c <= 'F')
  }

  function HexVal(c: char): (n: nat)
    requires IsHexDigit(c)
    ensures n < 16
  {
    if '0' <= c <= '9' then c as int - '0' as int
    else if 'a' <= c <= 'f' then c as int - 'a' as int + 10
    else c as int - 'A' as int + 10
  }

  /** The digit std::hex prints for n: lowercase. */
  function HexDigit(n: nat): char
    requires n < 16
  {
    if n < 10 then ('0' as int + n) as char else ('a' as int + n - 10) as char
  }

  /** The digit printed for n is a lowercase digit worth n. */
  lemma HexDigitValue(n: nat)
    requires n < 16
    ensures IsHexDigit(HexDigit(n)) && !('A' <= HexDigit(n) <= 'F') && HexVal(HexDigit(n)) == n
  {
  }

  /** setw(2) with fill '0': two lowercase digits, high one first. */
  function HexPair(b: byte): string
  {
    [HexDigit(b / 16), HexDigit(b % 16)]
  }

  /** The pairs of bytes i to j - 1, in order and without separators. */
  function HexRange(b: seq<byte>, i: nat, j: nat): (r: string)
    requires i <= j <= |b|
    ensures |r| == 2 * (j - i)
    decreases |b| - i
  {
    if i == j then [] else HexPair(b[i]) + HexRange(b, i + 1, j)
  }

  /** The lowercase form of a hexadecimal digit. */
  function Lower(c: char): char
  {
    if 'A' <= c <= 'Z' then (c as int - 'A' as int + 'a' as int) as char else c
  }

  /** parseDashlessUUID: exactly 32 characters, all hexadecimal, read in pairs. */
  function ParseDashless(s: string): (r: Result<seq<byte>>)
    ensures r.Ok? <==> |s| == 32 && forall i :: 0 <= i < |s| ==> IsHexDigit(s[i])
    ensures r.Err? ==> r.error == InvalidArgument
    ensures r.Ok? ==> |r.value| == 16
    ensures r.Ok? ==> forall i :: 0 <= i < 16 ==> r.value[i] == HexVal(s[2 * i]) * 16 + HexVal(s[2 * i + 1])
  {
    if |s| != 32 then Err(InvalidArgument)
    else if exists i :: 0 <= i < |s| && !IsHexDigit(s[i]) then Err(InvalidArgument)
    else Ok(seq(16, i requires 0 <= i < 16 => HexVal(s[2 * i]) * 16 + HexVal(s[2 * i + 1])))
  }

  /** The bytes a dash is printed before. */
  predicate DashBefore(i: nat)
  {
    i == 4 || i == 6 || i == 8 || i == 10
  }

  /** The loop of formatUUIDFromBytes from byte i on: a dash before bytes 4, 6, 8
      and 10, then the pair of the byte. */
  function FormatFrom(b: seq<byte>, i: nat): string
    requires i <= |b| == 16
    decreases |b| - i
  {
    if i == 16 then []
    else (if DashBefore(i) then "-" else "") + HexPair(b[i]) + FormatFrom(b, i + 1)
  }

  /** formatUUIDFromBytes: refuses anything but 16 bytes. */
  function Format(b: seq<byte>): (r: Result<string>)
    ensures r.Ok? <==> |b| == 16
    ensures r.Err? ==> r.error == InvalidArgument
  {
    if |b| != 16 then Err(InvalidArgument) else Ok(FormatFrom(b, 0))
  }

  /** Byte k is printed at characters 2 (k - i) and 2 (k - i) + 1 of the run from i. */
  lemma {:induction false} HexRangeAt(b: seq<byte>, i: nat, j: nat, k: nat)
    requires i <= k < j <= |b|
    ensures HexRange(b, i, j)[2 * (k - i)] == HexDigit(b[k] / 16)
    ensures HexRange(b, i, j)[2 * (k - i) + 1] == HexDigit(b[k] % 16)
    decreases k - i
  {
    if k > i {
      HexRangeAt(b, i + 1, j, k);
    }
  }

  /** Every character of a run is a lowercase hexadecimal digit. */
  lemma {:induction false} HexRangeLower(b: seq<byte>, i: nat, j: nat)
    requires i <= j <= |b|
    ensures AllLowerHex(HexRange(b, i, j))
    decreases j - i
  {
    if i < j {
      HexRangeLower(b, i + 1, j);
    }
  }

  lemma HexRangeNoDash(b: seq<byte>, i: nat, j: nat)
    requires i <= j <= |b|
    ensures Dashes.StripDashes(HexRange(b, i, j)) == HexRange(b, i, j)
  {
    HexRangeLower(b, i, j);
    Dashes.NoDashIdentity(HexRange(b, i, j));
  }

  /** Between two dashes the loop prints the pairs of a run of bytes. */
  lemma {:induction false} FormatRun(b: seq<byte>, i: nat, j: nat)
    requires i < j <= |b| == 16
    requires forall k :: i < k < j ==> !DashBefore(k)
    ensures FormatFrom(b, i) == (if DashBefore(i) then "-" else "") + HexRange(b, i, j) + FormatFrom(b, j)
    decreases j - i
  {
    if j > i + 1 {
      FormatRun(b, i + 1, j);
      assert !DashBefore(i + 1);
    }
  }

  /** x, a dash, then y. */
  function Dashed(x: string, y: string): string
  {
    x + "-" + y
  }

  /** The loop output is the five groups of 4, 2, 2, 2 and 6 bytes joined by dashes. */
  lemma FormatGroups(b: seq<byte>)
    requires |b| == 16
    ensures FormatFrom(b, 0) == Dashed(HexRange(b, 0, 4), Dashed(HexRange(b, 4, 6),
      Dashed(HexRange(b, 6, 8), Dashed(HexRange(b, 8, 10), HexRange(b, 10, 16)))))
  {
    var t := Dashed(HexRange(b, 4, 6), Dashed(HexRange(b, 6, 8),
      Dashed(HexRange(b, 8, 10), HexRange(b, 10, 16))));
    FormatTail(b);
    FormatRun(b, 0, 4);
    DashJoin(HexRange(b, 0, 4), t, FormatFrom(b, 0));
  }

  lemma DashJoin(x: string, y: string, f: string)
    requires f == "" + x + ("-" + y)
    ensures f == Dashed(x, y)
  {
  }

  /** The loop output from byte 4 on: the last four groups, each after a dash. */
  lemma FormatTail(b: seq<byte>)
    requires |b| == 16
    ensures FormatFrom(b, 4) == "-" + Dashed(HexRange(b, 4, 6), Dashed(HexRange(b, 6, 8),
      Dashed(HexRange(b, 8, 10), HexRange(b, 10, 16))))
  {
    var h4 := HexRange(b, 10, 16);
    FormatRun(b, 10, 16);
    assert FormatFrom(b, 10) == "-" + h4;
    var d4 := Dashed(HexRange(b, 8, 10), h4);
    GroupStep(b, 8, 10, h4);
    var d3 := Dashed(HexRange(b, 6, 8), d4);
    GroupStep(b, 6, 8, d4);
    GroupStep(b, 4, 6, d3);
  }

  /** A dash, the group from i to j, and what the loop prints from j. */
  lemma GroupStep(b: seq<byte>, i: nat, j: nat, y: string)
    requires i < j <= |b| == 16 && DashBefore(i)
    requires forall k :: i < k < j ==> !DashBefore(k)
    requires FormatFrom(b, j) == "-" + y
    ensures FormatFrom(b, i) == "-" + Dashed(HexRange(b, i, j), y)
  {
    FormatRun(b, i, j);
    DashStep(HexRange(b, i, j), y, FormatFrom(b, i));
  }

  lemma DashStep(x: string, y: string, f: string)
    requires f == "-" + x + ("-" + y)
    ensures f == "-" + Dashed(x, y)
  {
  }

  predicate LowerHexChar(c: char)
  {
    IsHexDigit(c) && !('A' <= c <= 'F')
  }

  predicate AllLowerHex(s: string)
  {
    forall k :: 0 <= k < |s| ==> LowerHexChar(s[k])
  }

  /** Characters of Dashed(x, y) by position. */
  lemma DashedAt(x: string, y: string, k: nat)
    requires k < |x| + 1 + |y|
    ensures Dashed(x, y)[k] == if k < |x| then x[k] else if k == |x| then '-' else y[k - |x| - 1]
  {
  }

  /** A character of a group of digits is no dash. */
  lemma GroupChar(x: string, k: nat)
    requires AllLowerHex(x) && k < |x|
    ensures x[k] != '-' && LowerHexChar(x[k])
  {
  }

  /** The formatted UUID is 36 characters: dashes exactly at 8, 13, 18 and 23, and
      lowercase hexadecimal digits everywhere else. */
  lemma FormatLayout(b: seq<byte>)
    requires |b| == 16
    ensures |FormatFrom(b, 0)| == 36
    ensures forall k :: 0 <= k < 36 ==>
      (FormatFrom(b, 0)[k] == '-' <==> k == 8 || k == 13 || k == 18 || k == 23)
    ensures forall k :: 0 <= k < 36 && FormatFrom(b, 0)[k] != '-' ==> LowerHexChar(FormatFrom(b, 0)[k])
  {
    FormatGroups(b);
    forall k | 0 <= k < 36
      ensures FormatFrom(b, 0)[k] == '-' <==> k == 8 || k == 13 || k == 18 || k == 23
      ensures FormatFrom(b, 0)[k] != '-' ==> LowerHexChar(FormatFrom(b, 0)[k])
    {
      LayoutAt(b, k);
    }
  }

  lemma LayoutAt(b: seq<byte>, k: nat)
    requires |b| == 16 && k < 36
    ensures var s := Dashed(HexRange(b, 0, 4), Dashed(HexRange(b, 4, 6),
      Dashed(HexRange(b, 6, 8), Dashed(HexRange(b, 8, 10), HexRange(b, 10, 16)))));
      (s[k] == '-' <==> k == 8 || k == 13 || k == 18 || k == 23) && (s[k] != '-' ==> LowerHexChar(s[k]))
  {
    var g0, g1, g2, g3, g4 := HexRange(b, 0, 4), HexRange(b, 4, 6), HexRange(b, 6, 8),
      HexRange(b, 8, 10), HexRange(b, 10, 16);
    var r3 := Dashed(g3, g4);
    var r2 := Dashed(g2, r3);
    var r1 := Dashed(g1, r2);
    HexRangeLower(b, 0, 4);
    HexRangeLower(b, 4, 6);
    HexRangeLower(b, 6, 8);
    HexRangeLower(b, 8, 10);
    HexRangeLower(b, 10, 16);
    DashedAt(g0, r1, k);
    if k < 8 {
      GroupChar(g0, k);
    } else if k > 8 {
      var k1 := k - 9;
      DashedAt(g1, r2, k1);
      if k1 < 4 {
        GroupChar(g1, k1);
      } else if k1 > 4 {
        var k2 := k1 - 5;
        DashedAt(g2, r3, k2);
        if k2 < 4 {
          GroupChar(g2, k2);
        } else if k2 > 4 {
          var k3 := k2 - 5;
          DashedAt(g3, g4, k3);
          if k3 < 4 {
            GroupChar(g3, k3);
          } else if k3 > 4 {
            GroupChar(g4, k3 - 5);
          }
        }
      }
    }
  }

  /** With the dashes removed, the loop output from byte i is the digits of the
      bytes from i. */
  lemma {:induction false} StripFormatFrom(b: seq<byte>, i: nat)
    requires i <= |b| == 16
    ensures Dashes.StripDashes(FormatFrom(b, i)) == HexRange(b, i, 16)
    decreases 16 - i
  {
    if i < 16 {
      StripFormatFrom(b, i + 1);
      var d: string := if DashBefore(i) then "-" else "";
      assert Dashes.StripDashes(d) == [];
      HexRangeNoDash(b, i, i + 1);
      Dashes.StripAppend(d + HexPair(b[i]), FormatFrom(b, i + 1));
      Dashes.StripAppend(d, HexPair(b[i]));
    }
  }

  /** The two digits printed for byte j parse back to it. */
  lemma PairAt(b: seq<byte>, j: nat)
    requires |b| == 16 && j < 16
    ensures IsHexDigit(HexRange(b, 0, 16)[2 * j]) && IsHexDigit(HexRange(b, 0, 16)[2 * j + 1])
    ensures HexVal(HexRange(b, 0, 16)[2 * j]) * 16 + HexVal(HexRange(b, 0, 16)[2 * j + 1]) == b[j]
  {
    HexRangeAt(b, 0, 16, j);
  }

  lemma ParseAccepts(b: seq<byte>)
    requires |b| == 16
    ensures ParseDashless(HexRange(b, 0, 16)).Ok?
  {
    HexRangeLower(b, 0, 16);
  }

  lemma ParsedByte(b: seq<byte>, j: nat)
    requires |b| == 16 && j < 16 && ParseDashless(HexRange(b, 0, 16)).Ok?
    ensures ParseDashless(HexRange(b, 0, 16)).value[j] == b[j]
  {
    PairAt(b, j);
  }

  /** Parsing the digits of 16 bytes gives the bytes back. */
  lemma ParseHexRange(b: seq<byte>)
    requires |b| == 16
    ensures ParseDashless(HexRange(b, 0, 16)) == Ok(b)
  {
    ParseAccepts(b);
    var r := ParseDashless(HexRange(b, 0, 16));
    forall j | 0 <= j < 16
      ensures r.value[j] == b[j]
    {
      ParsedByte(b, j);
    }
    assert r.value == b;
  }

  /** parse(format(b)) with the dashes removed is b. */
  lemma FormatParseRoundTrip(b: seq<byte>)
    requires |b| == 16
    ensures Format(b).Ok? && ParseDashless(Dashes.StripDashes(Format(b).value)) == Ok(b)
  {
    StripFormatFrom(b, 0);
    ParseHexRange(b);
  }

  /** The two digits printed for one parsed byte are its two source digits,
      lowercased. */
  lemma PairOfDigits(c: char, d: char)
    requires IsHexDigit(c) && IsHexDigit(d)
    ensures HexPair(HexVal(c) * 16 + HexVal(d)) == [Lower(c), Lower(d)]
  {
    ModUnique(HexVal(c) * 16 + HexVal(d), 16, HexVal(c), HexVal(d));
  }

  /** The digits printed for a byte read from the digits c and d are c and d,
      lowercased. */
  lemma ByteDigits(c: char, d: char, b: seq<byte>, j: nat)
    requires |b| == 16 && j < 16 && IsHexDigit(c) && IsHexDigit(d)
    requires b[j] == HexVal(c) * 16 + HexVal(d)
    ensures HexRange(b, 0, 16)[2 * j] == Lower(c) && HexRange(b, 0, 16)[2 * j + 1] == Lower(d)
  {
    HexRangeAt(b, 0, 16, j);
    PairOfDigits(c, d);
  }

  /** Character k of the digits of the parsed bytes is character k of the input,
      lowercased. */
  lemma DigitOfParsed(s: string, k: nat)
    requires ParseDashless(s).Ok? && k < 32
    ensures HexRange(ParseDashless(s).value, 0, 16)[k] == Lower(s[k])
  {
    var j := k / 2;
    ByteDigits(s[2 * j], s[2 * j + 1], ParseDashless(s).value, j);
    assert k == 2 * j || k == 2 * j + 1;
  }

  /** format(parse(s)) with the dashes removed is s in lowercase: parsing loses
      nothing but the case of the letters. */
  lemma ParseFormatRoundTrip(s: string)
    requires ParseDashless(s).Ok?
    ensures var b := ParseDashless(s).value;
      Format(b).Ok? && Dashes.StripDashes(Format(b).value) == seq(32, k requires 0 <= k < 32 => Lower(s[k]))
  {
    var b := ParseDashless(s).value;
    StripFormatFrom(b, 0);
    var h := HexRange(b, 0, 16);
    var l := seq(32, k requires 0 <= k < 32 => Lower(s[k]));
    forall k | 0 <= k < 32
      ensures h[k] == l[k]
    {
      DigitOfParsed(s, k);
    }
    assert h == l;
  }

  /** A hexadecimal digit is determined by its value up to case. */
  lemma LowerHex(c: char)
    requires IsHexDigit(c)
    ensures HexDigit(HexVal(c)) == Lower(c)
  {
  }
}
