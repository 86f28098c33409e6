/**
 * The glyph-list generator of metadata/fonts/generate-glyphs.py.
 *
 * For a character string, the script keeps the distinct characters, sorts
 * them by code point, renders each as `U+` followed by its code point in
 * upper-case hexadecimal, zero-padded to at least four digits, and joins the
 * entries with newlines. The rendering is written here step by step as the
 * script composes it: `hex(n)[2:]` (LowerHex), `.zfill(4)` (ZFill),
 * `.upper()` (Upper). The inverse, DecodeGlyphList, reads such a list back.
 */
module Glyphs {
  import opened Wrappers

  /** The three character strings the script turns into glyph lists. */
  const RegularCharacters: string := "┌─╥┐│ 0.km║└╨┘080▮.192►fromkHzkbps[:/]━PLAY123456789"
  const MediumCharacters: string :=
    "daymileagelocation0123456789new york city san francisco" +
    " seoul huntington beach westminister milan luštica bay shanghai paris r" +
    "eykjavík selfoss scotts valley redwood city jeju kagoshima denver7dwork" +
    "loadbytebeatgonnaflynowrocky"
  const InterMediumCharacters: string := "1000 × ⁵⁄₉ = 555 — 36×11"

  // ---------------------------------------------------------------------
  // Hexadecimal digits
  // ---------------------------------------------------------------------

  predicate IsLowerHexDigit(c: char) { '0' <= c <= '9' || 'a' <= c <= 'f' }

  predicate IsUpperHexDigit(c: char) { '0' <= c <= '9' || 'A' <= c <= 'F' }

  predicate IsHexDigit(c: char) { IsLowerHexDigit(c) || IsUpperHexDigit(c) }

  predicate AllUpperHex(s: string) { forall i :: 0 <= i < |s| ==> IsUpperHexDigit(s[i]) }

  predicate AllHex(s: string) { forall i :: 0 <= i < |s| ==> IsHexDigit(s[i]) }

  /** The value of one hexadecimal digit, in either case. */
  function HexValue(c: char): (v: nat)
    requires IsHexDigit(c)
    ensures v < 16
  {
    if '0' <= c <= '9' then c as int - '0' as int
    else if 'a' <= c <= 'f' then c as int - 'a' as int + 10
    else c as int - 'A' as int + 10
  }

  /** The lower-case digit Python's `hex` prints for a value below 16. */
  function LowerDigit(d: nat): (c: char)
    requires d < 16
    ensures IsLowerHexDigit(c) && HexValue(c) == d
  {
    if d < 10 then ('0' as int + d) as char else ('a' as int + d - 10) as char
  }

  /** The number a string of hexadecimal digits denotes (most significant first). */
  function ParseHex(s: string): nat
    requires AllHex(s)
  {
    if s == [] then 0 else ParseHex(s[..|s| - 1]) * 16 + HexValue(s[|s| - 1])
  }

  function Pow16(k: nat): (r: nat)
    ensures r >= 1
  {
    if k == 0 then 1 else 16 * Pow16(k - 1)
  }

  /** `hex(n)[2:]`: the shortest lower-case hexadecimal rendering of n, "0" for zero. */
  function LowerHex(n: nat): string
    decreases n
  {
    if n < 16 then [LowerDigit(n)] else LowerHex(n / 16) + [LowerDigit(n % 16)]
  }

  function Zeros(k: nat): string
  {
    if k == 0 then "" else "0" + Zeros(k - 1)
  }

  function Max(a: int, b: int): int { if a < b then b else a }

  /**
   * Python's `str.zfill(width)`: pads on the left with '0' up to `width`
   * characters, keeping a leading sign in front of the padding; a string
   * already that long is returned unchanged.
   */
  function ZFill(s: string, width: nat): string
  {
    if |s| >= width then s
    else if s != [] && (s[0] == '+' || s[0] == '-') then [s[0]] + Zeros(width - |s|) + s[1..]
    else Zeros(width - |s|) + s
  }

  /** ASCII upper-casing of one character; every other character is kept. */
  function UpperChar(c: char): char
  {
    if 'a' <= c <= 'z' then (c as int - 'a' as int + 'A' as int) as char else c
  }

  /** `str.upper()` on the ASCII text it is applied to here. */
  function Upper(s: string): string
  {
    if s == [] then [] else [UpperChar(s[0])] + Upper(s[1..])
  }

  /** One entry of the glyph list: "U+", then the hex digits of cp, zero-filled to four, upper-cased. */
  function FormatCodePoint(cp: nat): string
  {
    "U+" + Upper(ZFill(LowerHex(cp), 4))
  }

  // ---------------------------------------------------------------------
  // Facts about the hexadecimal rendering
  // ---------------------------------------------------------------------

  /** `hex(n)[2:]` is a non-empty run of lower-case digits that denotes n, without a leading zero. */
  lemma {:induction false} LowerHexSpec(n: nat)
    ensures |LowerHex(n)| >= 1
    ensures forall i :: 0 <= i < |LowerHex(n)| ==> IsLowerHexDigit(LowerHex(n)[i])
    ensures AllHex(LowerHex(n)) && ParseHex(LowerHex(n)) == n
    ensures LowerHex(n)[0] == '0' <==> n == 0
    decreases n
  {
    if n >= 16 {
      var prefix := LowerHex(n / 16);
      LowerHexSpec(n / 16);
      assert LowerHex(n)[..|LowerHex(n)| - 1] == prefix;
    }
  }

  lemma {:induction false} ZerosSpec(k: nat)
    ensures |Zeros(k)| == k && forall i :: 0 <= i < k ==> Zeros(k)[i] == '0'
  {
    if k > 0 {
      ZerosSpec(k - 1);
    }
  }

  /**
   * zfill reaches the requested width and never shortens; an unsigned
   * string is kept as the suffix, behind '0' characters only.
   */
  lemma ZFillSpec(s: string, width: nat)
    ensures |ZFill(s, width)| == Max(width, |s|)
    ensures |s| >= width ==> ZFill(s, width) == s
    ensures (s == [] || (s[0] != '+' && s[0] != '-')) ==>
              var r := ZFill(s, width);
              r[|r| - |s|..] == s && forall i :: 0 <= i < |r| - |s| ==> r[i] == '0'
  {
    if |s| < width {
      ZerosSpec(width - |s|);
    }
  }

  lemma {:induction false} UpperSpec(s: string)
    ensures |Upper(s)| == |s| && forall i :: 0 <= i < |s| ==> Upper(s)[i] == UpperChar(s[i])
  {
    if s != [] {
      UpperSpec(s[1..]);
    }
  }

  /** Leading zeros do not change the value of a hexadecimal string. */
  lemma {:induction false} ParseHexLeadingZeros(z: string, s: string)
    requires forall i :: 0 <= i < |z| ==> z[i] == '0'
    requires AllHex(s)
    ensures AllHex(z + s) && ParseHex(z + s) == ParseHex(s)
    decreases |z| + |s|
  {
    if s == [] {
      assert z + s == z;
      if z != [] {
        assert z[..|z| - 1] + [] == z[..|z| - 1];
        ParseHexLeadingZeros(z[..|z| - 1], []);
      }
    } else {
      var t := s[..|s| - 1];
      assert (z + s)[..|z + s| - 1] == z + t;
      ParseHexLeadingZeros(z, t);
    }
  }

  /** Upper-casing hexadecimal digits keeps them digits and keeps their value. */
  lemma {:induction false} ParseHexUpper(s: string)
    requires forall i :: 0 <= i < |s| ==> IsLowerHexDigit(s[i])
    ensures AllUpperHex(Upper(s)) && AllHex(Upper(s)) && ParseHex(Upper(s)) == ParseHex(s)
  {
    UpperSpec(s);
    if s != [] {
      var t := s[..|s| - 1];
      UpperSpec(t);
      assert Upper(s)[..|s| - 1] == Upper(t);
      ParseHexUpper(t);
    }
  }

  /** `hex(n)[2:]` has at most k + 1 digits exactly when n is below 16^(k+1). */
  lemma {:induction false} LowerHexWidth(n: nat, k: nat)
    ensures |LowerHex(n)| <= k + 1 <==> n < Pow16(k + 1)
    decreases n
  {
    if n < 16 {
      if k > 0 {
        assert Pow16(k + 1) == 16 * Pow16(k);
      }
    } else if k > 0 {
      LowerHexWidth(n / 16, k - 1);
    }
  }

  /** The zero-filled digits still denote cp and are never cut short. */
  lemma PaddedHexSpec(cp: nat)
    ensures var z := ZFill(LowerHex(cp), 4);
      && |z| == Max(4, |LowerHex(cp)|)
      && (forall i :: 0 <= i < |z| ==> IsLowerHexDigit(z[i]))
      && AllHex(z) && ParseHex(z) == cp
  {
    var h := LowerHex(cp);
    LowerHexSpec(cp);
    assert h[0] != '+' && h[0] != '-';
    if |h| < 4 {
      var pad := Zeros(4 - |h|);
      ZerosSpec(4 - |h|);
      assert ZFill(h, 4) == pad + h;
      ParseHexLeadingZeros(pad, h);
    }
  }

  /**
   * The exact shape of one entry: `U+` and then upper-case hexadecimal
   * digits that denote cp, four of them when cp fits in four digits and
   * otherwise as many as cp needs, never cut short.
   */
  lemma FormatCodePointSpec(cp: nat)
    ensures var r := FormatCodePoint(cp);
      && |r| == 2 + Max(4, |LowerHex(cp)|)
      && r[..2] == "U+"
      && AllUpperHex(r[2..])
      && ParseHex(r[2..]) == cp
      && (|r| == 6 <==> cp < 0x10000)
  {
    var z := ZFill(LowerHex(cp), 4);
    var r := FormatCodePoint(cp);
    PaddedHexSpec(cp);
    UpperSpec(z);
    ParseHexUpper(z);
    assert r[2..] == Upper(z);
    LowerHexWidth(cp, 3);
  }

  /** The upper-case digit an entry shows for a value below 16, as a table. */
  function UpperDigit(d: nat): char
    requires d < 16
  {
    match d
    case 0 => '0' case 1 => '1' case 2 => '2' case 3 => '3'
    case 4 => '4' case 5 => '5' case 6 => '6' case 7 => '7'
    case 8 => '8' case 9 => '9' case 10 => 'A' case 11 => 'B'
    case 12 => 'C' case 13 => 'D' case 14 => 'E' case _ => 'F'
  }

  /** The lower-case digits of a number with exactly two hexadecimal digits. */
  lemma LowerHexTwo(n: nat)
    requires 0x10 <= n < 0x100
    ensures LowerHex(n) == [LowerDigit(n / 16), LowerDigit(n % 16)]
  {
  }

  /** The lower-case digits of a number with exactly three hexadecimal digits. */
  lemma LowerHexThree(n: nat)
    requires 0x100 <= n < 0x1000
    ensures LowerHex(n) == [LowerDigit(n / 16 / 16), LowerDigit(n / 16 % 16), LowerDigit(n % 16)]
  {
    LowerHexTwo(n / 16);
  }

  /** The lower-case digits of a number with exactly four hexadecimal digits. */
  lemma LowerHexFour(n: nat)
    requires 0x1000 <= n < 0x10000
    ensures LowerHex(n) ==
      [LowerDigit(n / 16 / 16 / 16), LowerDigit(n / 16 / 16 % 16), LowerDigit(n / 16 % 16), LowerDigit(n % 16)]
  {
    LowerHexThree(n / 16);
  }

  /** The four padded lower-case digits of a code point below 0x10000. */
  function FourLowerDigits(cp: nat): string
    requires cp < 0x10000
  {
    [LowerDigit(cp / 16 / 16 / 16), LowerDigit(cp / 16 / 16 % 16), LowerDigit(cp / 16 % 16), LowerDigit(cp % 16)]
  }

  lemma PaddedOne(cp: nat)
    requires cp < 0x10
    ensures ZFill(LowerHex(cp), 4) == FourLowerDigits(cp)
  {
    assert ZFill(LowerHex(cp), 4) == Zeros(3) + LowerHex(cp);
  }

  lemma PaddedTwo(cp: nat)
    requires 0x10 <= cp < 0x100
    ensures ZFill(LowerHex(cp), 4) == FourLowerDigits(cp)
  {
    LowerHexTwo(cp);
    assert ZFill(LowerHex(cp), 4) == Zeros(2) + LowerHex(cp);
  }

  lemma PaddedThree(cp: nat)
    requires 0x100 <= cp < 0x1000
    ensures ZFill(LowerHex(cp), 4) == FourLowerDigits(cp)
  {
    LowerHexThree(cp);
    assert ZFill(LowerHex(cp), 4) == Zeros(1) + LowerHex(cp);
  }

  /** The zero-filled hex digits of a code point below 0x10000 are exactly its four digits. */
  lemma FourDigitsPadded(cp: nat)
    requires cp < 0x10000
    ensures ZFill(LowerHex(cp), 4) == FourLowerDigits(cp)
  {
    if cp < 0x10 {
      PaddedOne(cp);
    } else if cp < 0x100 {
      PaddedTwo(cp);
    } else if cp < 0x1000 {
      PaddedThree(cp);
    } else {
      LowerHexFour(cp);
    }
  }

  /** Upper-casing a lower-case digit gives the upper-case digit of the same value. */
  lemma UpperOfLowerDigit(d: nat)
    requires d < 16
    ensures UpperChar(LowerDigit(d)) == UpperDigit(d)
  {
  }

  /** A code point below 0x10000 is shown as `U+` and exactly its four hexadecimal digits. */
  lemma FourDigitEntry(cp: nat)
    requires cp < 0x10000
    ensures FormatCodePoint(cp) ==
      "U+" + [UpperDigit(cp / 16 / 16 / 16), UpperDigit(cp / 16 / 16 % 16), UpperDigit(cp / 16 % 16), UpperDigit(cp % 16)]
  {
    var z := FourLowerDigits(cp);
    FourDigitsPadded(cp);
    UpperSpec(z);
    UpperOfLowerDigit(cp / 16 / 16 / 16);
    UpperOfLowerDigit(cp / 16 / 16 % 16);
    UpperOfLowerDigit(cp / 16 % 16);
    UpperOfLowerDigit(cp % 16);
  }

  // ---------------------------------------------------------------------
  // sorted(list(set(s)))
  // ---------------------------------------------------------------------

  predicate StrictlyIncreasing(xs: seq<char>)
  {
    forall i, j :: 0 <= i < j < |xs| ==> xs[i] < xs[j]
  }

  /** The set of characters occurring in s, Python's `set(s)`. */
  function CharSet(s: string): set<char>
  {
    set c | c in s
  }

  /** Inserts c into an ascending list of distinct characters, unless present. */
  function Insert(c: char, xs: seq<char>): (r: seq<char>)
    requires StrictlyIncreasing(xs)
    ensures StrictlyIncreasing(r)
    ensures forall d :: d in r <==> d == c || d in xs
  {
    if xs == [] then [c]
    else if c < xs[0] then [c] + xs
    else if c == xs[0] then xs
    else
      var rest := Insert(c, xs[1..]);
      assert forall d :: d in rest ==> xs[0] < d;
      [xs[0]] + rest
  }

  /**
   * Python's sorted list of the set of s: the distinct characters of s in ascending
   * order of code point.
   */
  function SortedDistinct(s: string): (r: seq<char>)
    ensures StrictlyIncreasing(r)
    ensures forall c :: c in r <==> c in s
  {
    if s == [] then [] else Insert(s[0], SortedDistinct(s[1..]))
  }

  /** A list without repetitions has as many elements as its set of members. */
  lemma {:induction false} StrictlyIncreasingCard(xs: seq<char>)
    requires StrictlyIncreasing(xs)
    ensures |CharSet(xs)| == |xs|
  {
    if xs != [] {
      StrictlyIncreasingCard(xs[1..]);
      assert CharSet(xs) == {xs[0]} + CharSet(xs[1..]);
      assert xs[0] !in CharSet(xs[1..]);
    }
  }

  /** An ascending list without repetitions is determined by its members. */
  lemma {:induction false} StrictlyIncreasingUnique(xs: seq<char>, ys: seq<char>)
    requires StrictlyIncreasing(xs) && StrictlyIncreasing(ys)
    requires forall c :: c in xs <==> c in ys
    ensures xs == ys
  {
    assert xs != [] ==> xs[0] in ys;
    assert ys != [] ==> ys[0] in xs;
    if xs != [] {
      assert xs[0] == ys[0];
      forall c
        ensures c in xs[1..] <==> c in ys[1..]
      {
        if c in xs[1..] {
          assert c in ys && c != ys[0];
        }
        if c in ys[1..] {
          assert c in xs && c != xs[0];
        }
      }
      StrictlyIncreasingUnique(xs[1..], ys[1..]);
    }
  }

  /** SortedDistinct(s) is sorted(set(s)): ascending, each member of s once. */
  lemma SortedDistinctSpec(s: string)
    ensures StrictlyIncreasing(SortedDistinct(s))
    ensures CharSet(SortedDistinct(s)) == CharSet(s)
    ensures |SortedDistinct(s)| == |CharSet(s)|
  {
    StrictlyIncreasingCard(SortedDistinct(s));
  }

  // ---------------------------------------------------------------------
  // The glyph list
  // ---------------------------------------------------------------------

  /** The list comprehension over the sorted characters. */
  function FormatAll(cs: seq<char>): (r: seq<string>)
    ensures |r| == |cs|
    ensures forall i :: 0 <= i < |cs| ==> r[i] == FormatCodePoint(cs[i] as int)
  {
    if cs == [] then [] else [FormatCodePoint(cs[0] as int)] + FormatAll(cs[1..])
  }

  /** Python's join with a newline separator: lines separated by '\n', none after the last. */
  function JoinLines(lines: seq<string>): string
  {
    if lines == [] then ""
    else if |lines| == 1 then lines[0]
    else lines[0] + "\n" + JoinLines(lines[1..])
  }

  /** The text generate-glyphs.py writes for the character string s. */
  function GlyphList(s: string): string
  {
    JoinLines(FormatAll(SortedDistinct(s)))
  }

  // ---------------------------------------------------------------------
  // Reading a glyph list back
  // ---------------------------------------------------------------------

  function IndexOf(t: string, c: char): (i: nat)
    requires c in t
    ensures i < |t| && t[i] == c && c !in t[..i]
  {
    if t[0] == c then 0
    else
      var i := 1 + IndexOf(t[1..], c);
      assert t[..i] == [t[0]] + t[1..][..i - 1];
      i
  }

  /** Splits t at every '\n', as Python's split with a newline separator does. */
  function SplitLines(t: string): (r: seq<string>)
    ensures |r| >= 1
    decreases |t|
  {
    if '\n' in t then
      var i := IndexOf(t, '\n');
      [t[..i]] + SplitLines(t[i + 1..])
    else [t]
  }

  predicate IsScalarValue(v: int)
  {
    0 <= v < 0xD800 || 0xE000 <= v < 0x11_0000
  }

  /** Reads one entry `U+` hex-digits back into the character it names. */
  function DecodeLine(line: string): Option<char>
  {
    if |line| >= 3 && line[..2] == "U+" && AllUpperHex(line[2..]) then
      var v := ParseHex(line[2..]);
      if IsScalarValue(v) then Some(v as char) else None
    else None
  }

  function DecodeLines(lines: seq<string>): Option<seq<char>>
  {
    if lines == [] then Some([])
    else
      var head := DecodeLine(lines[0]);
      var tail := DecodeLines(lines[1..]);
      if head.Some? && tail.Some? then Some([head.value] + tail.value) else None
  }

  /** Reads a glyph list back into the characters it lists, in order. */
  function DecodeGlyphList(t: string): Option<seq<char>>
  {
    if t == "" then Some([]) else DecodeLines(SplitLines(t))
  }

  // ---------------------------------------------------------------------
  // Properties of the glyph list
  // ---------------------------------------------------------------------

  /** Every entry names its character: decoding an entry gives the character back. */
  lemma FormatCodePointRoundTrip(c: char)
    ensures DecodeLine(FormatCodePoint(c as int)) == Some(c)
  {
    FormatCodePointSpec(c as int);
  }

  lemma {:induction false} DecodeFormatAll(cs: seq<char>)
    ensures DecodeLines(FormatAll(cs)) == Some(cs)
  {
    if cs != [] {
      var lines := FormatAll(cs);
      FormatCodePointRoundTrip(cs[0]);
      assert DecodeLine(lines[0]) == Some(cs[0]);
      assert lines[1..] == FormatAll(cs[1..]);
      DecodeFormatAll(cs[1..]);
      assert [cs[0]] + cs[1..] == cs;
    }
  }

  /** An entry is never empty and never contains a newline. */
  lemma FormatCodePointNoNewline(cp: nat)
    ensures |FormatCodePoint(cp)| >= 6 && '\n' !in FormatCodePoint(cp)
  {
    FormatCodePointSpec(cp);
    var r := FormatCodePoint(cp);
    assert r == r[..2] + r[2..];
  }

  /** Splitting on newlines undoes the join when no line holds a newline. */
  lemma {:induction false} SplitJoinLines(lines: seq<string>)
    requires |lines| >= 1
    requires forall i :: 0 <= i < |lines| ==> '\n' !in lines[i]
    ensures SplitLines(JoinLines(lines)) == lines
  {
    if |lines| > 1 {
      var e := lines[0];
      var tail := JoinLines(lines[1..]);
      var t := JoinLines(lines);
      assert t == e + "\n" + tail;
      assert t[|e|] == '\n';
      var i := IndexOf(t, '\n');
      assert t[..i] == e;
      assert t[i + 1..] == tail;
      SplitJoinLines(lines[1..]);
    }
  }

  /**
   * The output is empty exactly for an empty input; otherwise its lines are
   * the entries for the distinct characters in ascending order, so there is
   * one line per distinct character and no trailing newline.
   */
  lemma GlyphListLines(s: string)
    ensures GlyphList(s) == "" <==> s == ""
    ensures s != "" ==> SplitLines(GlyphList(s)) == FormatAll(SortedDistinct(s))
    ensures s != "" ==> |SplitLines(GlyphList(s))| == |CharSet(s)|
    ensures s != "" ==> GlyphList(s)[|GlyphList(s)| - 1] != '\n'
  {
    var cs := SortedDistinct(s);
    var lines := FormatAll(cs);
    SortedDistinctSpec(s);
    if s != "" {
      assert s[0] in cs;
      forall i | 0 <= i < |lines|
        ensures '\n' !in lines[i] && |lines[i]| >= 6
      {
        FormatCodePointNoNewline(cs[i] as int);
      }
      SplitJoinLines(lines);
      JoinLinesLast(lines);
    }
  }

  /** A join of non-empty lines ends with the last character of its last line. */
  lemma {:induction false} JoinLinesLast(lines: seq<string>)
    requires |lines| >= 1
    requires forall i :: 0 <= i < |lines| ==> |lines[i]| >= 1 && '\n' !in lines[i]
    ensures |JoinLines(lines)| >= 1
    ensures JoinLines(lines)[|JoinLines(lines)| - 1] != '\n'
  {
    if |lines| > 1 {
      JoinLinesLast(lines[1..]);
    } else {
      assert lines[0][|lines[0]| - 1] in lines[0];
    }
  }

  /**
   * Reading the output back recovers exactly the distinct characters of the
   * input, each once, in strictly ascending order of code point.
   */
  lemma GlyphListRoundTrip(s: string)
    ensures DecodeGlyphList(GlyphList(s)) == Some(SortedDistinct(s))
    ensures var cs := SortedDistinct(s);
      StrictlyIncreasing(cs) && CharSet(cs) == CharSet(s) && |cs| == |CharSet(s)|
  {
    SortedDistinctSpec(s);
    GlyphListLines(s);
    DecodeFormatAll(SortedDistinct(s));
  }

  /**
   * The output depends only on the set of input characters, and determines
   * it: two inputs give the same glyph list exactly when they hold the same
   * characters, whatever their order or repetitions.
   */
  lemma GlyphListSetOnly(s: string, t: string)
    ensures GlyphList(s) == GlyphList(t) <==> CharSet(s) == CharSet(t)
  {
    SortedDistinctSpec(s);
    SortedDistinctSpec(t);
    if CharSet(s) == CharSet(t) {
      assert forall c :: c in s <==> c in CharSet(s);
      assert forall c :: c in t <==> c in CharSet(t);
      StrictlyIncreasingUnique(SortedDistinct(s), SortedDistinct(t));
    }
    if GlyphList(s) == GlyphList(t) {
      GlyphListRoundTrip(s);
      GlyphListRoundTrip(t);
    }
  }

  /** The glyph list of s, given the ascending list of its distinct characters. */
  lemma GlyphListFrom(s: string, cs: seq<char>)
    requires StrictlyIncreasing(cs)
    requires forall c :: c in cs <==> c in s
    ensures SortedDistinct(s) == cs
    ensures GlyphList(s) == JoinLines(FormatAll(cs))
  {
    StrictlyIncreasingUnique(SortedDistinct(s), cs);
  }

  // ---------------------------------------------------------------------
  // Concrete glyph lists
  // ---------------------------------------------------------------------

  /** The entries of a list of characters, given each entry. */
  lemma FormatAllFrom(cs: seq<char>, entries: seq<string>)
    requires |cs| == |entries|
    requires forall i :: 0 <= i < |cs| ==> FormatCodePoint(cs[i] as int) == entries[i]
    ensures FormatAll(cs) == entries
  {
  }

  lemma EntriesAb()
    ensures FormatAll("ab") == ["U+0061", "U+0062"]
  {
    var cs := "ab";
    var entries := ["U+0061", "U+0062"];
    forall i | 0 <= i < |cs| ensures FormatCodePoint(cs[i] as int) == entries[i] {
      FourDigitEntry(cs[i] as int);
    }
    FormatAllFrom(cs, entries);
  }

  /** Worked example: "ab" gives two lines. */
  lemma GlyphListAb()
    ensures GlyphList("ab") == "U+0061\nU+0062"
  {
    GlyphListFrom("ab", "ab");
    EntriesAb();
  }

  lemma EntriesDogDog()
    ensures FormatAll(" dgo") == ["U+0020", "U+0064", "U+0067", "U+006F"]
  {
    var cs := " dgo";
    var entries := ["U+0020", "U+0064", "U+0067", "U+006F"];
    forall i | 0 <= i < |cs| ensures FormatCodePoint(cs[i] as int) == entries[i] {
      FourDigitEntry(cs[i] as int);
    }
    FormatAllFrom(cs, entries);
  }

  lemma JoinDogDog()
    ensures JoinLines(["U+0020", "U+0064", "U+0067", "U+006F"]) == "U+0020\nU+0064\nU+0067\nU+006F"
  {
  }

  /** Worked example: "dog dog" gives one line per distinct character, space first. */
  lemma GlyphListDogDog()
    ensures GlyphList("dog dog") == "U+0020\nU+0064\nU+0067\nU+006F"
  {
    GlyphListFrom("dog dog", " dgo");
    EntriesDogDog();
    JoinDogDog();
  }

  // The twelve entries of INTER_MEDIUM_CHARACTERS are proved in two halves of
  // six, and the sorted characters are stated as the concatenation of those
  // halves (InterMediumHalves). The verifier evaluates functions applied to
  // literals eagerly, and a single twelve-character literal list exceeds its
  // resource budget; the two halves and their concatenation stay well within it.

  lemma InterMediumEntriesLow()
    ensures FormatAll(" 01356") == ["U+0020", "U+0030", "U+0031", "U+0033", "U+0035", "U+0036"]
  {
    var cs := " 01356";
    var entries := ["U+0020", "U+0030", "U+0031", "U+0033", "U+0035", "U+0036"];
    forall i | 0 <= i < |cs| ensures FormatCodePoint(cs[i] as int) == entries[i] {
      FourDigitEntry(cs[i] as int);
    }
    FormatAllFrom(cs, entries);
  }

  lemma InterMediumEntriesHigh()
    ensures FormatAll("=×—⁄⁵₉") == ["U+003D", "U+00D7", "U+2014", "U+2044", "U+2075", "U+2089"]
  {
    var cs := "=×—⁄⁵₉";
    var entries := ["U+003D", "U+00D7", "U+2014", "U+2044", "U+2075", "U+2089"];
    forall i | 0 <= i < |cs| ensures FormatCodePoint(cs[i] as int) == entries[i] {
      FourDigitEntry(cs[i] as int);
    }
    FormatAllFrom(cs, entries);
  }

  lemma InterMediumSortedLiteral()
    ensures SortedDistinct(InterMediumCharacters) == " 01356=×—⁄⁵₉"
  {
    GlyphListFrom(InterMediumCharacters, " 01356=×—⁄⁵₉");
  }

  lemma InterMediumHalves()
    ensures " 01356" + "=×—⁄⁵₉" == " 01356=×—⁄⁵₉"
  {
  }

  /**
   * The distinct characters of INTER_MEDIUM_CHARACTERS in ascending order:
   * the six below U+003D, then the six from U+003D upwards.
   */
  lemma InterMediumSorted()
    ensures SortedDistinct(InterMediumCharacters) == " 01356" + "=×—⁄⁵₉"
  {
    InterMediumSortedLiteral();
    InterMediumHalves();
  }

  lemma FormatAllAppend(a: seq<char>, b: seq<char>)
    ensures FormatAll(a + b) == FormatAll(a) + FormatAll(b)
  {
  }

  /**
   * The glyph list written to inter-medium-glyphs.txt: twelve distinct
   * characters, and exactly these twelve lines in this order.
   */
  lemma InterMediumGlyphs()
    ensures |CharSet(InterMediumCharacters)| == 12
    ensures var lines := ["U+0020", "U+0030", "U+0031", "U+0033", "U+0035", "U+0036"] +
                         ["U+003D", "U+00D7", "U+2014", "U+2044", "U+2075", "U+2089"];
      GlyphList(InterMediumCharacters) == JoinLines(lines) &&
      SplitLines(GlyphList(InterMediumCharacters)) == lines
  {
    InterMediumSorted();
    FormatAllAppend(" 01356", "=×—⁄⁵₉");
    InterMediumEntriesLow();
    InterMediumEntriesHigh();
    GlyphListLines(InterMediumCharacters);
  }
}
