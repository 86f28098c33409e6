/**
 * Standard base64 (section 4 of RFC 4648), as `base64.b64encode` in
 * metadata/fonts/base64-encode-font.py applies it to a font file's bytes.
 *
 * Every three input bytes become four characters of the 64-character
 * alphabet; a final group of one or two bytes is completed with zero bits
 * and padded with "==" or "=". Decode is the strict inverse: it accepts
 * exactly the strings Encode produces.
 */
module Base64 {
  import opened Wrappers

  type byte = x: int | 0 <= x < 256

  // ---------------------------------------------------------------------
  // The alphabet
  // ---------------------------------------------------------------------

  /** A character of the base64 alphabet A-Z, a-z, 0-9, '+', '/'. */
  predicate IsAlphabetChar(c: char) {
    'A' <= c <= 'Z' || 'a' <= c <= 'z' || '0' <= c <= '9' || c == '+' || c == '/'
  }

  /** The alphabet character for a 6-bit value. */
  function AlphabetChar(v: nat): (c: char)
    requires v < 64
    ensures IsAlphabetChar(c) && CharValue(c) == v
  {
    if v < 26 then ('A' as int + v) as char
    else if v < 52 then ('a' as int + (v - 26)) as char
    else if v < 62 then ('0' as int + (v - 52)) as char
    else if v == 62 then '+'
    else '/'
  }

  /** The 6-bit value of an alphabet character. */
  function CharValue(c: char): (v: nat)
    requires IsAlphabetChar(c)
    ensures v < 64
  {
    if 'A' <= c <= 'Z' then c as int - 'A' as int
    else if 'a' <= c <= 'z' then c as int - 'a' as int + 26
    else if '0' <= c <= '9' then c as int - '0' as int + 52
    else if c == '+' then 62
    else 63
  }

  /** Every alphabet character is the character of its own value. */
  lemma AlphabetCharOfValue(c: char)
    requires IsAlphabetChar(c)
    ensures AlphabetChar(CharValue(c)) == c
  {
  }

  /** Every value of vs fits in six bits. */
  predicate AllSextets(vs: seq<nat>) {
    forall i :: 0 <= i < |vs| ==> vs[i] < 64
  }

  /** Every character of q is in the alphabet. */
  predicate AllAlphabet(q: string) {
    forall i :: 0 <= i < |q| ==> IsAlphabetChar(q[i])
  }

  /** 6-bit values as alphabet characters. */
  function ToChars(vs: seq<nat>): (q: string)
    requires AllSextets(vs)
    ensures |q| == |vs| && AllAlphabet(q)
    ensures forall i :: 0 <= i < |q| ==> CharValue(q[i]) == vs[i]
  {
    seq(|vs|, i requires 0 <= i < |vs| => AlphabetChar(vs[i]))
  }

  /** Alphabet characters as their 6-bit values. */
  function ToValues(q: string): (vs: seq<nat>)
    requires AllAlphabet(q)
    ensures |vs| == |q| && AllSextets(vs)
    ensures forall i :: 0 <= i < |vs| ==> AlphabetChar(vs[i]) == q[i]
  {
    seq(|q|, i requires 0 <= i < |q| => AlphabetCharOfValue(q[i]); CharValue(q[i]))
  }

  /** The characters of the values of q are q itself. */
  lemma ToCharsToValues(q: string)
    requires AllAlphabet(q)
    ensures ToChars(ToValues(q)) == q
  {
  }

  /** The values of the characters of vs are vs itself. */
  lemma ToValuesToChars(vs: seq<nat>)
    requires AllSextets(vs)
    ensures ToValues(ToChars(vs)) == vs
  {
  }

  // ---------------------------------------------------------------------
  // Regrouping 24 bits
  // ---------------------------------------------------------------------

  /** Three bytes, 24 bits, as four 6-bit values, high bits first. */
  function SplitGroup(b0: byte, b1: byte, b2: byte): (vs: seq<nat>)
    ensures |vs| == 4 && AllSextets(vs)
  {
    [b0 / 4, b0 % 4 * 16 + b1 / 16, b1 % 16 * 4 + b2 / 64, b2 % 64]
  }

  /** Four 6-bit values as the three bytes they make up. */
  function JoinGroup(vs: seq<nat>): (bs: seq<byte>)
    requires |vs| == 4 && AllSextets(vs)
    ensures |bs| == 3
  {
    [vs[0] * 4 + vs[1] / 16, vs[1] % 16 * 16 + vs[2] / 4, vs[2] % 4 * 64 + vs[3]]
  }

  /** Both groupings carry the same 24-bit number. */
  lemma SplitGroupBits(b0: byte, b1: byte, b2: byte)
    ensures var vs := SplitGroup(b0, b1, b2);
      ((vs[0] * 64 + vs[1]) * 64 + vs[2]) * 64 + vs[3] == (b0 * 256 + b1) * 256 + b2
  {
  }

  lemma JoinSplit(b0: byte, b1: byte, b2: byte)
    ensures JoinGroup(SplitGroup(b0, b1, b2)) == [b0, b1, b2]
  {
  }

  lemma SplitJoin(vs: seq<nat>)
    requires |vs| == 4 && AllSextets(vs)
    ensures var bs := JoinGroup(vs); SplitGroup(bs[0], bs[1], bs[2]) == vs
  {
  }

  // ---------------------------------------------------------------------
  // Encoding
  // ---------------------------------------------------------------------

  /** A full group of three bytes: four characters. */
  function EncodeGroup(b0: byte, b1: byte, b2: byte): string {
    ToChars(SplitGroup(b0, b1, b2))
  }

  /** A final single byte: two characters, the second with four zero bits, then "==". */
  function EncodeOne(b0: byte): string {
    ToChars(SplitGroup(b0, 0, 0)[..2]) + "=="
  }

  /** A final pair of bytes: three characters, the third with two zero bits, then "=". */
  function EncodeTwo(b0: byte, b1: byte): string {
    ToChars(SplitGroup(b0, b1, 0)[..3]) + "="
  }

  /** True when every character of s is in the alphabet or is the pad '='. */
  predicate AllEncodedChars(s: string) {
    forall i :: 0 <= i < |s| ==> IsAlphabetChar(s[i]) || s[i] == '='
  }

  /** base64.b64encode: the encoding of a byte string. */
  function Encode(s: seq<byte>): (r: string)
    ensures |r| == 4 * ((|s| + 2) / 3)
    ensures AllEncodedChars(r)
  {
    if |s| == 0 then ""
    else if |s| == 1 then EncodeOne(s[0])
    else if |s| == 2 then EncodeTwo(s[0], s[1])
    else EncodeGroup(s[0], s[1], s[2]) + Encode(s[3..])
  }

  // ---------------------------------------------------------------------
  // Decoding
  // ---------------------------------------------------------------------

  /** Four alphabet characters back to the three bytes they carry. */
  function DecodeGroup(q: string): (r: Option<seq<byte>>)
    requires |q| == 4
  {
    if AllAlphabet(q) then Some(JoinGroup(ToValues(q))) else None
  }

  /**
   * The last four characters: a full group, or one or two bytes followed by
   * padding, whose unused low bits must be zero.
   */
  function DecodeLast(q: string): (r: Option<seq<byte>>)
    requires |q| == 4
  {
    if q[2] == '=' && q[3] == '=' then
      if AllAlphabet(q[..2]) && ToValues(q[..2])[1] % 16 == 0 then
        Some(JoinGroup(ToValues(q[..2]) + [0, 0])[..1])
      else None
    else if q[3] == '=' then
      if AllAlphabet(q[..3]) && ToValues(q[..3])[2] % 4 == 0 then
        Some(JoinGroup(ToValues(q[..3]) + [0])[..2])
      else None
    else DecodeGroup(q)
  }

  /** The bytes a base64 string encodes, or None if it is not an encoding. */
  function Decode(t: string): (r: Option<seq<byte>>)
    decreases |t|
  {
    if t == "" then Some([])
    else if |t| < 4 then None
    else if |t| == 4 then DecodeLast(t)
    else
      match DecodeGroup(t[..4])
      case None => None
      case Some(g) =>
        match Decode(t[4..])
        case None => None
        case Some(rest) => Some(g + rest)
  }

  // ---------------------------------------------------------------------
  // Properties
  // ---------------------------------------------------------------------

  /** Four characters decode as a last group. */
  lemma DecodeFour(t: string)
    requires |t| == 4
    ensures Decode(t) == DecodeLast(t)
  {
  }

  lemma DecodeEncodeGroup(b0: byte, b1: byte, b2: byte)
    ensures DecodeGroup(EncodeGroup(b0, b1, b2)) == Some([b0, b1, b2])
    ensures DecodeLast(EncodeGroup(b0, b1, b2)) == Some([b0, b1, b2])
    ensures Decode(EncodeGroup(b0, b1, b2)) == Some([b0, b1, b2])
  {
  }

  lemma DecodeEncodeOne(b0: byte)
    ensures Decode(EncodeOne(b0)) == Some([b0])
  {
    DecodeFour(EncodeOne(b0));
    var vs := SplitGroup(b0, 0, 0);
    var q := EncodeOne(b0);
    assert q[..2] == ToChars(vs[..2]) && q[2] == '=' && q[3] == '=';
    ToValuesToChars(vs[..2]);
    assert vs[1] % 16 == 0;
    assert vs[..2] + [0, 0] == vs;
    JoinSplit(b0, 0, 0);
    assert AllAlphabet(q[..2]);
    assert ToValues(q[..2]) == vs[..2];
    assert JoinGroup(vs)[..1] == [b0];
  }

  lemma DecodeEncodeTwo(b0: byte, b1: byte)
    ensures Decode(EncodeTwo(b0, b1)) == Some([b0, b1])
  {
    DecodeFour(EncodeTwo(b0, b1));
    var vs := SplitGroup(b0, b1, 0);
    var q := EncodeTwo(b0, b1);
    assert q[..3] == ToChars(vs[..3]) && q[2] != '=' && q[3] == '=';
    ToValuesToChars(vs[..3]);
    assert vs[2] % 4 == 0;
    assert vs[..3] + [0] == vs;
    JoinSplit(b0, b1, 0);
    assert AllAlphabet(q[..3]);
    assert ToValues(q[..3]) == vs[..3];
    assert JoinGroup(vs)[..2] == [b0, b1];
  }

  /** Up to three bytes are encoded as one last group. */
  lemma EncodeShort(s: seq<byte>)
    requires 1 <= |s| <= 3
    ensures |s| == 1 ==> Encode(s) == EncodeOne(s[0])
    ensures |s| == 2 ==> Encode(s) == EncodeTwo(s[0], s[1])
    ensures |s| == 3 ==> Encode(s) == EncodeGroup(s[0], s[1], s[2])
  {
  }

  lemma DecodeEncodeSingle(s: seq<byte>)
    requires |s| == 1
    ensures Decode(Encode(s)) == Some(s)
  {
    EncodeShort(s);
    DecodeEncodeOne(s[0]);
    assert s == [s[0]];
  }

  lemma DecodeEncodePair(s: seq<byte>)
    requires |s| == 2
    ensures Decode(Encode(s)) == Some(s)
  {
    EncodeShort(s);
    DecodeEncodeTwo(s[0], s[1]);
    assert s == [s[0], s[1]];
  }

  lemma DecodeEncodeTriple(s: seq<byte>)
    requires |s| == 3
    ensures Decode(Encode(s)) == Some(s)
  {
    EncodeShort(s);
    DecodeEncodeGroup(s[0], s[1], s[2]);
    assert s == [s[0], s[1], s[2]];
  }

  /** A full group followed by more text decodes group by group. */
  lemma DecodeAppendGroup(q: string, u: string, g: seq<byte>, v: seq<byte>)
    requires |q| == 4 && u != ""
    requires DecodeGroup(q) == Some(g) && Decode(u) == Some(v)
    ensures Decode(q + u) == Some(g + v)
  {
  }

  /** Decoding undoes encoding. */
  lemma {:induction false} DecodeEncode(s: seq<byte>)
    ensures Decode(Encode(s)) == Some(s)
  {
    if |s| == 0 {
    } else if |s| == 1 {
      DecodeEncodeSingle(s);
    } else if |s| == 2 {
      DecodeEncodePair(s);
    } else if |s| == 3 {
      DecodeEncodeTriple(s);
    } else {
      DecodeEncodeGroup(s[0], s[1], s[2]);
      DecodeEncode(s[3..]);
      DecodeAppendGroup(EncodeGroup(s[0], s[1], s[2]), Encode(s[3..]), [s[0], s[1], s[2]], s[3..]);
      assert s == [s[0], s[1], s[2]] + s[3..];
    }
  }

  lemma EncodeDecodeGroup(q: string)
    requires |q| == 4 && DecodeGroup(q).Some?
    ensures var g := DecodeGroup(q).value; |g| == 3 && EncodeGroup(g[0], g[1], g[2]) == q
  {
    SplitJoin(ToValues(q));
    ToCharsToValues(q);
  }

  /** Two characters and "==" that decode are the encoding of their one byte. */
  lemma EncodeDecodeTwoPads(q: string)
    requires |q| == 4 && q[2] == '=' && q[3] == '=' && DecodeLast(q).Some?
    ensures Encode(DecodeLast(q).value) == q
  {
  }

  /** Three characters and "=" that decode are the encoding of their two bytes. */
  lemma EncodeDecodeOnePad(q: string)
    requires |q| == 4 && q[2] != '=' && q[3] == '=' && DecodeLast(q).Some?
    ensures Encode(DecodeLast(q).value) == q
  {
    var g := DecodeLast(q).value;
    var vs := ToValues(q[..3]) + [0];
    SplitJoin(vs);
    assert vs[..3] == ToValues(q[..3]);
    ToCharsToValues(q[..3]);
    assert Encode(g) == EncodeTwo(g[0], g[1]);
    assert q == q[..3] + "=";
  }

  lemma EncodeDecodeLast(q: string)
    requires |q| == 4 && DecodeLast(q).Some?
    ensures Encode(DecodeLast(q).value) == q
  {
    if q[2] == '=' && q[3] == '=' {
      EncodeDecodeTwoPads(q);
    } else if q[3] == '=' {
      EncodeDecodeOnePad(q);
    } else {
      var g := DecodeLast(q).value;
      EncodeDecodeGroup(q);
      assert Encode(g) == EncodeGroup(g[0], g[1], g[2]) + Encode([]);
    }
  }

  /** Only encodings decode: a string that decodes is the encoding of its result. */
  lemma {:induction false} EncodeDecode(t: string)
    requires Decode(t).Some?
    ensures Encode(Decode(t).value) == t
    decreases |t|
  {
    if t == "" {
    } else if |t| == 4 {
      EncodeDecodeLast(t);
    } else {
      var g := DecodeGroup(t[..4]).value;
      var rest := Decode(t[4..]).value;
      EncodeDecodeGroup(t[..4]);
      EncodeDecode(t[4..]);
      var s := g + rest;
      assert s[3..] == rest;
      assert Encode(s) == EncodeGroup(g[0], g[1], g[2]) + Encode(rest);
      assert t == t[..4] + t[4..];
    }
  }

  /** Decode and Encode are inverse: Decode(t) is Some(s) exactly when t is Encode(s). */
  lemma DecodeIff(t: string, s: seq<byte>)
    ensures Decode(t) == Some(s) <==> t == Encode(s)
  {
    if Decode(t) == Some(s) {
      EncodeDecode(t);
    }
    if t == Encode(s) {
      DecodeEncode(s);
    }
  }

  /** Encoding is injective: different byte strings give different text. */
  lemma EncodeInjective(s: seq<byte>, u: seq<byte>)
    ensures Encode(s) == Encode(u) ==> s == u
  {
    DecodeEncode(s);
    DecodeEncode(u);
  }

  /** Encoding works group by group: a prefix of whole groups encodes on its own. */
  lemma {:induction false} EncodeAppend(a: seq<byte>, b: seq<byte>)
    requires |a| % 3 == 0
    ensures Encode(a + b) == Encode(a) + Encode(b)
    decreases |a|
  {
    if |a| == 0 {
      assert a + b == b;
    } else {
      assert (a + b)[3..] == a[3..] + b;
      assert (a + b)[..3] == a[..3];
      EncodeAppend(a[3..], b);
    }
  }

  /** The number of '=' characters Encode appends for n input bytes. */
  function PadCount(n: nat): (p: nat)
    ensures p <= 2 && (p == 0 <==> n % 3 == 0)
  {
    if n % 3 == 0 then 0 else 3 - n % 3
  }

  /**
   * Padding: a whole number of groups gives no '='; one leftover byte ends in
   * "==", two in "=", and '=' appears nowhere else.
   */
  lemma {:induction false} EncodePadding(s: seq<byte>)
    ensures var r := Encode(s);
      PadCount(|s|) <= |r| &&
      (forall i :: 0 <= i < |r| - PadCount(|s|) ==> IsAlphabetChar(r[i])) &&
      (forall i :: |r| - PadCount(|s|) <= i < |r| ==> r[i] == '=')
    decreases |s|
  {
    if |s| > 3 {
      var r, tail := Encode(s), Encode(s[3..]);
      EncodePadding(s[3..]);
      assert PadCount(|s|) == PadCount(|s| - 3);
      assert r == EncodeGroup(s[0], s[1], s[2]) + tail;
      assert forall i :: 4 <= i < |r| ==> r[i] == tail[i - 4];
    }
  }

  /** Test vectors of section 10 of RFC 4648: "f", "fo" and "foo". */
  lemma TestVectorF()
    ensures Encode([0x66]) == "Zg=="
  {
  }

  lemma TestVectorFo()
    ensures Encode([0x66, 0x6F]) == "Zm8="
  {
  }

  lemma TestVectorFoo()
    ensures Encode([0x66, 0x6F, 0x6F]) == "Zm9v"
  {
  }
}
