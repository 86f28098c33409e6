# Font metadata scripts of the 555 project, modelled in Dafny

Two offline scripts under `metadata/fonts/` of the 555 repository prepare
subsetted fonts for embedding in SVG graphics.

- `generate-glyphs.py` writes a glyph list for three hard-coded character
  strings: regular, medium and inter-medium. A font subsetting tool uses these
  lists. A glyph list has one line per distinct character of the string,
  sorted by code point. Each line is `U+` followed by the code point in
  upper-case hexadecimal, zero-filled to at least four digits. Lines are
  separated by newlines, and there is no newline after the last line.
- `base64-encode-font.py` turns each of the three WOFF2 font files into a
  data URI. The URI is the fixed prefix `data:font/woff2;utf-8;base64,`
  followed by the standard base64 text of the file's bytes, as defined in
  section 4 of RFC 4648.

The model has four modules:

- `Wrappers` (`wrappers.dfy`) holds an `Option` type.
- `Glyphs` (`glyphs.dfy`) models the glyph-list expression one step at a time.
  Python's `hex` without its `0x` prefix becomes `LowerHex`, `zfill` becomes
  `ZFill`, `upper` becomes `Upper`, `sorted(set(...))` becomes `SortedDistinct`,
  and the newline join becomes `JoinLines`. The module also defines a reader,
  `DecodeGlyphList`, which turns a glyph list back into characters.
- `Base64` (`base64.dfy`) holds the encoder the script delegates to. It
  works on 3-byte groups, with `=` padding for the last group. A strict
  decoder is its inverse.
- `FontEncoder` (`font_encoder.dfy`) builds the data URI and its inverse.

Both scripts repeat one statement three times, once per font or character
string, changing only the file names and, for the glyph lists, the character
string. Each statement is modelled once:
`Glyphs.GlyphList` and `FontEncoder.DataUri`. All three call sites apply it
unchanged. Characters are Dafny `char`s, which are Unicode scalar values, so
`c as int` is Python's `ord(c)`. Bytes are integers from 0 to 255.

## Model

| member | source | states |
|---|---|---|
| Glyphs.LowerHexSpec | metadata/fonts/generate-glyphs.py:11 | hex without its prefix is a non-empty run of lower-case hex digits. Read as a number, it is n. It starts with '0' only when n is 0, so there is no leading zero. |
| Glyphs.LowerHexWidth | metadata/fonts/generate-glyphs.py:11 | hex prints at most k+1 digits exactly when n < 16^(k+1). |
| Glyphs.ZFillSpec | metadata/fonts/generate-glyphs.py:11 | zfill gives length max(width, \|s\|). It leaves a string that is already long enough unchanged. It keeps an unsigned string as the suffix, behind '0's only. |
| Glyphs.UpperSpec | metadata/fonts/generate-glyphs.py:11 | upper keeps the length and upper-cases each character in place. |
| Glyphs.ParseHexUpper | metadata/fonts/generate-glyphs.py:11 | upper-casing lower-case hex digits gives upper-case digits with the same value. |
| Glyphs.PaddedHexSpec | metadata/fonts/generate-glyphs.py:11 | the zero-filled digits have length max(4, digits of cp) and still denote cp. Padding never truncates. |
| Glyphs.FormatCodePointSpec | metadata/fonts/generate-glyphs.py:11 | an entry is "U+" and then upper-case hex digits that denote cp, at least four and never cut short. It has exactly six characters exactly when cp < 0x10000. |
| Glyphs.FourDigitEntry | metadata/fonts/generate-glyphs.py:11 | below 0x10000, an entry is "U+" and exactly the four hex digits of cp, most significant first. |
| Glyphs.Insert | metadata/fonts/generate-glyphs.py:11 | adding a character to an ascending list without repeats keeps it ascending without repeats. The members become the old members plus that character. |
| Glyphs.SortedDistinct | metadata/fonts/generate-glyphs.py:11 | the sorted distinct characters are strictly ascending and hold exactly the characters of s. |
| Glyphs.StrictlyIncreasingUnique | metadata/fonts/generate-glyphs.py:11 | two strictly ascending lists with the same members are equal, so sorting a set has one answer. |
| Glyphs.SortedDistinctSpec | metadata/fonts/generate-glyphs.py:11 | the sorted list is strictly ascending, has the same set as s, and is as long as the number of distinct characters of s. |
| Glyphs.FormatAll | metadata/fonts/generate-glyphs.py:11 | the comprehension gives one entry per sorted character, in the same order. Entry i is the entry for character i. |
| Glyphs.FormatCodePointRoundTrip | metadata/fonts/generate-glyphs.py:11 | reading an entry back gives the character it was made from. |
| Glyphs.DecodeFormatAll | metadata/fonts/generate-glyphs.py:11 | reading back a list of entries gives the list of characters. |
| Glyphs.FormatCodePointNoNewline | metadata/fonts/generate-glyphs.py:11 | an entry has at least six characters and no newline. |
| Glyphs.SplitJoinLines | metadata/fonts/generate-glyphs.py:11 | splitting a newline join of one or more lines without newlines gives back the lines. |
| Glyphs.JoinLinesLast | metadata/fonts/generate-glyphs.py:11 | a join of one or more non-empty lines without newlines does not end in a newline. |
| Glyphs.GlyphListLines | metadata/fonts/generate-glyphs.py:11 | the output is empty exactly when the input is. Otherwise its lines are the entries of the sorted distinct characters, there is one line per distinct character, and there is no trailing newline. |
| Glyphs.GlyphListRoundTrip | metadata/fonts/generate-glyphs.py:11 | reading the output back gives the distinct input characters. Each appears once, in strictly ascending code-point order, and their set is the input's set. |
| Glyphs.GlyphListSetOnly | metadata/fonts/generate-glyphs.py:11 | two inputs give the same glyph list exactly when they hold the same set of characters. |
| Glyphs.GlyphListFrom | metadata/fonts/generate-glyphs.py:11 | given any ascending list of the input's distinct characters, the output is the join of that list's entries. |
| Glyphs.GlyphListAb | metadata/fonts/generate-glyphs.py:11 | "ab" gives "U+0061\nU+0062". |
| Glyphs.GlyphListDogDog | metadata/fonts/generate-glyphs.py:11 | "dog dog" gives "U+0020\nU+0064\nU+0067\nU+006F". |
| Glyphs.InterMediumSorted | metadata/fonts/generate-glyphs.py:8 | the distinct characters of INTER_MEDIUM_CHARACTERS in ascending order are " 01356=×—⁄⁵₉". |
| Glyphs.InterMediumGlyphs | metadata/fonts/generate-glyphs.py:8-17 | INTER_MEDIUM_CHARACTERS has 12 distinct characters. Its glyph list is exactly the 12 lines U+0020, U+0030, U+0031, U+0033, U+0035, U+0036, U+003D, U+00D7, U+2014, U+2044, U+2075, U+2089, joined by newlines. |
| Base64.AlphabetChar | metadata/fonts/base64-encode-font.py:8 | each 6-bit value maps to a character of the RFC 4648 alphabet, and that character's value is the 6-bit value again. |
| Base64.AlphabetCharOfValue | metadata/fonts/base64-encode-font.py:8 | every alphabet character is the character of its own value, so the alphabet is a bijection on 0..63. |
| Base64.SplitGroupBits | metadata/fonts/base64-encode-font.py:8 | the four 6-bit values of a group carry the group's 24 bits, high bits first. |
| Base64.JoinSplit | metadata/fonts/base64-encode-font.py:8 | regrouping the 6-bit values of three bytes gives the bytes back. |
| Base64.SplitJoin | metadata/fonts/base64-encode-font.py:8 | regrouping the bytes of four 6-bit values gives the values back. |
| Base64.Encode | metadata/fonts/base64-encode-font.py:8 | the encoding of n bytes has length 4·⌈n/3⌉. Every character is in the alphabet or is '='. |
| Base64.PadCount | metadata/fonts/base64-encode-font.py:8 | at most two '=' are added, and none exactly when n is a multiple of 3. |
| Base64.EncodePadding | metadata/fonts/base64-encode-font.py:8 | the last PadCount(n) characters are '=' and all earlier ones are in the alphabet. One leftover byte gives "==", two give "=", and '=' appears nowhere else. |
| Base64.EncodeAppend | metadata/fonts/base64-encode-font.py:8 | Encode(a + b) == Encode(a) + Encode(b) when \|a\| is a multiple of 3. |
| Base64.DecodeEncode | metadata/fonts/base64-encode-font.py:8 | decoding an encoding gives the bytes back. |
| Base64.EncodeDecode | metadata/fonts/base64-encode-font.py:8 | a string that decodes is the encoding of its result. |
| Base64.DecodeIff | metadata/fonts/base64-encode-font.py:8 | Decode(t) == Some(s) exactly when t == Encode(s). |
| Base64.EncodeInjective | metadata/fonts/base64-encode-font.py:8 | different byte strings have different encodings. |
| Base64.TestVectorF | metadata/fonts/base64-encode-font.py:8 | "f" encodes as "Zg==" (section 10 of RFC 4648). |
| Base64.TestVectorFo | metadata/fonts/base64-encode-font.py:8 | "fo" encodes as "Zm8=" (section 10 of RFC 4648). |
| Base64.TestVectorFoo | metadata/fonts/base64-encode-font.py:8 | "foo" encodes as "Zm9v" (section 10 of RFC 4648). |
| FontEncoder.DataUriShape | metadata/fonts/base64-encode-font.py:8 | the URI starts with "data:font/woff2;utf-8;base64,". The rest is 4·⌈n/3⌉ characters, each from the base64 alphabet or '='. |
| FontEncoder.DataUriEmpty | metadata/fonts/base64-encode-font.py:8 | an empty font file gives exactly the prefix. |
| FontEncoder.DecodeDataUriRoundTrip | metadata/fonts/base64-encode-font.py:8 | removing the prefix and decoding the rest gives the font bytes exactly. |
| FontEncoder.DecodeDataUriIff | metadata/fonts/base64-encode-font.py:8 | a string decodes to a font exactly when it is that font's data URI. |
| FontEncoder.DataUriInjective | metadata/fonts/base64-encode-font.py:8 | different font files give different URIs. |

## Left out

- File reading and writing, and the `BASE_PATH` path concatenation, are not modelled (metadata/fonts/generate-glyphs.py:1,10-17; metadata/fonts/base64-encode-font.py:3-21). They are I/O with no logic beyond overwriting the output file. A missing font file is a fatal I/O error, which is outside the model.
- The SVG usage comment (metadata/fonts/base64-encode-font.py:23-36) is documentation, not behaviour.
- WOFF2 font structure is not modelled, nor is the external subsetting tool that reads the glyph lists. Font bytes are opaque input.
- Python's `.decode('utf-8')` on the base64 output is not modelled. The output is pure ASCII, so the encoder returns a `string` directly.
- Glyphs.Upper: only ASCII a–z are upper-cased, not all of Unicode as Python's `upper` does. The function is only applied to hexadecimal digits, where the two agree.
- Glyphs.GlyphList: its input is a Dafny `string`, whose characters are Unicode scalar values, so a Python string holding a lone surrogate (which the script would list as, say, `U+D800`) cannot be given, and `Glyphs.DecodeLine` rejects such a line. None of the three character strings contains a surrogate, so no behaviour of the script is lost.
- Glyphs.ZFill: the sign branch (a leading '+' or '-') is modelled but never reached, because hex digits never start with a sign.
- REGULAR_CHARACTERS and MEDIUM_CHARACTERS have no concrete check. Their 42 and 36 distinct characters are beyond what the verifier can evaluate literally within its resource limit. All the general glyph-list lemmas apply to them.
- Base64.Decode is the model's own strict inverse of the encoder. It rejects characters outside the alphabet, misplaced padding and non-zero pad bits. Python's lenient `b64decode` accepts some of these, but the scripts never decode.
