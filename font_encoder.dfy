/**
 * The font embedder of metadata/fonts/base64-encode-font.py.
 *
 * Each of the three WOFF2 font files (regular, medium, inter-medium) is read
 * as bytes and written out as one data URI: the fixed prefix
 * "data:font/woff2;utf-8;base64," followed by the base64 text of the bytes.
 * The three call sites differ only in file names, so one function models all.
 */
module FontEncoder {
  import opened Wrappers
  import Base64

  /** The media type and encoding header written before the base64 text. */
  const Prefix: string := "data:font/woff2;utf-8;base64,"

  /** The data URI written for a font file's contents. */
  function DataUri(font: seq<Base64.byte>): string {
    Prefix + Base64.Encode(font)
  }

  /** The font bytes carried by a data URI, or None if it is not one. */
  function DecodeDataUri(uri: string): (r: Option<seq<Base64.byte>>) {
    if |uri| >= |Prefix| && uri[..|Prefix|] == Prefix then Base64.Decode(uri[|Prefix|..])
    else None
  }

  /**
   * Shape of the output: the prefix, then exactly 4 * ceil(n / 3) characters of
   * base64 text, all from the alphabet or '='.
   */
  lemma DataUriShape(font: seq<Base64.byte>)
    ensures var uri := DataUri(font);
      |uri| == |Prefix| + 4 * ((|font| + 2) / 3) &&
      uri[..|Prefix|] == Prefix &&
      Base64.AllEncodedChars(uri[|Prefix|..])
  {
  }

  /** An empty font file gives the bare prefix. */
  lemma DataUriEmpty()
    ensures DataUri([]) == Prefix
  {
  }

  /** The written URI determines the font: reading it back gives the same bytes. */
  lemma DecodeDataUriRoundTrip(font: seq<Base64.byte>)
    ensures DecodeDataUri(DataUri(font)) == Some(font)
  {
    var uri := DataUri(font);
    assert uri[..|Prefix|] == Prefix;
    assert uri[|Prefix|..] == Base64.Encode(font);
    Base64.DecodeEncode(font);
  }

  /** Exactly the data URIs decode: DecodeDataUri(uri) is Some(font) iff uri is DataUri(font). */
  lemma DecodeDataUriIff(uri: string, font: seq<Base64.byte>)
    ensures DecodeDataUri(uri) == Some(font) <==> uri == DataUri(font)
  {
    if uri == DataUri(font) {
      DecodeDataUriRoundTrip(font);
    }
    if DecodeDataUri(uri) == Some(font) {
      Base64.DecodeIff(uri[|Prefix|..], font);
      assert uri == uri[..|Prefix|] + uri[|Prefix|..];
    }
  }

  /** Different font files give different URIs. */
  lemma DataUriInjective(a: seq<Base64.byte>, b: seq<Base64.byte>)
    ensures DataUri(a) == DataUri(b) ==> a == b
  {
    DecodeDataUriRoundTrip(a);
    DecodeDataUriRoundTrip(b);
  }
}
