/**
 * The foreign decoders the body walker calls, and the two decoding steps
 * it applies to a leaf: transfer decoding, then charset conversion.
 * The decoders themselves are supplied functions: their internals
 * (base64 and quoted-printable, section 6.8 and 6.7 of RFC 2045; `iconv`;
 * RFC 2047 encoded words) are not part of this model.
 */
module Decoding {
  import opened PhpStrings
  import opened MimeParts

  /** One element returned by `imap_mime_header_decode`. */
  datatype MimeElement = MimeElement(charset: string, text: string)

  /**
   * The PHP functions `parsePart` and `mimeDecode` call. `iconv` takes the
   * source charset and the data (the target is always UTF-8//TRANSLIT//IGNORE);
   * `uniqid` takes its prefix, and its clock reading is fixed by the caller.
   */
  datatype Codecs = Codecs(
    base64: string -> string,
    qprint: string -> string,
    utf8Encode: string -> string,
    iconv: (string, string) -> string,
    mimeHeaderDecode: string -> seq<MimeElement>,
    uniqid: string -> string)

  /** The `switch ($part->encoding)`: only base64 (3) and quoted-printable (4) decode. */
  function TransferDecode(c: Codecs, encoding: int, data: string): (r: string)
    ensures encoding != ENCBASE64 && encoding != ENCQUOTEDPRINTABLE ==> r == data
  {
    if encoding == ENCBASE64 then c.base64(data)
    else if encoding == ENCQUOTEDPRINTABLE then c.qprint(data)
    else data
  }

  /**
   * Only base64 (3) and quoted-printable (4) change the fetched data; 7bit,
   * 8bit, binary, other and unknown codes leave it as fetched.
   */
  lemma TransferDecodeCases(c: Codecs, encoding: int, data: string)
    ensures encoding == ENCBASE64 ==> TransferDecode(c, encoding, data) == c.base64(data)
    ensures encoding == ENCQUOTEDPRINTABLE ==> TransferDecode(c, encoding, data) == c.qprint(data)
    ensures encoding != ENCBASE64 && encoding != ENCQUOTEDPRINTABLE ==> TransferDecode(c, encoding, data) == data
  {
  }

  /**
   * The charset step for TEXT leaves: nothing when no `charset` parameter is
   * set or it is `utf-8` in any case; `utf8_encode` for `iso-8859-1` in any
   * case; `iconv` from the declared charset otherwise.
   */
  function NormalizeCharset(c: Codecs, params: map<string, string>, data: string): (r: string)
    ensures "charset" !in params || ToLower(params["charset"]) == "utf-8" ==> r == data
  {
    if "charset" in params && ToLower(params["charset"]) != "utf-8" then
      if ToLower(params["charset"]) == "iso-8859-1" then c.utf8Encode(data)
      else c.iconv(params["charset"], data)
    else data
  }

  /** The charset step, case by case; `iconv` receives the charset as declared, not lower-cased. */
  lemma NormalizeCharsetCases(c: Codecs, params: map<string, string>, data: string)
    ensures "charset" !in params ==> NormalizeCharset(c, params, data) == data
    ensures "charset" in params && ToLower(params["charset"]) == "utf-8" ==>
      NormalizeCharset(c, params, data) == data
    ensures "charset" in params && ToLower(params["charset"]) == "iso-8859-1" ==>
      NormalizeCharset(c, params, data) == c.utf8Encode(data)
    ensures "charset" in params && ToLower(params["charset"]) !in {"utf-8", "iso-8859-1"} ==>
      NormalizeCharset(c, params, data) == c.iconv(params["charset"], data)
  {
  }

  /** The `text` fields of decoded elements, concatenated in order: empty exactly when every text is. */
  function ConcatTexts(elements: seq<MimeElement>): (r: string)
    ensures r == "" <==> forall i :: 0 <= i < |elements| ==> elements[i].text == ""
  {
    if elements == [] then ""
    else ConcatTexts(elements[..|elements| - 1]) + elements[|elements| - 1].text
  }

  /** Concatenating texts distributes over joining element lists. */
  lemma {:induction false} ConcatTextsAppend(a: seq<MimeElement>, b: seq<MimeElement>)
    ensures ConcatTexts(a + b) == ConcatTexts(a) + ConcatTexts(b)
    decreases |b|
  {
    if b != [] {
      var b' := b[..|b| - 1];
      assert (a + b)[..|a + b| - 1] == a + b';
      assert (a + b)[|a + b| - 1] == b[|b| - 1];
      ConcatTextsAppend(a, b');
      assert ConcatTexts(a + b) == ConcatTexts(a + b') + b[|b| - 1].text;
      assert ConcatTexts(b) == ConcatTexts(b') + b[|b| - 1].text;
    } else {
      assert a + b == a;
    }
  }

  /** What `mimeDecode` returns for a header string. */
  function MimeDecoded(c: Codecs, original: string): (s: string)
    ensures s == "" <==> forall i :: 0 <= i < |c.mimeHeaderDecode(original)| ==> c.mimeHeaderDecode(original)[i].text == ""
  {
    ConcatTexts(c.mimeHeaderDecode(original))
  }

  /** `mimeDecode`: append each decoded element's `text`. */
  method MimeDecode(c: Codecs, original: string) returns (s: string)
    ensures s == ConcatTexts(c.mimeHeaderDecode(original))
  {
    s := "";
    var elements := c.mimeHeaderDecode(original);
    var i := 0;
    while i < |elements|
      invariant 0 <= i <= |elements|
      invariant s == ConcatTexts(elements[..i])
    {
      assert elements[..i + 1][..i] == elements[..i];
      s := s + elements[i].text;
      i := i + 1;
    }
    assert elements[..i] == elements;
  }
}
