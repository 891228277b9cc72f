/** The stand-alone converters of convert_to_base64.py. They do the same
    encoding as the batch test's converters but catch nothing: a file that
    cannot be opened or read, or a page that fails to render, raises. */
module ConvertToBase64 {
  import opened Wrappers
  import opened Base64
  import opened Documents

  /** `image_to_base64(image_path)`: the Base64 text of the file's bytes;
      raises when opening or reading raises. The text uses only the
      alphabet and `=`, its length is a multiple of 4, and it decodes back
      to the bytes. */
  function ImageToBase64(contents: Option<seq<Byte>>): (text: Outcome<string>)
    ensures text.Raised? <==> contents.None?
    ensures text.Returned? ==>
      Decode(text.value) == contents &&
      |text.value| % 4 == 0 &&
      forall k :: 0 <= k < |text.value| ==> IsAlphabetChar(text.value[k]) || text.value[k] == Pad
  {
    if contents.None? then Raised
    else
      var bytes := contents.value;
      DecodeEncode(bytes);
      EncodeShape(bytes);
      EncodedLengthIsMultipleOf4(bytes);
      Returned(Encode(bytes))
  }

  lemma EncodedLengthIsMultipleOf4(bytes: seq<Byte>)
    ensures |Encode(bytes)| % 4 == 0
  {
    EncodeShape(bytes);
    assert |Encode(bytes)| == 4 * ((|bytes| + 2) / 3);
  }

  /** `pdf_to_base64(pdf_path)`: one text per page in page order, raising
      on the first page that fails. A document without pages gives `[]`. */
  method PdfToBase64(doc: PdfDoc) returns (images: Outcome<seq<string>>)
    ensures images.Raised? <==> !Renders(doc)
    ensures images.Returned? ==> images.value == PageTexts(doc)
    ensures doc == Doc([]) ==> images == Returned([])
  {
    if doc.Unopenable? {
      return Raised;
    }
    var texts: seq<string> := [];
    for pageNum := 0 to |doc.pages|
      invariant forall k :: 0 <= k < pageNum ==> doc.pages[k].Some?
      invariant |texts| == pageNum
      invariant forall k :: 0 <= k < pageNum ==> texts[k] == Encode(doc.pages[k].value)
    {
      match doc.pages[pageNum]
      case None =>
        return Raised;
      case Some(png) =>
        texts := texts + [Encode(png)];
    }
    images := Returned(texts);
  }
}
