/** What the conversion functions see of a file on disk. Opening and reading
    a file, and rendering a PDF page to PNG bytes through PyMuPDF and PIL,
    are foreign calls: the model takes their outcomes as data. */
module Documents {
  import opened Wrappers
  import opened Base64

  /** What `fitz.open(path)` gives: a document that cannot be opened, or one
      whose pages each render to PNG bytes (`Some`) or fail while loading,
      rendering or re-encoding (`None`). */
  datatype PdfDoc = Unopenable | Doc(pages: seq<Option<seq<Byte>>>)

  /** Every step of the page loop succeeds on this document. */
  predicate Renders(doc: PdfDoc)
  {
    doc.Doc? && forall k :: 0 <= k < |doc.pages| ==> doc.pages[k].Some?
  }

  /** The Base64 text of each page, in page order. */
  function PageTexts(doc: PdfDoc): (texts: seq<string>)
    requires Renders(doc)
    ensures |texts| == |doc.pages|
    ensures forall k :: 0 <= k < |texts| ==> Decode(texts[k]) == doc.pages[k]
  {
    PagesRoundTrip(doc.pages);
    seq(|doc.pages|, k requires 0 <= k < |doc.pages| => Encode(doc.pages[k].value))
  }

  lemma PagesRoundTrip(pages: seq<Option<seq<Byte>>>)
    requires forall k :: 0 <= k < |pages| ==> pages[k].Some?
    ensures forall k :: 0 <= k < |pages| ==> Decode(Encode(pages[k].value)) == pages[k]
  {
    forall k | 0 <= k < |pages| ensures Decode(Encode(pages[k].value)) == pages[k] {
      DecodeEncode(pages[k].value);
    }
  }

  /** The file system as the conversions see it: the bytes `open(path, "rb")`
      reads (`None` when opening or reading raises), the document
      `fitz.open(path)` gives, and whether `os.path.isfile(path)` holds. */
  datatype Disk = Disk(
    read: string -> Option<seq<Byte>>,
    render: string -> PdfDoc,
    isFile: string -> bool)
}
