/** The conversion side of the batch test (auto_test/auto_test.py): files to
    Base64 texts, one per image and one per PDF page, collected over a
    folder listing. Every failure is caught and turned into `None` or `[]`. */
module AutoTest {
  import opened Wrappers
  import opened Base64
  import opened Text
  import opened Documents

  /** `image_to_base64(image_path)`: the Base64 text of the file's bytes, or
      `None` when opening or reading the file raised. */
  function ImageToBase64(contents: Option<seq<Byte>>): (text: Option<string>)
    ensures text.Some? <==> contents.Some?
    ensures text.Some? ==>
      Decode(text.value) == contents &&
      |text.value| == 4 * ((|contents.value| + 2) / 3) &&
      forall k :: 0 <= k < |text.value| ==> IsAlphabetChar(text.value[k]) || text.value[k] == Pad
  {
    match contents
    case None => None
    case Some(bytes) => DecodeEncode(bytes); EncodeShape(bytes); Some(Encode(bytes))
  }

  /** What `pdf_to_base64(pdf_path)` returns: the pages' texts in page order
      when every page converts, and `[]` as soon as anything raises, pages
      already converted included. */
  function PdfImages(doc: PdfDoc): seq<string>
  {
    if Renders(doc) then PageTexts(doc) else []
  }

  /** The result is all or nothing: one text per page, each decoding to that
      page's bytes, exactly when every page converts; otherwise nothing. */
  lemma PdfImagesAllOrNothing(doc: PdfDoc)
    ensures Renders(doc) ==>
      |PdfImages(doc)| == |doc.pages| &&
      forall k :: 0 <= k < |doc.pages| ==> Decode(PdfImages(doc)[k]) == doc.pages[k]
    ensures !Renders(doc) ==> PdfImages(doc) == []
  {
  }

  /** `pdf_to_base64(pdf_path)`: the page loop, appending one text per page. */
  method PdfToBase64(doc: PdfDoc) returns (images: seq<string>)
    ensures images == PdfImages(doc)
  {
    if doc.Unopenable? {
      return [];
    }
    images := [];
    for pageNum := 0 to |doc.pages|
      invariant forall k :: 0 <= k < pageNum ==> doc.pages[k].Some?
      invariant |images| == pageNum
      invariant forall k :: 0 <= k < pageNum ==> images[k] == Encode(doc.pages[k].value)
    {
      match doc.pages[pageNum]
      case None =>
        return [];
      case Some(png) =>
        images := images + [Encode(png)];
    }
  }

  /** `file_to_base64` treats a path as a PDF when its lower-cased
      `os.path.splitext` extension is `.pdf`. */
  predicate IsPdfPath(path: string)
  {
    Lower(SplitExt(path)) == ".pdf"
  }

  /** What `file_to_base64(file_path)` returns. */
  function FileImages(path: string, disk: Disk): seq<Option<string>>
  {
    if IsPdfPath(path) then Lift(PdfImages(disk.render(path)))
    else [ImageToBase64(disk.read(path))]
  }

  /** The PDF texts as items of the list `file_to_base64` returns. */
  function Lift(texts: seq<string>): seq<Option<string>>
  {
    seq(|texts|, k requires 0 <= k < |texts| => Some(texts[k]))
  }

  /** A PDF path that renders yields one item per page, each decoding to
      that page's bytes, and one that does not yields nothing; any other
      path yields exactly one item, `None` when the file could not be read
      and otherwise decoding to the file's bytes. */
  lemma FileImagesShape(path: string, disk: Disk)
    ensures IsPdfPath(path) && Renders(disk.render(path)) ==>
      var items, pages := FileImages(path, disk), disk.render(path).pages;
      |items| == |pages| &&
      forall k :: 0 <= k < |items| ==> items[k].Some? && Decode(items[k].value) == pages[k]
    ensures IsPdfPath(path) && !Renders(disk.render(path)) ==> FileImages(path, disk) == []
    ensures !IsPdfPath(path) ==>
      |FileImages(path, disk)| == 1 &&
      (FileImages(path, disk)[0].None? <==> disk.read(path).None?) &&
      (FileImages(path, disk)[0].Some? ==> Decode(FileImages(path, disk)[0].value) == disk.read(path))
  {
    PdfImagesAllOrNothing(disk.render(path));
  }

  /** `file_to_base64(file_path)`: dispatch on the extension. */
  method FileToBase64(path: string, disk: Disk) returns (items: seq<Option<string>>)
    ensures items == FileImages(path, disk)
  {
    var extension := Lower(SplitExt(path));
    if extension == ".pdf" {
      var images := PdfToBase64(disk.render(path));
      items := Lift(images);
    } else {
      items := [ImageToBase64(disk.read(path))];
    }
  }

  const ImageExtensions: seq<string> := [".jpg", ".jpeg", ".png", ".pdf"]

  /** `process_folder` converts a listed name's file when its lower-cased
      `os.path.splitext` extension is one of the four it knows. */
  predicate Whitelisted(name: string)
  {
    Lower(SplitExt(name)) in ImageExtensions
  }

  /** The folder entry is a regular file with a known extension. */
  predicate Handled(folder: string, name: string, disk: Disk)
  {
    disk.isFile(Join(folder, name)) && Whitelisted(name)
  }

  /** The concatenation `process_folder` builds over the first names of the
      listing, in listing order. */
  function FolderImages(folder: string, names: seq<string>, disk: Disk): seq<Option<string>>
  {
    if names == [] then []
    else
      var last := names[|names| - 1];
      FolderImages(folder, names[..|names| - 1], disk) +
        (if Handled(folder, last, disk) then FileImages(Join(folder, last), disk) else [])
  }

  /** How many listed names `process_folder` hands to `file_to_base64`. */
  function HandledCount(folder: string, names: seq<string>, disk: Disk): (n: nat)
    ensures n <= |names|
  {
    if names == [] then 0
    else
      var last := names[|names| - 1];
      HandledCount(folder, names[..|names| - 1], disk) + (if Handled(folder, last, disk) then 1 else 0)
  }

  /** The result over a listing is the result over its first part followed
      by the result over the rest. */
  lemma {:induction false} FolderImagesAppend(folder: string, a: seq<string>, b: seq<string>, disk: Disk)
    ensures FolderImages(folder, a + b, disk) == FolderImages(folder, a, disk) + FolderImages(folder, b, disk)
    ensures HandledCount(folder, a + b, disk) == HandledCount(folder, a, disk) + HandledCount(folder, b, disk)
    decreases |b|
  {
    if b != [] {
      var b' := b[..|b| - 1];
      assert (a + b)[..|a + b| - 1] == a + b';
      FolderImagesAppend(folder, a, b', disk);
    } else {
      assert a + b == a;
    }
  }

  /** One listed name contributes what `file_to_base64` returns for it when it
      is handled, and nothing otherwise. */
  lemma FolderImagesSingle(folder: string, name: string, disk: Disk)
    ensures FolderImages(folder, [name], disk) ==
      if Handled(folder, name, disk) then FileImages(Join(folder, name), disk) else []
    ensures HandledCount(folder, [name], disk) == if Handled(folder, name, disk) then 1 else 0
  {
    assert [name][..0] == [];
  }

  /** The count includes handled files whose conversion gave `[]`, so it can
      exceed the number of items returned: a handled PDF that fails to open
      is counted and contributes nothing. */
  lemma {:induction false} CountIncludesEmptyConversions(folder: string, name: string, disk: Disk)
    requires Handled(folder, name, disk) && IsPdfPath(Join(folder, name))
    requires disk.render(Join(folder, name)) == Unopenable
    ensures HandledCount(folder, [name], disk) == 1
    ensures FolderImages(folder, [name], disk) == []
  {
    FolderImagesSingle(folder, name, disk);
  }

  /** A name whose only dot is its first character has no extension for
      `os.path.splitext`, so `.pdf` is not converted. */
  lemma LeadingDotNameSkipped()
    ensures !Whitelisted(".pdf")
  {
    var name := ".pdf";
    LastIndexOfAt(name, '/', -1);
    assert name[1] != '.' && name[2] != '.' && name[3] != '.';
    LastIndexOfAt(name, '.', 0);
  }

  /** Upper-case extensions are converted: the test is on the lower-cased
      extension. */
  lemma UpperCaseExtensionHandled()
    ensures Whitelisted("SCAN.PDF")
  {
    var name := "SCAN.PDF";
    LastIndexOfAt(name, '/', -1);
    assert name[4] == '.' && name[5] != '.' && name[6] != '.' && name[7] != '.';
    LastIndexOfAt(name, '.', 4);
    assert HasNonDot(name, 0, 4) by { assert name[0] != '.'; }
    assert SplitExt(name) == ".PDF";
    assert Lower(".PDF") == ".pdf";
  }

  /** `process_folder(folder_path)`: the listing loop. `processed` is the
      `processed_files` count it logs. */
  method ProcessFolder(folder: string, names: seq<string>, disk: Disk)
    returns (allBase64: seq<Option<string>>, processed: nat)
    ensures allBase64 == FolderImages(folder, names, disk)
    ensures processed == HandledCount(folder, names, disk)
  {
    allBase64, processed := [], 0;
    for i := 0 to |names|
      invariant allBase64 == FolderImages(folder, names[..i], disk)
      invariant processed == HandledCount(folder, names[..i], disk)
    {
      assert names[..i + 1] == names[..i] + [names[i]];
      FolderImagesAppend(folder, names[..i], [names[i]], disk);
      FolderImagesSingle(folder, names[i], disk);
      var filePath := Join(folder, names[i]);
      if disk.isFile(filePath) {
        var extension := Lower(SplitExt(names[i]));
        if extension in ImageExtensions {
          var fileBase64 := FileToBase64(filePath, disk);
          allBase64 := allBase64 + fileBase64;
          processed := processed + 1;
        }
      }
    }
    assert names[..|names|] == names;
  }
}
