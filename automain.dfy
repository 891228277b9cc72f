/** The run loop of auto_main.py: every file under a directory tree is
    checked against a list of supported suffixes, converted, sent to the
    model and its reply extracted, each stage in its own `try` that logs
    the failure and moves on to the next file.

    The stages are foreign to the loop and enter as functions: `getsize`
    (the file system), `file_to_base64(file, file_format)` and
    `extract_info_from_response(response)` (imported under names that
    convert_to_base64.py and ai_request.py do not define) and
    `call_openai_api(base64_data)` (the network). */
module AutoMain {
  import opened Wrappers
  import opened Json
  import opened Text
  import opened Extraction
  import AutoTest

  const SupportedFormats: seq<string> := [".png", ".jpg", ".jpeg", ".heif", ".pdf", ".xlsx"]

  /** `filename.lower().endswith(supported_formats)`. */
  predicate Supported(filename: string)
  {
    exists format <- SupportedFormats :: EndsWith(Lower(filename), format)
  }

  /** One step of `os.walk(path)`: a directory and the names of the files
      directly in it. */
  datatype WalkStep = WalkStep(dirPath: string, filenames: seq<string>)

  /** The foreign calls of one file's stages; `Raised` is an exception. */
  datatype Stages = Stages(
    getSize: string -> Outcome<int>,
    convert: (string, string) -> Outcome<Value>,
    callApi: Value -> Outcome<Option<Response>>,
    extract: Option<Response> -> Outcome<Value>)

  /** How far one file got. `format` is the `file_format` tag, `data` what
      the conversion returned, `response` what the API call returned. */
  datatype Fate =
    | Unsupported
    | SizeRaised
    | ConversionRaised(format: string)
    | ConversionEmpty(format: string)
    | ApiRaised(format: string, data: Value)
    | ExtractionRaised(format: string, data: Value, response: Option<Response>)
    | Extracted(format: string, data: Value, response: Option<Response>, info: Value)

  /** The log line a file leaves: its joined path and its fate. */
  datatype Handled = Handled(file: string, fate: Fate)

  /** The stages a file goes through, in order, each ending the file's
      processing when it raises or, for the conversion, returns a falsy
      value. A falsy API response is only logged. */
  function FateOf(dirPath: string, filename: string, stages: Stages): Fate
  {
    var file := Join(dirPath, filename);
    if !Supported(filename) then Unsupported
    else if stages.getSize(file).Raised? then SizeRaised
    else
      var format := AfterLastDot(filename);
      match stages.convert(file, format)
      case Raised => ConversionRaised(format)
      case Returned(data) =>
        if !Truthy(data) then ConversionEmpty(format)
        else
          match stages.callApi(data)
          case Raised => ApiRaised(format, data)
          case Returned(response) =>
            match stages.extract(response)
            case Raised => ExtractionRaised(format, data, response)
            case Returned(info) => Extracted(format, data, response, info)
  }

  /** The conversion ran for this file. */
  predicate Converted(fate: Fate)
  {
    !fate.Unsupported? && !fate.SizeRaised?
  }

  /** The API was called for this file. */
  predicate ApiCalled(fate: Fate)
  {
    fate.ApiRaised? || fate.ExtractionRaised? || fate.Extracted?
  }

  /** Extraction was attempted for this file. */
  predicate ExtractionTried(fate: Fate)
  {
    fate.ExtractionRaised? || fate.Extracted?
  }

  /** The body of the inner loop for one file: each `continue` of the
      source is a `return` here, and the outermost `except` is the
      `SizeRaised` return. */
  method HandleFile(dirPath: string, filename: string, stages: Stages) returns (fate: Fate)
    ensures fate == FateOf(dirPath, filename, stages)
  {
    var file := Join(dirPath, filename);
    if !Supported(filename) {
      return Unsupported;
    }
    var fileSize := stages.getSize(file);
    if fileSize.Raised? {
      return SizeRaised;
    }
    var fileFormat := AfterLastDot(filename);
    var base64Data := stages.convert(file, fileFormat);
    if base64Data.Raised? {
      return ConversionRaised(fileFormat);
    }
    if !Truthy(base64Data.value) {
      return ConversionEmpty(fileFormat);
    }
    var response := stages.callApi(base64Data.value);
    if response.Raised? {
      return ApiRaised(fileFormat, base64Data.value);
    }
    var extractedInfo := stages.extract(response.value);
    if extractedInfo.Raised? {
      return ExtractionRaised(fileFormat, base64Data.value, response.value);
    }
    fate := Extracted(fileFormat, base64Data.value, response.value, extractedInfo.value);
  }

  /** The log lines of one directory's files, in listing order. */
  function DirTrace(dirPath: string, filenames: seq<string>, stages: Stages): (trace: seq<Handled>)
    ensures |trace| == |filenames|
  {
    seq(|filenames|, k requires 0 <= k < |filenames| =>
      Handled(Join(dirPath, filenames[k]), FateOf(dirPath, filenames[k], stages)))
  }

  /** The log lines of the whole walk, directory after directory. */
  function Trace(walk: seq<WalkStep>, stages: Stages): seq<Handled>
  {
    if walk == [] then []
    else
      var last := walk[|walk| - 1];
      Trace(walk[..|walk| - 1], stages) + DirTrace(last.dirPath, last.filenames, stages)
  }

  /** The paths the walk yields, in walk order. */
  function Files(walk: seq<WalkStep>): seq<string>
  {
    if walk == [] then []
    else
      var last := walk[|walk| - 1];
      Files(walk[..|walk| - 1]) + seq(|last.filenames|, k requires 0 <= k < |last.filenames| =>
        Join(last.dirPath, last.filenames[k]))
  }

  /** No file aborts the run: every path the walk yields gets exactly one
      log line, in walk order. */
  lemma {:induction false} EveryFileHandledOnce(walk: seq<WalkStep>, stages: Stages)
    ensures |Trace(walk, stages)| == |Files(walk)|
    ensures forall k :: 0 <= k < |Files(walk)| ==> Trace(walk, stages)[k].file == Files(walk)[k]
  {
    if walk != [] {
      var init := walk[..|walk| - 1];
      EveryFileHandledOnce(init, stages);
    }
  }

  /** `main(path)`: the two nested loops over `os.walk(path)`. */
  method Run(walk: seq<WalkStep>, stages: Stages) returns (log: seq<Handled>)
    ensures log == Trace(walk, stages)
  {
    log := [];
    for d := 0 to |walk|
      invariant log == Trace(walk[..d], stages)
    {
      assert walk[..d + 1][..d] == walk[..d];
      var pathname, filenames := walk[d].dirPath, walk[d].filenames;
      for j := 0 to |filenames|
        invariant log == Trace(walk[..d], stages) + DirTrace(pathname, filenames[..j], stages)
      {
        var fate := HandleFile(pathname, filenames[j], stages);
        DirTraceStep(pathname, filenames, j, stages);
        log := log + [Handled(Join(pathname, filenames[j]), fate)];
      }
      assert filenames[..|filenames|] == filenames;
    }
    assert walk[..|walk|] == walk;
  }

  lemma DirTraceStep(dirPath: string, filenames: seq<string>, j: nat, stages: Stages)
    requires j < |filenames|
    ensures DirTrace(dirPath, filenames[..j + 1], stages) ==
      DirTrace(dirPath, filenames[..j], stages) + [Handled(Join(dirPath, filenames[j]), FateOf(dirPath, filenames[j], stages))]
  {
    var a := DirTrace(dirPath, filenames[..j + 1], stages);
    var b := DirTrace(dirPath, filenames[..j], stages) + [Handled(Join(dirPath, filenames[j]), FateOf(dirPath, filenames[j], stages))];
    assert |a| == |b|;
    forall k | 0 <= k < |a| ensures a[k] == b[k] {
      assert filenames[..j + 1][k] == filenames[k];
      if k < j { assert filenames[..j][k] == filenames[k]; }
    }
  }

  /** A file whose name has none of the suffixes is logged and skipped:
      nothing is converted and the API is not called. */
  lemma RejectedFileIsSkipped(dirPath: string, filename: string, stages: Stages)
    ensures !Supported(filename) <==> FateOf(dirPath, filename, stages) == Unsupported
    ensures !Supported(filename) ==> !Converted(FateOf(dirPath, filename, stages))
  {
  }

  /** The API is called only for a supported file whose size was read and
      whose conversion, under the file's format tag, returned a truthy
      value; that value is what the API receives. */
  lemma ApiCalledOnlyAfterTruthyConversion(dirPath: string, filename: string, stages: Stages)
    requires ApiCalled(FateOf(dirPath, filename, stages))
    ensures var fate, file := FateOf(dirPath, filename, stages), Join(dirPath, filename);
      Supported(filename) && stages.getSize(file).Returned? &&
      stages.convert(file, AfterLastDot(filename)) == Returned(fate.data) &&
      Truthy(fate.data)
  {
  }

  /** A conversion that raises or returns a falsy value ends the file
      before any API call. */
  lemma FailedConversionSkipsApi(dirPath: string, filename: string, stages: Stages)
    requires Supported(filename) && stages.getSize(Join(dirPath, filename)).Returned?
    requires var c := stages.convert(Join(dirPath, filename), AfterLastDot(filename));
      c.Raised? || !Truthy(c.value)
    ensures Converted(FateOf(dirPath, filename, stages))
    ensures !ApiCalled(FateOf(dirPath, filename, stages))
  {
  }

  /** Whatever the API returns, `None` or an empty reply included, is
      handed to the extraction. */
  lemma FalsyResponseStillExtracted(dirPath: string, filename: string, stages: Stages, response: Option<Response>)
    requires Supported(filename) && stages.getSize(Join(dirPath, filename)).Returned?
    requires var c := stages.convert(Join(dirPath, filename), AfterLastDot(filename));
      c.Returned? && Truthy(c.value) && stages.callApi(c.value) == Returned(response)
    ensures ExtractionTried(FateOf(dirPath, filename, stages))
    ensures FateOf(dirPath, filename, stages).response == response
  {
  }

  /** The acceptance test is a suffix test on the lower-cased name:
      `.pdf` and `.heif` files are accepted whatever their case. */
  lemma SupportedExamples()
    ensures Supported(".pdf") && Supported("SCAN.HEIF") && Supported("a.xlsx")
  {
    PdfNameSupported();
    ScanHeifSupported();
    XlsxSupported();
  }

  lemma PdfNameSupported()
    ensures Supported(".pdf")
  {
    var name := ".pdf";
    assert name[0] == '.' && name[1] == 'p' && name[2] == 'd' && name[3] == 'f';
    SupportedBy(name, name, 4);
  }

  lemma XlsxSupported()
    ensures Supported("a.xlsx")
  {
    var name := "a.xlsx";
    assert name[1..] == ".xlsx";
    assert name[0] == 'a' && name[1] == '.' && name[2] == 'x' && name[3] == 'l' && name[4] == 's' && name[5] == 'x';
    SupportedBy(name, name, 5);
  }

  lemma ScanHeifSupported()
    ensures Supported("SCAN.HEIF")
  {
    var name, low := "SCAN.HEIF", "scan.heif";
    assert low[4..] == ".heif";
    assert LowerChar('S') == 's' && LowerChar('C') == 'c' && LowerChar('A') == 'a' && LowerChar('N') == 'n';
    assert LowerChar('H') == 'h' && LowerChar('E') == 'e' && LowerChar('I') == 'i' && LowerChar('F') == 'f';
    assert LowerChar('.') == '.';
    SupportedBy(name, low, 3);
  }

  /** A name whose lower-cased form `low` ends with supported format `k`. */
  lemma SupportedBy(filename: string, low: string, k: int)
    requires 0 <= k < |SupportedFormats|
    requires |low| == |filename|
    requires forall i :: 0 <= i < |low| ==> low[i] == LowerChar(filename[i])
    requires EndsWith(low, SupportedFormats[k])
    ensures Supported(filename)
  {
    assert Lower(filename) == low;
  }

  /** `.heic` images and Word documents are rejected. */
  lemma RejectedExamples()
    ensures !Supported("a.heic") && !Supported("a.docx")
  {
    HeicRejected();
    DocxRejected();
  }

  lemma HeicRejected()
    ensures !Supported("a.heic")
  {
    var low := "a.heic";
    assert Lower(low) == low;
    forall k | 0 <= k < |SupportedFormats| ensures !EndsWith(low, SupportedFormats[k]) {
      var f := SupportedFormats[k];
      if EndsWith(low, f) {
        EndsWithAt(low, f, |f| - 1);
        assert false;
      }
    }
  }

  lemma DocxRejected()
    ensures !Supported("a.docx")
  {
    var low := "a.docx";
    assert Lower(low) == low;
    forall k | 0 <= k < |SupportedFormats| ensures !EndsWith(low, SupportedFormats[k]) {
      var f := SupportedFormats[k];
      if EndsWith(low, f) {
        EndsWithAt(low, f, |f| - 1);
        EndsWithAt(low, f, |f| - 2);
        assert false;
      }
    }
  }

  /** The run loop and the batch test disagree on names: a file named
      `.pdf`, or an `.heif` image, is converted by the run loop but skipped
      by `process_folder`. */
  lemma AcceptanceDiffersFromFolderFilter()
    ensures Supported(".pdf") && !AutoTest.Whitelisted(".pdf")
    ensures Supported("a.heif") && !AutoTest.Whitelisted("a.heif")
  {
    SupportedExamples();
    AutoTest.LeadingDotNameSkipped();
    HeifSupported();
    HeifNotWhitelisted();
  }

  lemma HeifSupported()
    ensures Supported("a.heif")
  {
    SupportedBy("a.heif", "a.heif", 3);
  }

  lemma HeifNotWhitelisted()
    ensures !AutoTest.Whitelisted("a.heif")
  {
    HeifExtension();
    assert Lower(".heif") == ".heif";
  }

  lemma HeifExtension()
    ensures SplitExt("a.heif") == ".heif"
  {
    var name := "a.heif";
    LastIndexOfAt(name, '/', -1);
    assert name[1] == '.' && name[2] != '.' && name[3] != '.' && name[4] != '.' && name[5] != '.';
    LastIndexOfAt(name, '.', 1);
    assert HasNonDot(name, 0, 1) by { assert name[0] != '.'; }
  }

  /** The format tag keeps the name's case: `A.PDF` gives `PDF`. */
  lemma FormatTagKeepsCase()
    ensures AfterLastDot("A.PDF") == "PDF"
  {
    var name := "A.PDF";
    assert name[1] == '.' && name[2] != '.' && name[3] != '.' && name[4] != '.';
    LastIndexOfAt(name, '.', 1);
  }
}
