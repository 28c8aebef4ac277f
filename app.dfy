/** The upload surface (app/app.py): the extension gate applied before a
    file is saved, the suffix dispatch that picks an extractor, and the loop
    that indexes every chunk. The web framework, the file system and the
    vector store are abstracted: parsers are functions from a path to their
    output, and the indexing call is a function from the call's position,
    the file name and the chunk to the ids it returns. */
module App {
  import opened Outcomes
  import opened PyStrings
  import opened ImportFile

  /** `ALLOWED_EXTENSIONS`. */
  const AllowedExtensions: set<string> := {"pdf", "doc", "docx"}

  /** Message of the `RuntimeError` raised for a suffix with no extractor. */
  const UnsupportedExtensionMessage: string := "The file uploaded doesn't have a supported extension"

  /** `allowed_file`: the name holds a dot and the text after its last dot,
      lower-cased, is an allowed extension. */
  function AllowedFile(filename: string): (ok: bool)
    ensures ok ==> '.' in filename
  {
    '.' in filename && Lower(AfterLast(filename, '.')) in AllowedExtensions
  }

  /** The text after the last dot of `stem + "." + ext` is `ext` when `ext`
      holds no dot. */
  lemma AfterLastDot(stem: string, ext: string)
    requires '.' !in ext
    ensures '.' in stem + "." + ext
    ensures AfterLast(stem + "." + ext, '.') == ext
  {
    var s := stem + "." + ext;
    assert s[|stem|] == '.';
    forall k | |stem| < k < |s| ensures s[k] != '.' {
      assert s[k] == ext[k - |stem| - 1];
    }
    LastIndexOfUnique(s, '.', |stem|);
    assert s[|stem| + 1..] == ext;
  }

  /** The gate decides on the text after the last dot alone, and accepts
      exactly the extensions pdf, doc and docx in any letter case. */
  lemma AllowedFileOfExtension(stem: string, ext: string)
    requires '.' !in ext
    ensures AllowedFile(stem + "." + ext) <==> Lower(ext) in {"pdf", "doc", "docx"}
  {
    AfterLastDot(stem, ext);
  }

  lemma LowerIdempotent(s: string)
    ensures Lower(Lower(s)) == Lower(s)
  {
  }

  /** Lower-casing a name never creates or removes a dot. */
  lemma LowerKeepsDot(s: string)
    ensures '.' in Lower(s) <==> '.' in s
  {
    var low := Lower(s);
    if '.' in s {
      var k :| 0 <= k < |s| && s[k] == '.';
      assert low[k] == '.';
    }
    if '.' in low {
      var k :| 0 <= k < |low| && low[k] == '.';
      assert s[k] == '.';
    }
  }

  /** Lower-casing keeps the last dot where it is, so the text after it is
      lower-cased along with the name. */
  lemma LowerAfterLastDot(s: string)
    requires '.' in s
    ensures '.' in Lower(s)
    ensures AfterLast(Lower(s), '.') == Lower(AfterLast(s, '.'))
  {
    LowerKeepsDot(s);
    LowerLastDot(s);
    LowerSuffix(s, LastIndexOf(s, '.') + 1);
  }

  /** The last dot of a lower-cased name is the last dot of the name. */
  lemma LowerLastDot(s: string)
    ensures LastIndexOf(Lower(s), '.') == LastIndexOf(s, '.')
  {
    LowerKeepsDot(s);
    var low := Lower(s);
    var i := LastIndexOf(s, '.');
    LastIndexOfSpec(s, '.');
    forall k | i < k < |low| ensures low[k] != '.' {
      assert low[k] == LowerChar(s[k]);
    }
    LastIndexOfUnique(low, '.', i);
  }

  /** Lower-casing commutes with taking a suffix. */
  lemma LowerSuffix(s: string, i: int)
    requires 0 <= i <= |s|
    ensures Lower(s)[i..] == Lower(s[i..])
  {
  }

  /** Lower-casing a name never changes the gate's verdict. */
  lemma AllowedFileOfLower(filename: string)
    ensures AllowedFile(Lower(filename)) == AllowedFile(filename)
  {
    LowerKeepsDot(filename);
    if '.' in filename {
      LowerAfterLastDot(filename);
      LowerIdempotent(AfterLast(filename, '.'));
    }
  }

  /** Two names that differ only in letter case are both accepted or both
      rejected. */
  lemma AllowedFileIgnoresCase(f: string, g: string)
    requires Lower(f) == Lower(g)
    ensures AllowedFile(f) == AllowedFile(g)
  {
    AllowedFileOfLower(f);
    AllowedFileOfLower(g);
  }

  /** The gate reads only the text after the last dot: "a.tar.pdf" is
      accepted. */
  lemma AllowedFileInnerDotIgnored()
    ensures AllowedFile("a.tar.pdf")
  {
    LowerOfAllowed();
    AllowedFileOfExtension("a.tar", "pdf");
    assert "a.tar" + "." + "pdf" == "a.tar.pdf";
  }

  /** The gate reads only the text after the last dot: "a.pdf.exe" is
      rejected. */
  lemma AllowedFileLastDotDecides()
    ensures !AllowedFile("a.pdf.exe")
  {
    assert Lower("exe") == "exe";
    AllowedFileOfExtension("a.pdf", "exe");
    assert "a.pdf" + "." + "exe" == "a.pdf.exe";
  }

  /** A name ending in a dot has an empty extension and is rejected. */
  lemma AllowedFileEmptyExtension(stem: string)
    ensures !AllowedFile(stem + ".")
  {
    AfterLastDot(stem, "");
    assert stem + "." == stem + "." + "";
  }

  /** Upper-case extensions are accepted: "REPORT.DOCX" passes. */
  lemma AllowedFileUpperCase()
    ensures AllowedFile("REPORT.DOCX")
  {
    assert Lower("DOCX") == "docx";
    AllowedFileOfExtension("REPORT", "DOCX");
    assert "REPORT" + "." + "DOCX" == "REPORT.DOCX";
  }

  /** True when `s` is made of dots only (the empty text included). */
  predicate AllDots(s: string)
  {
    forall k :: 0 <= k < |s| ==> s[k] == '.'
  }

  /** `os.path.splitext(p)[1]` with POSIX separators: the text from the last
      dot of the last path component on, provided something other than a
      dot precedes that dot within the component; the empty text
      otherwise. */
  function SplitExt(p: string): (ext: string)
    ensures ext != [] ==> 0 <= LastIndexOf(p, '.') && ext == p[LastIndexOf(p, '.')..]
    ensures ext != [] ==> '/' !in ext
  {
    var sepIndex := LastIndexOf(p, '/');
    var dotIndex := LastIndexOf(p, '.');
    LastIndexOfSpec(p, '/');
    if dotIndex > sepIndex && !AllDots(p[sepIndex + 1 .. dotIndex]) then p[dotIndex..] else ""
  }

  /** A file name and a dot-free, separator-free extension: the suffix is
      that extension with its dot, unless the last path component of the
      stem is made of dots only. */
  lemma SplitExtOf(stem: string, ext: string)
    requires '.' !in ext && '/' !in ext
    ensures SplitExt(stem + "." + ext)
         == if AllDots(stem[LastIndexOf(stem, '/') + 1..]) then "" else "." + ext
  {
    var p := stem + "." + ext;
    AfterLastDot(stem, ext);
    assert LastIndexOf(p, '.') == |stem|;
    var j := LastIndexOf(stem, '/');
    LastSlashOf(stem, ext);
    SlicesOf(stem, ext, j + 1);
  }

  lemma SlicesOf(stem: string, ext: string, lo: int)
    requires 0 <= lo <= |stem|
    ensures (stem + "." + ext)[lo .. |stem|] == stem[lo..]
    ensures (stem + "." + ext)[|stem|..] == "." + ext
  {
  }

  /** A dot and a separator-free extension leave the last separator where
      it was. */
  lemma LastSlashOf(stem: string, ext: string)
    requires '/' !in ext
    ensures LastIndexOf(stem + "." + ext, '/') == LastIndexOf(stem, '/')
  {
    var p := stem + "." + ext;
    var j := LastIndexOf(stem, '/');
    LastIndexOfSpec(stem, '/');
    forall k | j < k < |p| ensures p[k] != '/' {
      if k < |stem| {
        assert p[k] == stem[k];
      } else if k > |stem| {
        assert p[k] == ext[k - |stem| - 1];
      }
    }
    if 0 <= j {
      assert p[j] == stem[j];
    }
    LastIndexOfUnique(p, '/', j);
  }

  /** The extractor `download_file` picks. */
  datatype Extractor = PdfExtractor | WordExtractor

  /** The `match` of `download_file` on the suffix: case-sensitive, ".pdf" to
      the PDF extractor, ".doc" and ".docx" to the Word extractor, anything
      else a `RuntimeError`. */
  function Dispatch(name: string): (r: Result<Extractor>)
    ensures r.Failure? ==> r.error == RuntimeError(UnsupportedExtensionMessage)
    ensures r.Success? ==> SplitExt(name) in {".pdf", ".doc", ".docx"}
  {
    match SplitExt(name)
    case ".pdf" => Success(PdfExtractor)
    case ".doc" => Success(WordExtractor)
    case ".docx" => Success(WordExtractor)
    case _ => Failure(RuntimeError(UnsupportedExtensionMessage))
  }

  /** Every name that dispatch sends to an extractor passes the gate. */
  lemma DispatchedIsAllowed(name: string)
    ensures Dispatch(name).Success? ==> AllowedFile(name)
  {
    var ext := SplitExt(name);
    if ext in {".pdf", ".doc", ".docx"} {
      var i := LastIndexOf(name, '.');
      assert name[i + 1..] == ext[1..];
      assert ".pdf"[1..] == "pdf" && ".doc"[1..] == "doc" && ".docx"[1..] == "docx";
      assert Lower(ext[1..]) == ext[1..];
    }
  }

  /** Which extractor a name of the form `stem + "." + ext` reaches. */
  lemma DispatchOf(stem: string, ext: string)
    requires '.' !in ext && '/' !in ext
    requires !AllDots(stem[LastIndexOf(stem, '/') + 1..])
    ensures Dispatch(stem + "." + ext)
         == if ext == "pdf" then Success(PdfExtractor)
            else if ext == "doc" || ext == "docx" then Success(WordExtractor)
            else Failure(RuntimeError(UnsupportedExtensionMessage))
  {
    SplitExtOf(stem, ext);
    DottedSuffix(ext);
  }

  /** A dotted suffix is one of those `download_file` dispatches exactly
      when its extension is, letter for letter. */
  lemma DottedSuffix(ext: string)
    ensures "." + ext == ".pdf" <==> ext == "pdf"
    ensures "." + ext == ".doc" <==> ext == "doc"
    ensures "." + ext == ".docx" <==> ext == "docx"
  {
    assert ("." + ext)[1..] == ext;
    assert ".pdf"[1..] == "pdf" && ".doc"[1..] == "doc" && ".docx"[1..] == "docx";
  }

  /** An extension the gate accepts only because it lower-cases it (such as
      "PDF") passes the gate and then fails dispatch. */
  lemma GateAcceptsWhatDispatchRejects(stem: string, ext: string)
    requires '.' !in ext && '/' !in ext
    requires Lower(ext) in AllowedExtensions && ext !in AllowedExtensions
    ensures AllowedFile(stem + "." + ext)
    ensures Dispatch(stem + "." + ext) == Failure(RuntimeError(UnsupportedExtensionMessage))
  {
    AllowedFileOfExtension(stem, ext);
    DispatchRejectsOtherCase(stem, ext);
  }

  /** Dispatch compares letter for letter: an extension outside
      `ALLOWED_EXTENSIONS` as written is rejected. */
  lemma DispatchRejectsOtherCase(stem: string, ext: string)
    requires '.' !in ext && '/' !in ext
    requires ext !in AllowedExtensions
    ensures Dispatch(stem + "." + ext) == Failure(RuntimeError(UnsupportedExtensionMessage))
  {
    SplitExtOf(stem, ext);
    DottedSuffix(ext);
  }

  /** "X.PDF" passes the gate and fails dispatch. */
  lemma UpperCasePdfPassesGateFailsDispatch()
    ensures AllowedFile("X.PDF")
    ensures Dispatch("X.PDF").Failure?
  {
    assert Lower("PDF") == "pdf";
    assert "X.PDF" == "X" + "." + "PDF";
    GateAcceptsWhatDispatchRejects("X", "PDF");
  }

  /** A name made of a dot and an extension has no suffix for `splitext`,
      whose leading dots belong to the name, so dispatch rejects it. */
  lemma DotfileFailsDispatch(ext: string)
    requires '.' !in ext && '/' !in ext
    ensures Dispatch("." + ext) == Failure(RuntimeError(UnsupportedExtensionMessage))
  {
    DotfileHasNoSuffix(ext);
    NoSuffixFailsDispatch("." + ext);
  }

  lemma DotfileHasNoSuffix(ext: string)
    requires '.' !in ext && '/' !in ext
    ensures SplitExt("." + ext) == ""
  {
    var p := "." + ext;
    forall k | 0 < k < |p| ensures p[k] != '.' && p[k] != '/' {
      assert p[k] == ext[k - 1];
    }
    LastIndexOfUnique(p, '/', -1);
    LastIndexOfUnique(p, '.', 0);
    assert AllDots(p[0..0]);
  }

  lemma NoSuffixFailsDispatch(name: string)
    requires SplitExt(name) == ""
    ensures Dispatch(name) == Failure(RuntimeError(UnsupportedExtensionMessage))
  {
  }

  /** ".pdf" passes the gate and fails dispatch. */
  lemma DotPdfPassesGateFailsDispatch()
    ensures AllowedFile(".pdf")
    ensures Dispatch(".pdf").Failure?
  {
    DotPdfPassesGate();
    DotPdfFailsDispatch();
  }

  lemma DotPdfPassesGate()
    ensures AllowedFile(".pdf")
  {
    LowerOfAllowed();
    DotfilePassesGate("pdf");
    assert "." + "pdf" == ".pdf";
  }

  lemma DotPdfFailsDispatch()
    ensures Dispatch(".pdf").Failure?
  {
    DotfileFailsDispatch("pdf");
    assert "." + "pdf" == ".pdf";
  }

  /** A dot followed by an allowed extension passes the gate. */
  lemma DotfilePassesGate(ext: string)
    requires '.' !in ext && Lower(ext) in AllowedExtensions
    ensures AllowedFile("." + ext)
  {
    AllowedFileOfExtension("", ext);
    assert "" + "." + ext == "." + ext;
  }

  /** Dispatch keyed on the gate's own reading of the extension: the text
      after the last dot, lower-cased. */
  function DispatchFixed(name: string): (r: Result<Extractor>)
    ensures r.Success? <==> AllowedFile(name)
    ensures r.Failure? ==> r.error == RuntimeError(UnsupportedExtensionMessage)
    ensures Dispatch(name).Success? ==> r == Dispatch(name)
    ensures r == Success(PdfExtractor)
        <==> '.' in name && Lower(AfterLast(name, '.')) == "pdf"
    ensures r == Success(WordExtractor)
        <==> '.' in name && Lower(AfterLast(name, '.')) in {"doc", "docx"}
  {
    if '.' !in name then Failure(RuntimeError(UnsupportedExtensionMessage))
    else
      var ext := Lower(AfterLast(name, '.'));
      DispatchReadsGateExtension(name);
      if ext == "pdf" then Success(PdfExtractor)
      else if ext in {"doc", "docx"} then Success(WordExtractor)
      else Failure(RuntimeError(UnsupportedExtensionMessage))
  }

  /** Dispatch's choice of extractor, read through the gate's lower-cased
      extension. */
  lemma DispatchReadsGateExtension(name: string)
    requires '.' in name
    ensures Dispatch(name) == Success(PdfExtractor)
        ==> Lower(AfterLast(name, '.')) == "pdf"
    ensures Dispatch(name) == Success(WordExtractor)
        ==> Lower(AfterLast(name, '.')) in {"doc", "docx"}
  {
    AgreesWithDispatch(name);
  }

  /** Where dispatch succeeds, the gate's lower-cased extension names the
      same format. */
  lemma AgreesWithDispatch(name: string)
    requires '.' in name
    ensures SplitExt(name) == ".pdf" ==> Lower(AfterLast(name, '.')) == "pdf"
    ensures SplitExt(name) == ".doc" ==> Lower(AfterLast(name, '.')) == "doc"
    ensures SplitExt(name) == ".docx" ==> Lower(AfterLast(name, '.')) == "docx"
  {
    var ext := SplitExt(name);
    if ext != [] {
      SuffixIsTextAfterLastDot(name);
      LowerOfAllowed();
      assert ".pdf"[1..] == "pdf" && ".doc"[1..] == "doc" && ".docx"[1..] == "docx";
    }
  }

  /** A non-empty suffix is the last dot and the text the gate reads. */
  lemma SuffixIsTextAfterLastDot(name: string)
    requires SplitExt(name) != []
    ensures '.' in name
    ensures AfterLast(name, '.') == SplitExt(name)[1..]
  {
    var i := LastIndexOf(name, '.');
    assert name[i] == '.';
  }

  /** The allowed extensions are already lower case. */
  lemma LowerOfAllowed()
    ensures Lower("pdf") == "pdf" && Lower("doc") == "doc" && Lower("docx") == "docx"
  {
  }

  /** The path `download_file` hands to the extractor. */
  function UploadPath(uploadFolder: string, name: string): (path: string)
    ensures |path| == |uploadFolder| + 1 + |name| && path[|uploadFolder|] == '/'
  {
    uploadFolder + "/" + name
  }

  /** The upload path is the folder, one separator and the name. */
  lemma UploadPathParts(uploadFolder: string, name: string)
    ensures UploadPath(uploadFolder, name)[..|uploadFolder|] == uploadFolder
    ensures UploadPath(uploadFolder, name)[|uploadFolder| + 1..] == name
  {
  }

  /** The chunks `download_file` obtains for `name`: those of the PDF pages
      or of the Word elements read from the saved file, or the dispatch
      error. */
  function ExtractedChunks(name: string, uploadFolder: string,
                           readPdf: string -> seq<string>,
                           parseWord: string -> seq<Item>): (r: Result<seq<string>>)
    ensures r.Failure? <==> Dispatch(name).Failure?
  {
    var path := UploadPath(uploadFolder, name);
    match Dispatch(name)
    case Failure(e) => Failure(e)
    case Success(PdfExtractor) => SplitIntoChunks(Concat(readPdf(path)), ExtractChunkSize)
    case Success(WordExtractor) => SplitIntoChunks(DocxText(parseWord(path)), ExtractChunkSize)
  }

  /** `ExtractedChunks` read off the suffix, branch by branch. */
  lemma ExtractedChunksBySuffix(name: string, uploadFolder: string,
                                readPdf: string -> seq<string>,
                                parseWord: string -> seq<Item>)
    ensures var ext, path := SplitExt(name), UploadPath(uploadFolder, name);
      var r := ExtractedChunks(name, uploadFolder, readPdf, parseWord);
      (ext == ".pdf" ==> r == SplitIntoChunks(Concat(readPdf(path)), ExtractChunkSize)) &&
      (ext == ".doc" || ext == ".docx" ==> r == SplitIntoChunks(DocxText(parseWord(path)), ExtractChunkSize)) &&
      (ext != ".pdf" && ext != ".doc" && ext != ".docx" ==> Dispatch(name).Failure?)
  {
  }

  /** The ids collected by indexing `chunks` in order: call `k` indexes
      chunk `k` and its ids are appended. */
  function IndexAll(name: string, chunks: seq<string>,
                    indexDoc: (nat, string, string) -> seq<string>): (ids: seq<string>)
    ensures forall k :: 0 <= k <= |chunks| ==> IndexAll(name, chunks[..k], indexDoc) <= ids
  {
    if chunks == [] then []
    else
      var init := chunks[..|chunks| - 1];
      var earlier := IndexAll(name, init, indexDoc);
      var ids := earlier + indexDoc(|chunks| - 1, name, chunks[|chunks| - 1]);
      assert forall k :: 0 <= k < |chunks| ==> init[..k] == chunks[..k];
      assert chunks[..|chunks|] == chunks;
      ids
  }

  /** When every indexing call returns one id, there is exactly one id per
      chunk, in chunk order. */
  lemma {:induction false} OneIdPerChunk(name: string, chunks: seq<string>,
                                         indexDoc: (nat, string, string) -> seq<string>)
    requires forall k: nat, c: string :: |indexDoc(k, name, c)| == 1
    ensures |IndexAll(name, chunks, indexDoc)| == |chunks|
    ensures forall k :: 0 <= k < |chunks| ==>
              IndexAll(name, chunks, indexDoc)[k] == indexDoc(k, name, chunks[k])[0]
  {
    if chunks != [] {
      var init := chunks[..|chunks| - 1];
      OneIdPerChunk(name, init, indexDoc);
      forall k | 0 <= k < |chunks| - 1
        ensures IndexAll(name, chunks, indexDoc)[k] == indexDoc(k, name, chunks[k])[0]
      {
        assert init[k] == chunks[k];
      }
    }
  }

  /** The loop of `download_file` that indexes the chunks one by one and
      collects the ids each call returns. */
  method IndexChunks(name: string, chunks: seq<string>,
                     indexDoc: (nat, string, string) -> seq<string>)
    returns (vectors: seq<string>)
    ensures vectors == IndexAll(name, chunks, indexDoc)
  {
    vectors := [];
    for k := 0 to |chunks|
      invariant vectors == IndexAll(name, chunks[..k], indexDoc)
    {
      assert chunks[..k + 1][..k] == chunks[..k];
      vectors := vectors + indexDoc(k, name, chunks[k]);
    }
    assert chunks[..|chunks|] == chunks;
  }

  /** `download_file`: pick the extractor from the suffix (or raise), chunk
      the saved file's text, then index the chunks and collect the ids. */
  method DownloadFile(name: string, uploadFolder: string,
                      readPdf: string -> seq<string>,
                      parseWord: string -> seq<Item>,
                      indexDoc: (nat, string, string) -> seq<string>)
    returns (r: Result<seq<string>>)
    ensures r.Failure? <==> Dispatch(name).Failure?
    ensures r.Failure? ==> r.error == RuntimeError(UnsupportedExtensionMessage)
    ensures r.Success? ==>
              r.value == IndexAll(name, ExtractedChunks(name, uploadFolder, readPdf, parseWord).value, indexDoc)
  {
    var ext := SplitExt(name);
    var path := UploadPath(uploadFolder, name);
    var chunks: seq<string>;
    ExtractedChunksBySuffix(name, uploadFolder, readPdf, parseWord);
    match ext {
      case ".pdf" =>
        chunks := GetPdfText(readPdf(path));
      case ".doc" =>
        chunks := GetDocxText(parseWord(path));
      case ".docx" =>
        chunks := GetDocxText(parseWord(path));
      case _ =>
        return Failure(RuntimeError(UnsupportedExtensionMessage));
    }
    var vectors := IndexChunks(name, chunks, indexDoc);
    return Success(vectors);
  }
}
