/**
 * Layer 2 of the pipeline (analise_estrutura.py): end-of-file markers,
 * metadata dates, embedded scripts and free objects of a PDF; macros,
 * dates and revision tracking of a word-processing package. What pikepdf
 * and lxml read out of the file is given as input.
 */
module Structure {
  import opened Common
  import opened Strings

  // ---------------------------------------------------------- %%EOF markers

  /** The bytes of `%%EOF`. */
  const EofMarker: seq<byte> := [37, 37, 69, 79, 70]

  /** `len(re.findall(br"%%EOF", b))`: a left-to-right scan that resumes after each match. */
  function CountEofMarkers(b: seq<byte>): (r: nat)
    ensures 5 * r <= |b|
    decreases |b|
  {
    if |b| < 5 then 0
    else if b[..5] == EofMarker then 1 + CountEofMarkers(b[5..])
    else CountEofMarkers(b[1..])
  }

  /** The number of positions at which the marker starts, overlapping or not. */
  function MarkerOccurrences(b: seq<byte>): nat
    decreases |b|
  {
    if |b| < 5 then 0
    else (if b[..5] == EofMarker then 1 else 0) + MarkerOccurrences(b[1..])
  }

  /** No occurrence of the marker starts 1 to 4 bytes after another one. */
  lemma NoOccurrenceInsideMarker(b: seq<byte>)
    requires |b| >= 5 && b[..5] == EofMarker
    ensures MarkerOccurrences(b[1..]) == MarkerOccurrences(b[5..])
  {
    assert b[1] == 37 && b[2] == 69 && b[3] == 79 && b[4] == 70;
    var b1, b2, b3, b4 := b[1..], b[2..], b[3..], b[4..];
    assert b1[1..] == b2 && b2[1..] == b3 && b3[1..] == b4 && b4[1..] == b[5..];
    assert |b1| >= 5 ==> b1[..5][1] == 69 && b1[..5] != EofMarker;
    assert |b2| >= 5 ==> b2[..5][0] == 69 && b2[..5] != EofMarker;
    assert |b3| >= 5 ==> b3[..5][0] == 79 && b3[..5] != EofMarker;
    assert |b4| >= 5 ==> b4[..5][0] == 70 && b4[..5] != EofMarker;
    assert MarkerOccurrences(b4) == MarkerOccurrences(b[5..]);
    assert MarkerOccurrences(b3) == MarkerOccurrences(b4);
    assert MarkerOccurrences(b2) == MarkerOccurrences(b3);
    assert MarkerOccurrences(b1) == MarkerOccurrences(b2);
  }

  /** `%%EOF` cannot overlap itself, so the scan counts every occurrence. */
  lemma {:induction false} EofScanCountsEveryOccurrence(b: seq<byte>)
    ensures CountEofMarkers(b) == MarkerOccurrences(b)
    decreases |b|
  {
    if |b| >= 5 {
      if b[..5] == EofMarker {
        EofScanCountsEveryOccurrence(b[5..]);
        NoOccurrenceInsideMarker(b);
      } else {
        EofScanCountsEveryOccurrence(b[1..]);
      }
    }
  }

  /** Appending a revision that ends with the marker adds one: the count grows with each update. */
  lemma {:induction false} EofMarkersOfAppendedRevision(b: seq<byte>, revision: seq<byte>)
    ensures CountEofMarkers(b + revision + EofMarker) >= CountEofMarkers(b) + 1
    decreases |b|
  {
    EofScanCountsEveryOccurrence(b + revision + EofMarker);
    EofScanCountsEveryOccurrence(b);
    OccurrencesOfConcat(b, revision + EofMarker);
    assert b + revision + EofMarker == b + (revision + EofMarker);
    OccurrencesOfSuffix(revision, EofMarker);
  }

  lemma {:induction false} OccurrencesOfConcat(a: seq<byte>, c: seq<byte>)
    ensures MarkerOccurrences(a + c) >= MarkerOccurrences(a) + MarkerOccurrences(c)
    decreases |a|
  {
    if a == [] {
      assert a + c == c;
    } else {
      assert (a + c)[1..] == a[1..] + c;
      OccurrencesOfConcat(a[1..], c);
      if |a| >= 5 {
        assert (a + c)[..5] == a[..5];
      }
    }
  }

  lemma {:induction false} OccurrencesOfSuffix(a: seq<byte>, c: seq<byte>)
    requires c == EofMarker
    ensures MarkerOccurrences(a + c) >= 1
    decreases |a|
  {
    if a == [] {
      assert a + c == c;
    } else {
      assert (a + c)[1..] == a[1..] + c;
      OccurrencesOfSuffix(a[1..], c);
    }
  }

  // ------------------------------------------------------------- dates

  /** `str(info.get(key)) if info else None`: an empty docinfo gives None, a missing key "None". */
  function DocinfoDate(info: map<string, string>, key: string): (r: Option<string>)
    ensures |info| == 0 <==> r.None?
    ensures |info| > 0 && key in info ==> r == Some(info[key])
    ensures |info| > 0 && key !in info ==> r == Some("None")
  {
    if |info| == 0 then None else Some(if key in info then info[key] else "None")
  }

  /** `mod_after_creation`: set only when both dates are non-empty, then `mod_date > creation_date`. */
  function ModAfterCreation(creation: Option<string>, modified: Option<string>): (r: Option<bool>)
    ensures r.Some? <==> Truthy(creation) && Truthy(modified)
    ensures r.Some? ==> (r.value <==> LexLess(creation.value, modified.value))
    ensures r.Some? && creation == modified ==> !r.value
    ensures r == Some(true) ==> creation != modified && !LexLess(modified.value, creation.value)
  {
    if Truthy(creation) && Truthy(modified) then
      LexLessIrreflexive(creation.value);
      if LexLess(creation.value, modified.value) then
        LexLessAsymmetric(creation.value, modified.value);
        Some(true)
      else Some(false)
    else None
  }

  /** Fixed-width PDF date prefixes compare chronologically: a later year is "greater". */
  lemma ModAfterCreationExample()
    ensures ModAfterCreation(Some("D:2020"), Some("D:2021")) == Some(true)
    ensures ModAfterCreation(Some("D:2020"), Some("D:2020")) == Some(false)
    ensures ModAfterCreation(Some("D:2021"), Some("D:2020")) == Some(false)
  {
    var a, b := "D:2020", "D:2021";
    LexLessCommonPrefix("D:202", "0", "1");
    assert "D:202" + "0" == a && "D:202" + "1" == b;
    LexLessAsymmetric(a, b);
  }

  // ------------------------------------------------------------ scripts

  /** One item of the object traversal: a dictionary with its keys, another object, or the point where iteration raised. */
  datatype PdfObject = DictObject(keys: set<string>) | OtherObject | IterationFault

  predicate HasScriptKey(o: PdfObject) {
    o.DictObject? && ("/JavaScript" in o.keys || "/JS" in o.keys)
  }

  /** `_detect_javascript` as a function: the traversal stops at the first script key or the first fault. */
  function ScriptDetected(objs: seq<PdfObject>): (r: bool)
    ensures r <==> exists i :: 0 <= i < |objs| && HasScriptKey(objs[i]) &&
                              forall j :: 0 <= j < i ==> !objs[j].IterationFault?
    decreases |objs|
  {
    if objs == [] then false
    else if objs[0].IterationFault? then false
    else if HasScriptKey(objs[0]) then true
    else
      var rest := ScriptDetected(objs[1..]);
      assert forall i :: 1 <= i < |objs| ==> objs[i] == objs[1..][i - 1];
      rest
  }

  /** `_detect_javascript`: scan the objects, returning at the first script key, false at a fault. */
  method DetectJavascript(objs: seq<PdfObject>) returns (found: bool)
    ensures found <==> exists i :: 0 <= i < |objs| && HasScriptKey(objs[i]) &&
                                  forall j :: 0 <= j < i ==> !objs[j].IterationFault?
    ensures found == ScriptDetected(objs)
  {
    var i := 0;
    while i < |objs|
      invariant 0 <= i <= |objs|
      invariant forall j :: 0 <= j < i ==> !objs[j].IterationFault? && !HasScriptKey(objs[j])
    {
      if objs[i].IterationFault? {
        return false;
      }
      if HasScriptKey(objs[i]) {
        return true;
      }
      i := i + 1;
    }
    return false;
  }

  // ------------------------------------------------------------ PDF path

  datatype PdfStructureFindings = PdfStructureFindings(
    incrementalUpdates: bool,
    eofMarkers: nat,
    creationDate: Option<string>,
    modDate: Option<string>,
    modAfterCreation: Option<bool>,
    javascriptDetected: bool,
    suspiciousObjects: seq<string>)

  /** What pikepdf gives for the opened file. */
  datatype PikeDocument = PikeDocument(
    docinfo: map<string, string>,
    objects: seq<PdfObject>,
    /** `pdf.xref_free_objects`, or the exception reading it raised. */
    freeObjects: Result<set<nat>>)

  datatype PdfStructureEnv = PdfStructureEnv(
    pikepdfAvailable: bool,
    /** `pikepdf.open(path)`, or the exception it raised. */
    openResult: Result<PikeDocument>)

  const JavascriptTag := "JavaScript_embutido"
  const FreeObjectsTag := "Objetos_free:"

  /** The suspicious-object list `_analyze_pdf` builds. */
  function SuspiciousObjects(javascript: bool, freeObjects: Result<set<nat>>): (r: seq<string>)
    ensures (|r| > 0 && r[0] == JavascriptTag) <==> javascript
    ensures freeObjects.Ok? ==>
      ((FreeObjectsTag + NatToString(|freeObjects.value|) in r) <==> |freeObjects.value| > 0)
    ensures |r| == (if javascript then 1 else 0) + (if freeObjects.Ok? && |freeObjects.value| > 0 then 1 else 0)
    ensures forall s :: s in r ==> s == JavascriptTag || (freeObjects.Ok? && s == FreeObjectsTag + NatToString(|freeObjects.value|))
  {
    var first := if javascript then [JavascriptTag] else [];
    if freeObjects.Ok? && |freeObjects.value| > 0 then
      var tag := FreeObjectsTag + NatToString(|freeObjects.value|);
      assert tag[0] == 'O' && tag != JavascriptTag;
      first + [tag]
    else first
  }

  /** The findings `_analyze_pdf` returns for the file's bytes and the opened document. */
  function PdfFindings(bytes: seq<byte>, doc: PikeDocument): (r: PdfStructureFindings)
    ensures r.eofMarkers == MarkerOccurrences(bytes) && r.eofMarkers == CountEofMarkers(bytes)
    ensures r.incrementalUpdates <==> r.eofMarkers > 1
    ensures r.creationDate == DocinfoDate(doc.docinfo, "/CreationDate")
    ensures r.modDate == DocinfoDate(doc.docinfo, "/ModDate")
    ensures r.modAfterCreation == ModAfterCreation(r.creationDate, r.modDate)
    ensures r.javascriptDetected == ScriptDetected(doc.objects)
    ensures r.suspiciousObjects == SuspiciousObjects(r.javascriptDetected, doc.freeObjects)
  {
    EofScanCountsEveryOccurrence(bytes);
    var markers := CountEofMarkers(bytes);
    var creation := DocinfoDate(doc.docinfo, "/CreationDate");
    var modified := DocinfoDate(doc.docinfo, "/ModDate");
    var js := ScriptDetected(doc.objects);
    PdfStructureFindings(markers > 1, markers, creation, modified, ModAfterCreation(creation, modified),
                         js, SuspiciousObjects(js, doc.freeObjects))
  }

  const PikepdfMissing := "pikepdf não instalado – instale para análise estrutural de PDFs"

  /** `_analyze_pdf`: the specification of AnalyzePdf. */
  function AnalyzePdfSpec(file: FileRef, env: PdfStructureEnv): (r: Result<PdfStructureFindings>)
    ensures !env.pikepdfAvailable ==> r == Err(RuntimeError(PikepdfMissing))
    ensures env.pikepdfAvailable && file.kind == Directory ==> r == Err(IsADirectoryError(file.path))
    ensures env.pikepdfAvailable && file.kind != Directory && env.openResult.Err? ==> r == Err(env.openResult.error)
    ensures r.Ok? <==> env.pikepdfAvailable && file.kind != Directory && env.openResult.Ok?
    ensures r.Ok? ==>
      && r.value.eofMarkers == MarkerOccurrences(file.bytes)
      && 5 * r.value.eofMarkers <= |file.bytes|
      && (r.value.incrementalUpdates <==> r.value.eofMarkers > 1)
      && r.value.modAfterCreation == ModAfterCreation(r.value.creationDate, r.value.modDate)
      && r.value.javascriptDetected == ScriptDetected(env.openResult.value.objects)
      && r.value.suspiciousObjects == SuspiciousObjects(r.value.javascriptDetected, env.openResult.value.freeObjects)
  {
    if !env.pikepdfAvailable then Err(RuntimeError(PikepdfMissing))
    else if file.kind == Directory then Err(IsADirectoryError(file.path))
    else match env.openResult
      case Err(e) => Err(e)
      case Ok(doc) => Ok(PdfFindings(file.bytes, doc))
  }

  /** `_analyze_pdf`, with the suspicious list built by appends as the source does. */
  method AnalyzePdf(file: FileRef, env: PdfStructureEnv) returns (r: Result<PdfStructureFindings>)
    ensures r == AnalyzePdfSpec(file, env)
  {
    if !env.pikepdfAvailable {
      return Err(RuntimeError(PikepdfMissing));
    }
    if file.kind == Directory {
      return Err(IsADirectoryError(file.path));
    }
    var eofMarkers := CountEofMarkers(file.bytes);
    var incrementalUpdates := eofMarkers > 1;
    if env.openResult.Err? {
      return Err(env.openResult.error);
    }
    var doc := env.openResult.value;
    var suspicious: seq<string> := [];
    var creationDate := DocinfoDate(doc.docinfo, "/CreationDate");
    var modDate := DocinfoDate(doc.docinfo, "/ModDate");
    var modAfterCreation := ModAfterCreation(creationDate, modDate);
    var javascript := DetectJavascript(doc.objects);
    if javascript {
      suspicious := suspicious + [JavascriptTag];
    }
    if doc.freeObjects.Ok? && |doc.freeObjects.value| > 0 {
      suspicious := suspicious + [FreeObjectsTag + NatToString(|doc.freeObjects.value|)];
    }
    assert suspicious == SuspiciousObjects(javascript, doc.freeObjects);
    r := Ok(PdfStructureFindings(incrementalUpdates, eofMarkers, creationDate, modDate, modAfterCreation,
                                 javascript, suspicious));
  }

  // ------------------------------------------------------------ DOCX path

  datatype DocxStructureFindings = DocxStructureFindings(
    hasTrackChanges: bool,
    hasMacros: bool,
    creationDate: Option<string>,
    modDate: Option<string>,
    modAfterCreation: Option<bool>)

  const MacroPart := "vbaproject.bin"
  const LxmlMissing := "lxml não instalado – instale para análise estrutural de DOCX"

  /** Some entry name, lower-cased, ends with `vbaproject.bin`. */
  predicate HasMacros(names: seq<string>) {
    exists i :: 0 <= i < |names| && EndsWith(Lower(names[i]), MacroPart)
  }

  /** The three date fields read from docProps/core.xml. */
  function CoreDates(core: XmlPart<CoreProperties>): (r: Result<(Option<string>, Option<string>, Option<bool>)>)
    ensures core.PartMissing? ==> r == Ok((None, None, None))
    ensures core.PartMalformed? ==> r == Err(LibraryError(core.message))
    ensures core.PartParsed? ==>
      r == Ok((core.content.created, core.content.modified,
               ModAfterCreation(core.content.created, core.content.modified)))
  {
    match core
    case PartMissing => Ok((None, None, None))
    case PartMalformed(m) => Err(LibraryError(m))
    case PartParsed(c) => Ok((c.created, c.modified, ModAfterCreation(c.created, c.modified)))
  }

  /** The track-changes flag read from word/settings.xml; a missing part gives false. */
  function TrackChanges(settings: XmlPart<Settings>): (r: Result<bool>)
    ensures settings.PartMissing? ==> r == Ok(false)
    ensures settings.PartMalformed? ==> r.Err?
    ensures settings.PartParsed? ==> r == Ok(settings.content.trackRevisions)
  {
    match settings
    case PartMissing => Ok(false)
    case PartMalformed(m) => Err(LibraryError(m))
    case PartParsed(s) => Ok(s.trackRevisions)
  }

  /** The findings once macros are known: dates, then track changes, each failing on a malformed part. */
  function DocxFindingsWith(hasMacros: bool, pkg: Package): Result<DocxStructureFindings> {
    match CoreDates(pkg.core)
    case Err(e) => Err(e)
    case Ok(dates) =>
      match TrackChanges(pkg.settings)
      case Err(e) => Err(e)
      case Ok(track) => Ok(DocxStructureFindings(track, hasMacros, dates.0, dates.1, dates.2))
  }

  /**
   * `_analyze_docx` as written: line 142 reads `p.name` from the `ZipInfo`
   * entries of `zf.infolist()`; `ZipInfo` has `filename` and no `name`, so
   * the first entry raises AttributeError. An empty archive reads no entry.
   */
  function AnalyzeDocxAsWritten(lxmlAvailable: bool, archive: Result<Package>): Result<DocxStructureFindings> {
    if !lxmlAvailable then Err(RuntimeError(LxmlMissing))
    else match archive
      case Err(e) => Err(e)
      case Ok(pkg) =>
        if pkg.names != [] then Err(AttributeError("ZipInfo", "name"))
        else DocxFindingsWith(false, pkg)
  }

  /** `_analyze_docx` with the entry name read as `filename`, as the comment on line 141 intends. */
  function AnalyzeDocx(lxmlAvailable: bool, archive: Result<Package>): (r: Result<DocxStructureFindings>)
    ensures !lxmlAvailable ==> r == Err(RuntimeError(LxmlMissing))
    ensures lxmlAvailable && archive.Err? ==> r == Err(archive.error)
    ensures r.Ok? ==> archive.Ok? && (r.value.hasMacros <==> HasMacros(archive.value.names))
    ensures lxmlAvailable && archive.Ok? && archive.value.core.PartMissing? && r.Ok? ==>
      r.value.creationDate.None? && r.value.modDate.None? && r.value.modAfterCreation.None?
    ensures lxmlAvailable && archive.Ok? && archive.value.settings.PartMissing? && r.Ok? ==>
      !r.value.hasTrackChanges
    ensures lxmlAvailable && archive.Ok? && archive.value.core.PartParsed? && r.Ok? ==>
      var c := archive.value.core.content;
      && r.value.creationDate == c.created && r.value.modDate == c.modified
      && r.value.modAfterCreation == ModAfterCreation(c.created, c.modified)
    ensures lxmlAvailable && archive.Ok? && archive.value.settings.PartParsed? && r.Ok? ==>
      r.value.hasTrackChanges == archive.value.settings.content.trackRevisions
    ensures lxmlAvailable && archive.Ok? ==>
      (r.Ok? <==> !archive.value.core.PartMalformed? && !archive.value.settings.PartMalformed?)
  {
    if !lxmlAvailable then Err(RuntimeError(LxmlMissing))
    else match archive
      case Err(e) => Err(e)
      case Ok(pkg) => DocxFindingsWith(HasMacros(pkg.names), pkg)
  }

  /** The as-written analysis fails on every package that has an entry, and agrees with the corrected one otherwise. */
  lemma MacroScanAttributeFinding(pkg: Package)
    ensures pkg.names != [] ==> AnalyzeDocxAsWritten(true, Ok(pkg)) == Err(AttributeError("ZipInfo", "name"))
    ensures pkg.names == [] ==> AnalyzeDocxAsWritten(true, Ok(pkg)) == AnalyzeDocx(true, Ok(pkg))
  {
  }

  /** A package holding a macro project: the as-written code raises, the corrected one flags macros. */
  lemma MacroScanCounterexample()
    ensures AnalyzeDocxAsWritten(true, Ok(Package(["word/vbaProject.bin"], PartMissing, PartMissing))).Err?
    ensures AnalyzeDocx(true, Ok(Package(["word/vbaProject.bin"], PartMissing, PartMissing)))
      == Ok(DocxStructureFindings(false, true, None, None, None))
  {
    var names := ["word/vbaProject.bin"];
    var low := Lower(names[0]);
    assert low[|low| - |MacroPart|..] == MacroPart;
    assert HasMacros(names);
  }

  // ------------------------------------------------------------ dispatch

  datatype StructureReport = StructureReport(
    path: string,
    fileType: FileType,
    pdfFindings: Option<PdfStructureFindings>,
    docxFindings: Option<DocxStructureFindings>)

  datatype StructureEnv = StructureEnv(pdf: PdfStructureEnv, lxmlAvailable: bool)

  /**
   * `analyze_structure` once the DOCX analysis is fixed: dispatch on the
   * lower-cased suffix; `docx` is what `_analyze_docx` returns or raises,
   * consulted only for a .docx or .docm suffix.
   */
  function AnalyzeStructureWith(file: FileRef, env: StructureEnv, docx: Result<DocxStructureFindings>): (r: Result<StructureReport>)
    ensures file.kind == Missing ==> r == Err(FileNotFoundError(file.path))
    ensures file.kind != Missing && Lower(file.suffix) in {".docx", ".docm"} && docx.Err? ==> r == Err(docx.error)
  {
    if file.kind == Missing then Err(FileNotFoundError(file.path))
    else
      var suffix := Lower(file.suffix);
      if suffix == ".pdf" then
        match AnalyzePdfSpec(file, env.pdf)
        case Err(e) => Err(e)
        case Ok(f) => Ok(StructureReport(file.path, PDF, Some(f), None))
      else if suffix in {".docx", ".docm"} then
        match docx
        case Err(e) => Err(e)
        case Ok(f) => Ok(StructureReport(file.path, DOCX, None, Some(f)))
      else Ok(StructureReport(file.path, UNKNOWN, None, None))
  }

  /** `analyze_structure` with the corrected macro scan of `AnalyzeDocx`. */
  function AnalyzeStructure(file: FileRef, env: StructureEnv): (r: Result<StructureReport>)
    ensures file.kind == Missing ==> r == Err(FileNotFoundError(file.path))
    ensures r.Ok? ==> r.value.path == file.path
    ensures file.kind != Missing && Lower(file.suffix) == ".pdf" ==>
      match AnalyzePdfSpec(file, env.pdf)
      case Err(e) => r == Err(e)
      case Ok(f) => r == Ok(StructureReport(file.path, PDF, Some(f), None))
    ensures file.kind != Missing && Lower(file.suffix) in {".docx", ".docm"} ==>
      match AnalyzeDocx(env.lxmlAvailable, file.archive)
      case Err(e) => r == Err(e)
      case Ok(f) => r == Ok(StructureReport(file.path, DOCX, None, Some(f)))
    ensures file.kind != Missing && Lower(file.suffix) !in {".pdf", ".docx", ".docm"} ==>
      r == Ok(StructureReport(file.path, UNKNOWN, None, None))
    ensures r.Ok? ==> (r.value.pdfFindings.Some? <==> r.value.fileType == PDF)
    ensures r.Ok? ==> (r.value.docxFindings.Some? <==> r.value.fileType == DOCX)
  {
    AnalyzeStructureWith(file, env, AnalyzeDocx(env.lxmlAvailable, file.archive))
  }

  /** `analyze_structure` as written, reaching the AttributeError of line 142. */
  function AnalyzeStructureAsWritten(file: FileRef, env: StructureEnv): Result<StructureReport> {
    AnalyzeStructureWith(file, env, AnalyzeDocxAsWritten(env.lxmlAvailable, file.archive))
  }

  /**
   * As written, `analyze_structure` raises for every existing .docx or
   * .docm whose archive opens and has an entry, once lxml is installed.
   */
  lemma StructureAsWrittenRaises(file: FileRef, env: StructureEnv)
    requires file.kind != Missing && Lower(file.suffix) in {".docx", ".docm"}
    requires env.lxmlAvailable && file.archive.Ok? && file.archive.value.names != []
    ensures AnalyzeStructureAsWritten(file, env) == Err(AttributeError("ZipInfo", "name"))
  {
    MacroScanAttributeFinding(file.archive.value);
  }
}
