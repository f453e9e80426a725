/**
 * The orchestrator (verificador_documental.py): the five layers run in a
 * fixed order on one file, the visual layer only for a PDF without a text
 * layer, and a verdict that is a disjunction of four red flags. No layer's
 * exception is caught.
 */
module Pipeline {
  import opened Common
  import opened Strings
  import Signatures
  import Structure
  import Preprocess
  import Visual
  import TextAnalysis

  /** The six keys of the dict `run_pipeline` returns. */
  datatype PipelineResult = PipelineResult(
    preprocess: Preprocess.PreprocessInfo,
    assinaturaHash: Signatures.VerificationReport,
    estrutura: Structure.StructureReport,
    visual: Option<Visual.VisualReport>,
    texto: TextAnalysis.TextReport,
    verdict: string)

  /** Every library the layers reach; the digest pair is shared by preprocessing and verification. */
  datatype PipelineEnv = PipelineEnv(
    preprocess: Preprocess.PreprocessEnv,
    signatures: Signatures.SignatureEnv,
    structure: Structure.StructureEnv,
    visual: Visual.VisualEnv,
    text: TextAnalysis.TextEnv)

  // ------------------------------------------------------------ verdict

  /** The four things the verdict looks at. */
  datatype Evidence = Evidence(
    /** The first signature's status is VALID or UNVERIFIED_HYBRID. */
    trustedSignature: bool,
    incrementalUpdates: bool,
    javascript: bool,
    copyMove: bool,
    termsFound: bool)

  /** The statuses that do not raise suspicion on their own. */
  predicate Trusted(status: Signatures.Status) {
    status in {Signatures.Valid, Signatures.UnverifiedHybrid}
  }

  /** The evidence of the four reports; PDF findings count only when present, the visual report only when it ran. */
  function EvidenceOf(
    status: Signatures.Status,
    estrutura: Structure.StructureReport,
    visual: Option<Visual.VisualReport>,
    terms: seq<string>): Evidence
  {
    Evidence(
      Trusted(status),
      estrutura.pdfFindings.Some? && estrutura.pdfFindings.value.incrementalUpdates,
      estrutura.pdfFindings.Some? && estrutura.pdfFindings.value.javascriptDetected,
      visual.Some? && visual.value.copyMove,
      terms != [])
  }

  /** The `suspicious` expression. */
  predicate Suspicious(ev: Evidence) {
    || !ev.trustedSignature
    || (ev.incrementalUpdates && ev.javascript)
    || ev.copyMove
    || ev.termsFound
  }

  const SuspectLabel := "SUSPEITO"
  const CleanLabel := "OK"

  /** `"SUSPEITO" if suspicious else "OK"` */
  function VerdictLabel(suspicious: bool): (r: string)
    ensures r == SuspectLabel <==> suspicious
    ensures r in {SuspectLabel, CleanLabel}
  {
    if suspicious then SuspectLabel else CleanLabel
  }

  /** `b` carries every red flag `a` carries. */
  predicate AtLeastAsBad(b: Evidence, a: Evidence) {
    && (!a.trustedSignature ==> !b.trustedSignature)
    && (a.incrementalUpdates ==> b.incrementalUpdates)
    && (a.javascript ==> b.javascript)
    && (a.copyMove ==> b.copyMove)
    && (a.termsFound ==> b.termsFound)
  }

  /** Escalation is one-way: adding red flags never turns SUSPEITO back into OK. */
  lemma EscalationMonotone(a: Evidence, b: Evidence)
    requires AtLeastAsBad(b, a)
    ensures VerdictLabel(Suspicious(a)) == SuspectLabel ==> VerdictLabel(Suspicious(b)) == SuspectLabel
  {
  }

  /** Each red flag alone suffices, except the two structural ones, which count only together. */
  lemma SingleFlags(e: Evidence)
    requires e.trustedSignature && !e.copyMove && !e.termsFound
    ensures Suspicious(e) <==> e.incrementalUpdates && e.javascript
    ensures !Suspicious(e.(incrementalUpdates := true, javascript := false))
    ensures !Suspicious(e.(incrementalUpdates := false, javascript := true))
    ensures Suspicious(e.(trustedSignature := false))
    ensures Suspicious(e.(copyMove := true)) && Suspicious(e.(termsFound := true))
  {
  }

  /** PRESENT, UNAVAILABLE, ERROR and INVALID all escalate. */
  lemma UntrustedStatuses(s: Signatures.Status)
    ensures !Trusted(s) <==> s in {Signatures.Invalid, Signatures.Error, Signatures.Unavailable, Signatures.Present}
  {
  }

  /** DOCX macros and track changes never reach the verdict. */
  lemma DocxFindingsIgnored(
    status: Signatures.Status, estrutura: Structure.StructureReport,
    other: Option<Structure.DocxStructureFindings>, visual: Option<Visual.VisualReport>, terms: seq<string>)
    ensures EvidenceOf(status, estrutura, visual, terms) == EvidenceOf(status, estrutura.(docxFindings := other), visual, terms)
  {
  }

  // ------------------------------------------------------------ run_pipeline

  /**
   * `run_pipeline` once the structural layer's outcome `estrutura` is
   * fixed: preprocess, verify, take the first signature's status, use the
   * structural report, run the visual layer when the preprocessor says
   * `is_pdf_text` is False, analyse the text without an OCR dict (the
   * visual report has no `ocr_text` key), then decide.
   */
  function RunPipelineWith(file: FileRef, env: PipelineEnv, estrutura: Result<Structure.StructureReport>): (r: Result<PipelineResult>)
    ensures estrutura.Err? ==> r.Err?
  {
    match Preprocess.PreprocessSpec(file, None, env.preprocess)
    case Err(e) => Err(e)
    case Ok(pinfo) =>
      match Signatures.Verify(file, env.signatures, env.preprocess.hashes)
      case Err(e) => Err(e)
      case Ok(hrep) =>
        if hrep.signatures == [] then Err(IndexError)
        else
          var status := hrep.signatures[0].status;
          match estrutura
          case Err(e) => Err(e)
          case Ok(erep) =>
            var visual := if pinfo.isPdfText == Some(false) then Some(Visual.AnalyzeSpec(file, env.visual)) else None;
            if visual.Some? && visual.value.Err? then Err(visual.value.error)
            else
              var vrep := if visual.Some? then Some(visual.value.value) else None;
              var trep := TextAnalysis.TextReportOf(file, map[], env.text);
              var verdict := VerdictLabel(Suspicious(EvidenceOf(status, erep, vrep, trep.suspiciousTerms)));
              Ok(PipelineResult(pinfo, hrep, erep, vrep, trep, verdict))
  }

  /** `run_pipeline` with the corrected macro scan in the structural layer. */
  function RunPipeline(file: FileRef, env: PipelineEnv): (r: Result<PipelineResult>)
    ensures file.kind == Missing ==> r == Err(FileNotFoundError(file.resolved))
    ensures file.kind == Directory ==> r == Err(IsADirectoryError(file.resolved))
    ensures r.Ok? ==>
      && Preprocess.PreprocessSpec(file, None, env.preprocess) == Ok(r.value.preprocess)
      && Signatures.Verify(file, env.signatures, env.preprocess.hashes) == Ok(r.value.assinaturaHash)
      && Structure.AnalyzeStructure(file, env.structure) == Ok(r.value.estrutura)
      && r.value.texto == TextAnalysis.TextReportOf(file, map[], env.text)
      && r.value.assinaturaHash.signatures != []
      && (r.value.visual.Some? <==> r.value.preprocess.isPdfText == Some(false))
      && (r.value.visual.Some? ==> Visual.AnalyzeSpec(file, env.visual) == Ok(r.value.visual.value))
      && (r.value.verdict == SuspectLabel <==>
            Suspicious(EvidenceOf(r.value.assinaturaHash.signatures[0].status, r.value.estrutura,
                                  r.value.visual, r.value.texto.suspiciousTerms)))
  {
    RunPipelineWith(file, env, Structure.AnalyzeStructure(file, env.structure))
  }

  /** `run_pipeline` as written, whose structural layer raises on the entries of a DOCX archive. */
  function RunPipelineAsWritten(file: FileRef, env: PipelineEnv): Result<PipelineResult> {
    RunPipelineWith(file, env, Structure.AnalyzeStructureAsWritten(file, env.structure))
  }

  /**
   * As written, no .docx or .docm whose archive opens and has an entry
   * gets a verdict once lxml is installed: the structural layer's
   * AttributeError propagates, unless an earlier layer already raised.
   */
  lemma DocxAsWrittenNoVerdict(file: FileRef, env: PipelineEnv)
    requires Lower(file.suffix) in {".docx", ".docm"}
    requires env.structure.lxmlAvailable && file.archive.Ok? && file.archive.value.names != []
    ensures RunPipelineAsWritten(file, env).Err?
    ensures Preprocess.PreprocessSpec(file, None, env.preprocess).Ok? &&
            Signatures.Verify(file, env.signatures, env.preprocess.hashes).Ok? &&
            Signatures.Verify(file, env.signatures, env.preprocess.hashes).value.signatures != [] ==>
      RunPipelineAsWritten(file, env) == Err(AttributeError("ZipInfo", "name"))
  {
    if file.kind != Missing {
      Structure.StructureAsWrittenRaises(file, env.structure);
    }
  }

  /** A file without signature records makes `[0]` raise: no verdict for it. */
  lemma NoSignaturesAborts(file: FileRef, env: PipelineEnv)
    requires file.kind == RegularFile
    requires Signatures.Verify(file, env.signatures, env.preprocess.hashes).Ok?
    requires Signatures.Verify(file, env.signatures, env.preprocess.hashes).value.signatures == []
    ensures RunPipeline(file, env) == Err(IndexError)
  {
  }

  /** A file that is neither PDF nor DOCX by suffix never gets a verdict. */
  lemma UnknownTypeAborts(file: FileRef, env: PipelineEnv)
    requires file.kind == RegularFile && Lower(file.suffix) !in {".pdf", ".docx", ".doc"}
    ensures RunPipeline(file, env) == Err(IndexError)
  {
    NoSignaturesAborts(file, env);
  }

  /** With pyHanko installed, a PDF without embedded signatures aborts too. */
  lemma UnsignedPdfAborts(file: FileRef, env: PipelineEnv)
    requires file.kind == RegularFile && Lower(file.suffix) == ".pdf"
    requires env.signatures.pdf.available && env.signatures.pdf.embedded == Ok([])
    ensures RunPipeline(file, env) == Err(IndexError)
  {
    Signatures.PdfSignatureRecordsCases(env.signatures.pdf);
    NoSignaturesAborts(file, env);
  }

  /**
   * No DOCX is ever judged OK: its records are PRESENT, ERROR or
   * UNAVAILABLE, none of which is trusted, so the verdict is SUSPEITO
   * whenever the pipeline gets that far.
   */
  lemma DocxNeverClean(file: FileRef, env: PipelineEnv)
    requires Lower(file.suffix) in {".docx", ".doc"}
    requires RunPipeline(file, env).Ok?
    ensures RunPipeline(file, env).value.verdict == SuspectLabel
  {
    var r := RunPipeline(file, env).value;
    var sigs := r.assinaturaHash.signatures;
    assert sigs == Signatures.DocxSignatureRecords(env.signatures.cryptoAvailable, file.archive);
    Signatures.DocxSignatureRecordsCases(env.signatures.cryptoAvailable, file.archive);
    assert sigs[0].status in {Signatures.Present, Signatures.Error, Signatures.Unavailable};
  }

  /**
   * The visual layer runs only for a file classified as PDF whose first
   * page pdfplumber opened and found without characters; it never runs for
   * a DOCX, an unknown type or a PDF with a text layer.
   */
  lemma VisualOnlyForRasterPdf(file: FileRef, env: PipelineEnv)
    requires RunPipeline(file, env).Ok?
    ensures var r := RunPipeline(file, env).value;
      r.visual.Some? <==>
        && Preprocess.Classify(file.mime, file.suffix) == PDF
        && env.preprocess.pdf.plumber.PlumberOpened?
        && !Preprocess.IsTextPdf(env.preprocess.pdf.plumber.pageCount, env.preprocess.pdf.plumber.firstPageChars)
  {
    var pinfo := Preprocess.InfoOf(file, None, env.preprocess);
    assert RunPipeline(file, env).value.preprocess == pinfo;
  }

  /** The pipeline never asks for page images, so the preprocess record never lists any. */
  lemma NoRenderedImages(file: FileRef, env: PipelineEnv)
    requires RunPipeline(file, env).Ok?
    ensures RunPipeline(file, env).value.preprocess.renderedImages == []
  {
    Preprocess.NoRenderingWithoutOutputDir(file, env.preprocess);
  }

  /** An exception of the visual layer aborts the pipeline with that exception. */
  lemma VisualFailurePropagates(file: FileRef, env: PipelineEnv)
    requires file.kind == RegularFile
    requires Signatures.Verify(file, env.signatures, env.preprocess.hashes).Ok?
    requires Signatures.Verify(file, env.signatures, env.preprocess.hashes).value.signatures != []
    requires Structure.AnalyzeStructure(file, env.structure).Ok?
    requires Preprocess.PreprocessSpec(file, None, env.preprocess).value.isPdfText == Some(false)
    requires Visual.AnalyzeSpec(file, env.visual).Err?
    ensures RunPipeline(file, env) == Err(Visual.AnalyzeSpec(file, env.visual).error)
  {
  }
}
