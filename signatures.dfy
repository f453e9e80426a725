/**
 * Layer 1 of the pipeline (verifica_hash_assinatura.py): the two content
 * digests and one status record per signature found in the document.
 * The PDF validator (pyHanko) and the digest algorithms are inputs.
 */
module Signatures {
  import opened Common
  import opened Strings

  datatype Status = Valid | Invalid | Error | Unavailable | Present | UnverifiedHybrid

  /** `SignatureSummary`: who signed, when, the status and a human-readable detail. */
  datatype SignatureSummary = SignatureSummary(
    signerCn: Option<string>,
    signingTime: Option<string>,
    status: Status,
    summary: string)

  datatype VerificationReport = VerificationReport(
    filePath: string,
    sha256: string,
    sha512: string,
    signatures: seq<SignatureSummary>)

  /** The two digest algorithms, as functions of the bytes they digest (hex output). */
  datatype HashSuite = HashSuite(sha256: seq<byte> -> string, sha512: seq<byte> -> string)

  /** `_calc_hashes`: both digests of the whole byte string in one call each. */
  function CalcHashes(hashes: HashSuite, b: seq<byte>): (r: (string, string))
    ensures r.0 == hashes.sha256(b) && r.1 == hashes.sha512(b)
  {
    (hashes.sha256(b), hashes.sha512(b))
  }

  // ------------------------------------------------------------------ PDF

  /** The subject of a signer certificate, as its `native` dictionary gives it. */
  datatype CertSubject = CertSubject(commonName: Option<string>, organizationName: Option<string>)

  /** What the validator reports for one signature. */
  datatype ValidationStatus = ValidationStatus(
    trusted: bool,
    intact: bool,
    signingTime: Option<string>,
    details: string)

  /**
   * One embedded signature: its certificate subject (when it has one) and the
   * outcome of the statements inside the `try` around validation, either the
   * validator's status or the exception raised there.
   */
  datatype EmbeddedSignature = EmbeddedSignature(
    signerCert: Option<CertSubject>,
    validation: Result<ValidationStatus>)

  /** The validator as the PDF path sees it. */
  datatype PdfValidator = PdfValidator(
    available: bool,
    /** `PdfFileReader(fp).embedded_signatures`, or the exception opening the reader raised. */
    embedded: Result<seq<EmbeddedSignature>>)

  const HybridMarker := "hybrid-reference"
  const HybridSummary := "PDF em Hybrid-Reference: assinatura não verificada, mas presente"
  const ErrorPrefix := "Erro: "

  /** `subj.get("common_name") or subj.get("organization_name")`, or None without a certificate. */
  function SignerName(cert: Option<CertSubject>): (r: Option<string>)
    ensures cert.None? ==> r.None?
    ensures cert.Some? && Truthy(cert.value.commonName) ==> r == cert.value.commonName
    ensures cert.Some? && !Truthy(cert.value.commonName) ==> r == cert.value.organizationName
  {
    match cert
    case None => None
    case Some(subj) => if Truthy(subj.commonName) then subj.commonName else subj.organizationName
  }

  /** The record the loop body of `_verify_pdf` appends for one signature. */
  function SummarizeSignature(sig: EmbeddedSignature): (r: SignatureSummary)
    ensures r.status == Valid <==>
      sig.validation.Ok? && sig.validation.value.trusted && sig.validation.value.intact
    ensures r.status == Invalid <==>
      sig.validation.Ok? && !(sig.validation.value.trusted && sig.validation.value.intact)
    ensures r.status == UnverifiedHybrid <==>
      sig.validation.Err? && Contains(Lower(sig.validation.error.Message()), HybridMarker)
    ensures r.status == Error <==>
      sig.validation.Err? && !Contains(Lower(sig.validation.error.Message()), HybridMarker)
    ensures sig.validation.Ok? ==>
      && r.signerCn == SignerName(sig.signerCert)
      && r.signingTime == Some(PyStr(sig.validation.value.signingTime))
      && r.summary == sig.validation.value.details
    ensures sig.validation.Err? ==> r.signerCn.None? && r.signingTime.None?
    ensures r.status == UnverifiedHybrid ==> r.summary == HybridSummary
    ensures r.status == Error ==> r.summary == ErrorPrefix + sig.validation.error.Message()
  {
    match sig.validation
    case Ok(st) =>
      SignatureSummary(
        SignerName(sig.signerCert),
        Some(PyStr(st.signingTime)),
        if st.trusted && st.intact then Valid else Invalid,
        st.details)
    case Err(exc) =>
      if Contains(Lower(exc.Message()), HybridMarker) then
        SignatureSummary(None, None, UnverifiedHybrid, HybridSummary)
      else
        SignatureSummary(None, None, Error, ErrorPrefix + exc.Message())
  }

  /** What `_verify_pdf` returns: the specification of VerifyPdf. */
  function PdfSignatureRecords(v: PdfValidator): (r: Result<seq<SignatureSummary>>)
    ensures r.Err? <==> v.available && v.embedded.Err?
    ensures (r.Ok? && r.value == []) <==> (v.available && v.embedded == Ok([]))
    ensures r.Ok? && v.available ==> |r.value| == |v.embedded.value|
    ensures r.Ok? ==> forall s :: s in r.value ==> (s.status == Unavailable <==> !v.available)
  {
    if !v.available then Ok([SignatureSummary(None, None, Unavailable, "pyHanko ausente")])
    else match v.embedded
      case Err(e) => Err(e)
      case Ok(sigs) =>
        if sigs == [] then Ok([])
        else Ok(seq(|sigs|, i requires 0 <= i < |sigs| => SummarizeSignature(sigs[i])))
  }

  /** The PDF signature records: the outcome of each case of `_verify_pdf`. */
  lemma PdfSignatureRecordsCases(v: PdfValidator)
    ensures !v.available ==>
      PdfSignatureRecords(v) == Ok([SignatureSummary(None, None, Unavailable, "pyHanko ausente")])
    ensures v.available && v.embedded.Err? ==> PdfSignatureRecords(v) == Err(v.embedded.error)
    ensures v.available && v.embedded == Ok([]) ==> PdfSignatureRecords(v) == Ok([])
    ensures v.available && v.embedded.Ok? ==>
      var r := PdfSignatureRecords(v);
      && r.Ok? && |r.value| == |v.embedded.value|
      && forall i :: 0 <= i < |r.value| ==> r.value[i] == SummarizeSignature(v.embedded.value[i])
    ensures v.available && PdfSignatureRecords(v).Ok? ==>
      forall s :: s in PdfSignatureRecords(v).value ==> s.status in {Valid, Invalid, UnverifiedHybrid, Error}
  {
  }

  /** `_verify_pdf`: one record per embedded signature, appended in order. */
  method VerifyPdf(v: PdfValidator) returns (r: Result<seq<SignatureSummary>>)
    ensures r == PdfSignatureRecords(v)
  {
    if !v.available {
      return Ok([SignatureSummary(None, None, Unavailable, "pyHanko ausente")]);
    }
    if v.embedded.Err? {
      return Err(v.embedded.error);
    }
    var sigs := v.embedded.value;
    if sigs == [] {
      return Ok([]);
    }
    var results: seq<SignatureSummary> := [];
    for i := 0 to |sigs|
      invariant |results| == i
      invariant forall k :: 0 <= k < i ==> results[k] == SummarizeSignature(sigs[k])
    {
      results := results + [SummarizeSignature(sigs[i])];
    }
    assert results == seq(|sigs|, i requires 0 <= i < |sigs| => SummarizeSignature(sigs[i]));
    return Ok(results);
  }

  // ----------------------------------------------------------------- DOCX

  /** An archive entry holding a detached XML signature. */
  predicate IsSignaturePart(name: string) {
    StartsWith(name, "_xmlsignatures/") && EndsWith(name, ".sig")
  }

  /** `[p for p in zf.namelist() if ...]` */
  function SignatureParts(names: seq<string>): (r: seq<string>)
    ensures |r| <= |names|
    ensures forall n :: n in r <==> n in names && IsSignaturePart(n)
    decreases |names|
  {
    if names == [] then []
    else
      var rest := SignatureParts(names[1..]);
      if IsSignaturePart(names[0]) then [names[0]] + rest else rest
  }

  /** The filter keeps namelist order: filtering a concatenation concatenates the filtered parts. */
  lemma {:induction false} SignaturePartsAppend(a: seq<string>, b: seq<string>)
    ensures SignatureParts(a + b) == SignatureParts(a) + SignatureParts(b)
    decreases |a|
  {
    if a == [] {
      assert a + b == b;
    } else {
      assert (a + b)[0] == a[0] && (a + b)[1..] == a[1..] + b;
      SignaturePartsAppend(a[1..], b);
    }
  }

  function PresentRecord(rel: string): SignatureSummary {
    SignatureSummary(None, None, Present, "Assinatura encontrada em " + rel + " (validação simplificada)")
  }

  /** What `_verify_docx` returns: the specification of VerifyDocx. */
  function DocxSignatureRecords(cryptoAvailable: bool, archive: Result<Package>): (r: seq<SignatureSummary>)
    ensures r == [] ==> cryptoAvailable && archive.Ok?
    ensures cryptoAvailable && archive.Ok? ==> |r| == |SignatureParts(archive.value.names)|
    ensures forall s :: s in r ==>
      && (s.status == Unavailable <==> !cryptoAvailable)
      && (s.status == Error <==> cryptoAvailable && archive.Err?)
  {
    if !cryptoAvailable then [SignatureSummary(None, None, Unavailable, "cryptography ausente")]
    else match archive
      case Err(e) => [SignatureSummary(None, None, Error, ErrorPrefix + e.Message())]
      case Ok(pkg) =>
        var parts := SignatureParts(pkg.names);
        seq(|parts|, i requires 0 <= i < |parts| => PresentRecord(parts[i]))
  }

  /** The DOCX records: one PRESENT record per signature part, one ERROR record when the archive fails. */
  lemma DocxSignatureRecordsCases(cryptoAvailable: bool, archive: Result<Package>)
    ensures !cryptoAvailable ==>
      DocxSignatureRecords(cryptoAvailable, archive) == [SignatureSummary(None, None, Unavailable, "cryptography ausente")]
    ensures cryptoAvailable && archive.Err? ==>
      DocxSignatureRecords(cryptoAvailable, archive)
        == [SignatureSummary(None, None, Error, ErrorPrefix + archive.error.Message())]
    ensures cryptoAvailable && archive.Ok? ==>
      var r := DocxSignatureRecords(cryptoAvailable, archive);
      var parts := SignatureParts(archive.value.names);
      && |r| == |parts|
      && (forall i :: 0 <= i < |r| ==> r[i].status == Present && r[i] == PresentRecord(parts[i]))
      && (r == [] <==> forall n :: n in archive.value.names ==> !IsSignaturePart(n))
  {
    if cryptoAvailable && archive.Ok? {
      var parts := SignatureParts(archive.value.names);
      if parts != [] {
        assert parts[0] in parts;
      }
    }
  }

  /** `_verify_docx`: a PRESENT record appended for each signature part. */
  method VerifyDocx(cryptoAvailable: bool, archive: Result<Package>) returns (sigs: seq<SignatureSummary>)
    ensures sigs == DocxSignatureRecords(cryptoAvailable, archive)
  {
    if !cryptoAvailable {
      return [SignatureSummary(None, None, Unavailable, "cryptography ausente")];
    }
    sigs := [];
    if archive.Err? {
      sigs := sigs + [SignatureSummary(None, None, Error, ErrorPrefix + archive.error.Message())];
      return;
    }
    var relPaths := SignatureParts(archive.value.names);
    if relPaths == [] {
      return [];
    }
    for i := 0 to |relPaths|
      invariant |sigs| == i
      invariant forall k :: 0 <= k < i ==> sigs[k] == PresentRecord(relPaths[k])
    {
      sigs := sigs + [PresentRecord(relPaths[i])];
    }
    assert sigs == seq(|relPaths|, i requires 0 <= i < |relPaths| => PresentRecord(relPaths[i]));
  }

  // ------------------------------------------------------------- dispatch

  /** The libraries the signature layer depends on. */
  datatype SignatureEnv = SignatureEnv(pdf: PdfValidator, cryptoAvailable: bool)

  /** `verify`: digests of the file, then records chosen by the lower-cased suffix. */
  function Verify(file: FileRef, env: SignatureEnv, hashes: HashSuite): (r: Result<VerificationReport>)
    ensures file.kind != RegularFile ==> r == Err(FileNotFoundError(file.resolved))
    ensures r.Ok? ==>
      && r.value.filePath == file.resolved
      && r.value.sha256 == hashes.sha256(file.bytes)
      && r.value.sha512 == hashes.sha512(file.bytes)
    ensures file.kind == RegularFile && Lower(file.suffix) == ".pdf" ==>
      (r.Ok? <==> PdfSignatureRecords(env.pdf).Ok?) &&
      (r.Ok? ==> r.value.signatures == PdfSignatureRecords(env.pdf).value)
    ensures file.kind == RegularFile && Lower(file.suffix) in {".docx", ".doc"} ==>
      r.Ok? && r.value.signatures == DocxSignatureRecords(env.cryptoAvailable, file.archive)
    ensures file.kind == RegularFile && Lower(file.suffix) !in {".pdf", ".docx", ".doc"} ==>
      r.Ok? && r.value.signatures == []
  {
    if file.kind != RegularFile then Err(FileNotFoundError(file.resolved))
    else
      var (sha256, sha512) := CalcHashes(hashes, file.bytes);
      var suffix := Lower(file.suffix);
      var signatures :=
        if suffix == ".pdf" then PdfSignatureRecords(env.pdf)
        else if suffix in {".docx", ".doc"} then Ok(DocxSignatureRecords(env.cryptoAvailable, file.archive))
        else Ok([]);
      match signatures
      case Err(e) => Err(e)
      case Ok(sigs) => Ok(VerificationReport(file.resolved, sha256, sha512, sigs))
  }
}
