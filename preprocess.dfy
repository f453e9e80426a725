/**
 * The preprocessor (document_preprocessor.py): chunked hashing, document
 * type classification, the pdfplumber text probe, docinfo keys, page
 * rendering and the defaults of the resulting record. What the libraries
 * return is given as input.
 */
module Preprocess {
  import opened Common
  import opened Strings
  import Signatures

  // ------------------------------------------------------------ hashing

  /** `f.read(8192)` */
  const ChunkSize: nat := 8192

  /** An incremental digest object: its state is the bytes fed to it so far. */
  class Hasher {
    const algorithm: seq<byte> -> string
    var absorbed: seq<byte>

    constructor (algorithm: seq<byte> -> string)
      ensures this.algorithm == algorithm && absorbed == []
    {
      this.algorithm := algorithm;
      absorbed := [];
    }

    /** `h.update(chunk)` */
    method Update(chunk: seq<byte>)
      modifies this
      ensures absorbed == old(absorbed) + chunk
    {
      absorbed := absorbed + chunk;
    }

    /** `h.hexdigest()`: the one-shot digest of everything absorbed. */
    function HexDigest(): string
      reads this
    {
      algorithm(absorbed)
    }
  }

  /** A regular file opened with `open("rb")`. */
  class ByteReader {
    const data: seq<byte>
    var position: nat

    constructor (data: seq<byte>)
      ensures this.data == data && position == 0
    {
      this.data := data;
      position := 0;
    }

    /** `f.read(n)`: up to `n` bytes from the current position; fewer only at the end of the file. */
    method Read(n: nat) returns (chunk: seq<byte>)
      requires position <= |data|
      modifies this
      ensures position == old(position) + |chunk| <= |data|
      ensures chunk == data[old(position)..position]
      ensures |chunk| == (if old(position) + n <= |data| then n else |data| - old(position))
    {
      var stop := if position + n <= |data| then position + n else |data|;
      chunk := data[position..stop];
      position := stop;
    }
  }

  /** The chunks laid end to end. */
  function Concat(chunks: seq<seq<byte>>): seq<byte>
    decreases |chunks|
  {
    if chunks == [] then [] else Concat(chunks[..|chunks| - 1]) + chunks[|chunks| - 1]
  }

  /** Every chunk is non-empty and at most `ChunkSize` long. */
  predicate ChunksBounded(chunks: seq<seq<byte>>) {
    forall k :: 0 <= k < |chunks| ==> 0 < |chunks[k]| <= ChunkSize
  }

  /** One more chunk, laid at the end. */
  lemma ConcatSnoc(chunks: seq<seq<byte>>, chunk: seq<byte>)
    requires ChunksBounded(chunks) && 0 < |chunk| <= ChunkSize
    ensures Concat(chunks + [chunk]) == Concat(chunks) + chunk
    ensures ChunksBounded(chunks + [chunk])
  {
    assert (chunks + [chunk])[..|chunks|] == chunks;
  }

  /**
   * `_hash_file`: read 8192-byte chunks until an empty read and feed each to
   * both digests. The chunks are returned as a ghost witness.
   */
  method HashFile(data: seq<byte>, hashes: Signatures.HashSuite)
    returns (sha256: string, sha512: string, ghost chunks: seq<seq<byte>>)
    ensures Concat(chunks) == data
    ensures ChunksBounded(chunks)
    ensures (sha256, sha512) == Signatures.CalcHashes(hashes, data)
  {
    var h256 := new Hasher(hashes.sha256);
    var h512 := new Hasher(hashes.sha512);
    var f := new ByteReader(data);
    chunks := [];
    while true
      invariant f.position <= |data| && f.data == data
      invariant Concat(chunks) == data[..f.position]
      invariant ChunksBounded(chunks)
      invariant h256.absorbed == data[..f.position] && h512.absorbed == data[..f.position]
      invariant h256.algorithm == hashes.sha256 && h512.algorithm == hashes.sha512
      decreases |data| - f.position
    {
      ghost var before := f.position;
      var chunk := f.Read(ChunkSize);
      if chunk == [] {
        break;
      }
      assert data[..f.position] == data[..before] + chunk;
      h256.Update(chunk);
      h512.Update(chunk);
      ConcatSnoc(chunks, chunk);
      chunks := chunks + [chunk];
    }
    assert f.position == |data|;
    assert data[..f.position] == data;
    sha256 := h256.HexDigest();
    sha512 := h512.HexDigest();
  }

  // ------------------------------------------------------------ classification

  /** `_detect_mime(path) or ""` */
  function MimeText(mime: Option<string>): string {
    if mime.Some? then mime.value else ""
  }

  /** The type `preprocess` assigns from the mime guess and the lower-cased suffix. */
  function Classify(mime: Option<string>, suffix: string): (r: FileType)
    ensures r == PDF <==> MimeText(mime) == "application/pdf" || Lower(suffix) == ".pdf"
    ensures r == DOCX <==>
      r != PDF && (Lower(suffix) in {".docx", ".doc"} || Contains(MimeText(mime), "word"))
  {
    var m, ext := MimeText(mime), Lower(suffix);
    if m == "application/pdf" || ext == ".pdf" then PDF
    else if ext in {".docx", ".doc"} || Contains(m, "word") then DOCX
    else UNKNOWN
  }

  /** A `.pdf` suffix decides PDF whatever the mime guess; a PDF mime decides it whatever the suffix. */
  lemma ClassifyPrecedence(mime: Option<string>, suffix: string)
    ensures Lower(suffix) == ".pdf" ==> Classify(mime, suffix) == PDF
    ensures mime == Some("application/pdf") ==> Classify(mime, suffix) == PDF
    ensures Lower(suffix) in {".docx", ".doc"} && mime != Some("application/pdf") ==> Classify(mime, suffix) == DOCX
    ensures mime.None? && Lower(suffix) !in {".pdf", ".docx", ".doc"} ==> Classify(mime, suffix) == UNKNOWN
  {
    if mime.None? && Lower(suffix) !in {".pdf", ".docx", ".doc"} {
      assert !Contains("", "word");
    }
  }

  // ------------------------------------------------------------ PDF probes

  /** What `pdfplumber.open` gives: not installed, failed, or the page count and the first page's char count. */
  datatype PlumberProbe =
    | PlumberMissing
    | PlumberFailed
      /** `firstPageChars` is None when reading the first page raised. */
    | PlumberOpened(pageCount: nat, firstPageChars: Option<nat>)

  /** What `pikepdf.open` gives: not installed, failed, or the docinfo items in order. */
  datatype PikeProbe = PikeMissing | PikeFailed | PikeRead(docinfo: seq<(string, string)>)

  /** What `convert_from_path` gives: not installed, failed, or the number of page images saved. */
  datatype Renderer = RendererMissing | RenderFailed | Rendered(imageCount: nat)

  datatype PdfProbe = PdfProbe(plumber: PlumberProbe, pike: PikeProbe, renderer: Renderer)

  /** The `info` dict `_preprocess_pdf` fills; None is an absent key. */
  datatype PdfExtra = PdfExtra(
    pages: Option<nat>,
    isPdfText: Option<bool>,
    metadata: Option<map<string, string>>,
    renderedImages: Option<seq<string>>)

  /** The first page has text when it holds at least one char object; an unreadable first page has none. */
  function IsTextPdf(pageCount: nat, firstPageChars: Option<nat>): (r: bool)
    ensures r <==> pageCount > 0 && firstPageChars.Some? && firstPageChars.value > 0
  {
    pageCount > 0 && firstPageChars.Some? && firstPageChars.value > 0
  }

  /** `k[1:]` */
  function DropFirst(k: string): (r: string)
    ensures k != [] ==> [k[0]] + r == k
    ensures k == [] ==> r == []
  {
    if k == [] then [] else k[1..]
  }

  /** `{k[1:]: str(v) for k, v in pdf.docinfo.items()}`: a later item wins a clash. */
  function StripMetadata(items: seq<(string, string)>): (m: map<string, string>)
    ensures items != [] ==>
      DropFirst(items[|items| - 1].0) in m && m[DropFirst(items[|items| - 1].0)] == items[|items| - 1].1
    decreases |items|
  {
    if items == [] then map[]
    else
      var n := |items| - 1;
      StripMetadata(items[..n])[DropFirst(items[n].0) := items[n].1]
  }

  /** Every item contributes its stripped name, and nothing else is a key. */
  lemma {:induction false} StripMetadataKeys(items: seq<(string, string)>)
    ensures StripMetadata(items).Keys == set p | p in items :: DropFirst(p.0)
    decreases |items|
  {
    if items != [] {
      var n := |items| - 1;
      StripMetadataKeys(items[..n]);
      assert items == items[..n] + [items[n]];
      assert (set p | p in items :: DropFirst(p.0))
          == (set p | p in items[..n] :: DropFirst(p.0)) + {DropFirst(items[n].0)};
    }
  }

  /** The value kept for a key is the one of the last item that strips to it. */
  lemma {:induction false} StripMetadataLastWins(items: seq<(string, string)>, i: nat)
    requires i < |items|
    requires forall j :: i < j < |items| ==> DropFirst(items[j].0) != DropFirst(items[i].0)
    ensures DropFirst(items[i].0) in StripMetadata(items)
    ensures StripMetadata(items)[DropFirst(items[i].0)] == items[i].1
    decreases |items|
  {
    var n := |items| - 1;
    if i < n {
      var prefix := items[..n];
      assert prefix[i] == items[i];
      forall j | i < j < n ensures DropFirst(prefix[j].0) != DropFirst(prefix[i].0) {
        assert prefix[j] == items[j];
      }
      StripMetadataLastWins(prefix, i);
    }
  }

  /** PDF docinfo names lose their leading slash. */
  lemma StripMetadataExample()
    ensures StripMetadata([("/Title", "Contrato"), ("/Producer", "Word")]) == map["Title" := "Contrato", "Producer" := "Word"]
  {
    var items := [("/Title", "Contrato"), ("/Producer", "Word")];
    assert items[..1][..0] == [];
    assert DropFirst("/Title") == "Title" && DropFirst("/Producer") == "Producer";
  }

  /** `out_dir and info.get("is_pdf_text") is False` */
  predicate ShouldRender(outDir: Option<string>, isPdfText: Option<bool>) {
    outDir.Some? && outDir.value != "" && isPdfText == Some(false)
  }

  /** `out_dir / f"{path.stem}_page_{idx+1}.png"` */
  function PageImageName(outDir: string, stem: string, index: nat): string {
    outDir + "/" + stem + "_page_" + NatToString(index + 1) + ".png"
  }

  /** The names of `count` page images, in page order. */
  function PageImageNames(outDir: string, stem: string, count: nat): (r: seq<string>)
    ensures |r| == count && forall i :: 0 <= i < count ==> r[i] == PageImageName(outDir, stem, i)
  {
    seq(count, i requires 0 <= i < count => PageImageName(outDir, stem, i))
  }

  /** Two pages never share an image name. */
  lemma PageImageNamesDistinct(outDir: string, stem: string, i: nat, j: nat)
    requires i != j
    ensures PageImageName(outDir, stem, i) != PageImageName(outDir, stem, j)
  {
    var prefix := outDir + "/" + stem + "_page_";
    var a, b := NatToString(i + 1), NatToString(j + 1);
    if PageImageName(outDir, stem, i) == PageImageName(outDir, stem, j) {
      var x, y := prefix + a + ".png", prefix + b + ".png";
      assert |a| == |b|;
      assert x[|prefix|..|prefix| + |a|] == a;
      assert y[|prefix|..|prefix| + |b|] == b;
      NatToStringInjective(i + 1, j + 1);
    }
  }

  /** The rendering loop: one name per page image, appended in page order. */
  method RenderPages(outDir: string, stem: string, count: nat) returns (paths: seq<string>)
    ensures paths == PageImageNames(outDir, stem, count)
  {
    paths := [];
    var idx := 0;
    while idx < count
      invariant 0 <= idx <= count
      invariant paths == PageImageNames(outDir, stem, idx)
    {
      paths := paths + [PageImageName(outDir, stem, idx)];
      idx := idx + 1;
    }
  }

  /** The `info` dict of `_preprocess_pdf`. */
  function PdfExtraOf(stem: string, outDir: Option<string>, probe: PdfProbe): (r: PdfExtra)
    ensures r.pages.Some? <==> probe.plumber.PlumberOpened?
    ensures r.isPdfText.Some? <==> probe.plumber.PlumberOpened?
    ensures r.isPdfText.Some? ==>
      r.isPdfText.value == IsTextPdf(probe.plumber.pageCount, probe.plumber.firstPageChars)
    ensures r.metadata.Some? <==> probe.pike.PikeRead?
    ensures r.renderedImages.Some? <==> ShouldRender(outDir, r.isPdfText) && probe.renderer.Rendered?
    ensures r.renderedImages.Some? ==>
      r.renderedImages.value == PageImageNames(outDir.value, stem, probe.renderer.imageCount)
  {
    var text := match probe.plumber
      case PlumberOpened(n, chars) => PdfExtra(Some(n), Some(IsTextPdf(n, chars)), None, None)
      case _ => PdfExtra(None, None, None, None);
    var meta := match probe.pike
      case PikeRead(items) => text.(metadata := Some(StripMetadata(items)))
      case _ => text;
    if ShouldRender(outDir, meta.isPdfText) && probe.renderer.Rendered? then
      meta.(renderedImages := Some(PageImageNames(outDir.value, stem, probe.renderer.imageCount)))
    else meta
  }

  /** `_preprocess_pdf`: the dict is filled key by key and the image names appended in a loop. */
  method PreprocessPdf(stem: string, outDir: Option<string>, probe: PdfProbe) returns (info: PdfExtra)
    ensures info == PdfExtraOf(stem, outDir, probe)
  {
    info := PdfExtra(None, None, None, None);
    if probe.plumber.PlumberOpened? {
      var numPages := probe.plumber.pageCount;
      var isText := IsTextPdf(numPages, probe.plumber.firstPageChars);
      info := info.(pages := Some(numPages), isPdfText := Some(isText));
    }
    if probe.pike.PikeRead? {
      info := info.(metadata := Some(StripMetadata(probe.pike.docinfo)));
    }
    if ShouldRender(outDir, info.isPdfText) && probe.renderer.Rendered? {
      var imgPaths := RenderPages(outDir.value, stem, probe.renderer.imageCount);
      info := info.(renderedImages := Some(imgPaths));
    }
  }

  // ------------------------------------------------------------ DOCX probe

  /** `doc.core_properties` as python-docx gives it; the dates are already `str(...)` when present. */
  datatype CoreMetadata = CoreMetadata(
    author: string,
    created: Option<string>,
    lastModifiedBy: string,
    modified: Option<string>,
    title: string)

  /** What `docx.Document` gives: not installed, failed, or the core properties. */
  datatype DocxProbe = DocxMissing | DocxFailed | DocxOpened(core: CoreMetadata)

  /** The metadata `_preprocess_docx` records; None when the document could not be read. */
  function DocxMetadata(probe: DocxProbe): (r: Option<map<string, string>>)
    ensures r.Some? <==> probe.DocxOpened?
    ensures r.Some? ==> r.value.Keys == {"author", "created", "last_modified_by", "modified", "title"}
    ensures r.Some? ==> r.value["created"] == PyStr(probe.core.created) && r.value["modified"] == PyStr(probe.core.modified)
  {
    match probe
    case DocxOpened(c) =>
      Some(map["author" := c.author, "created" := PyStr(c.created), "last_modified_by" := c.lastModifiedBy,
               "modified" := PyStr(c.modified), "title" := c.title])
    case _ => None
  }

  // ------------------------------------------------------------ preprocess

  datatype PreprocessInfo = PreprocessInfo(
    path: string,
    fileType: FileType,
    sha256: string,
    sha512: string,
    pages: Option<nat>,
    isPdfText: Option<bool>,
    metadata: map<string, string>,
    renderedImages: seq<string>)

  /** The libraries `preprocess` reaches. */
  datatype PreprocessEnv = PreprocessEnv(hashes: Signatures.HashSuite, pdf: PdfProbe, docx: DocxProbe)

  function OrElse<T>(o: Option<T>, default: T): T {
    if o.Some? then o.value else default
  }

  /** The record `preprocess` builds from the type and the optional `extra` keys. */
  function InfoOf(file: FileRef, outDir: Option<string>, env: PreprocessEnv): (r: PreprocessInfo)
    requires file.kind == RegularFile
    ensures r.path == file.resolved
    ensures r.fileType == Classify(file.mime, file.suffix)
    ensures (r.sha256, r.sha512) == Signatures.CalcHashes(env.hashes, file.bytes)
    ensures r.fileType != PDF ==> r.pages.None? && r.isPdfText.None? && r.renderedImages == []
    ensures r.fileType == UNKNOWN ==> r.metadata == map[]
    ensures r.renderedImages != [] ==> r.fileType == PDF && ShouldRender(outDir, r.isPdfText)
    ensures r.fileType == PDF ==> var x := PdfExtraOf(file.stem, outDir, env.pdf);
      && r.pages == x.pages && r.isPdfText == x.isPdfText
      && r.metadata == OrElse(x.metadata, map[]) && r.renderedImages == OrElse(x.renderedImages, [])
    ensures r.fileType == PDF && !env.pdf.pike.PikeRead? ==> r.metadata == map[]
    ensures r.fileType == DOCX ==> r.metadata == OrElse(DocxMetadata(env.docx), map[])
    ensures r.fileType == DOCX && !env.docx.DocxOpened? ==> r.metadata == map[]
  {
    var digests := Signatures.CalcHashes(env.hashes, file.bytes);
    var fileType := Classify(file.mime, file.suffix);
    var extra :=
      if fileType == PDF then PdfExtraOf(file.stem, outDir, env.pdf)
      else if fileType == DOCX then PdfExtra(None, None, DocxMetadata(env.docx), None)
      else PdfExtra(None, None, None, None);
    var images := OrElse(extra.renderedImages, []);
    assert images != [] ==> fileType == PDF && ShouldRender(outDir, extra.isPdfText);
    PreprocessInfo(file.resolved, fileType, digests.0, digests.1, extra.pages, extra.isPdfText,
                   OrElse(extra.metadata, map[]), images)
  }

  /** `preprocess`: a missing path raises before hashing; a directory fails when opened for hashing. */
  function PreprocessSpec(file: FileRef, outDir: Option<string>, env: PreprocessEnv): (r: Result<PreprocessInfo>)
    ensures file.kind == Missing ==> r == Err(FileNotFoundError(file.resolved))
    ensures file.kind == Directory ==> r == Err(IsADirectoryError(file.resolved))
    ensures file.kind == RegularFile ==> r == Ok(InfoOf(file, outDir, env))
  {
    match file.kind
    case Missing => Err(FileNotFoundError(file.resolved))
    case Directory => Err(IsADirectoryError(file.resolved))
    case RegularFile => Ok(InfoOf(file, outDir, env))
  }

  /** `preprocess`, hashing through the chunk loop and filling the PDF keys step by step. */
  method Preprocess(file: FileRef, outDir: Option<string>, env: PreprocessEnv) returns (r: Result<PreprocessInfo>)
    ensures r == PreprocessSpec(file, outDir, env)
  {
    if file.kind == Missing {
      return Err(FileNotFoundError(file.resolved));
    }
    if file.kind == Directory {
      return Err(IsADirectoryError(file.resolved));
    }
    var sha256, sha512, _ := HashFile(file.bytes, env.hashes);
    var fileType := Classify(file.mime, file.suffix);
    var extra := PdfExtra(None, None, None, None);
    if fileType == PDF {
      extra := PreprocessPdf(file.stem, outDir, env.pdf);
    } else if fileType == DOCX {
      extra := extra.(metadata := DocxMetadata(env.docx));
    }
    r := Ok(PreprocessInfo(file.resolved, fileType, sha256, sha512, extra.pages, extra.isPdfText,
                           OrElse(extra.metadata, map[]), OrElse(extra.renderedImages, [])));
  }

  /** Without an output directory nothing is rendered, whatever the probes say. */
  lemma NoRenderingWithoutOutputDir(file: FileRef, env: PreprocessEnv)
    requires file.kind == RegularFile
    ensures PreprocessSpec(file, None, env).value.renderedImages == []
  {
  }
}
