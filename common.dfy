/**
 * Types shared by every layer of the document-forensics pipeline: optional
 * values, results that carry a Python exception, bytes, and the inputs that
 * describe one file as the operating system and the ZIP reader see it.
 */
module Common {

  datatype Option<T> = None | Some(value: T)

  /** The exceptions the modelled code raises or lets propagate. */
  datatype Exception =
    | FileNotFoundError(path: string)
    | IsADirectoryError(path: string)
    | RuntimeError(message: string)
    | IndexError
    | AttributeError(owner: string, attribute: string)
      /** Raised by a library call the code does not guard (its text as given). */
    | LibraryError(message: string)
  {
    /** What `str(exc)` gives for the exception. */
    function Message(): string {
      match this
      case FileNotFoundError(p) => p
      case IsADirectoryError(p) => "[Errno 21] Is a directory: '" + p + "'"
      case RuntimeError(m) => m
      case IndexError => "list index out of range"
      case AttributeError(o, a) => "'" + o + "' object has no attribute '" + a + "'"
      case LibraryError(m) => m
    }
  }

  datatype Result<T> = Ok(value: T) | Err(error: Exception)

  newtype byte = x: int | 0 <= x < 256

  /** The document types the preprocessor and the structure analyzer report. */
  datatype FileType = PDF | DOCX | UNKNOWN

  /** What is found at a path. */
  datatype PathKind = Missing | Directory | RegularFile

  /** Python truthiness of an optional string: `None` and `""` are false. */
  predicate Truthy(s: Option<string>) {
    s.Some? && s.value != ""
  }

  /** `str(x)` for an optional string: `None` prints as "None". */
  function PyStr(s: Option<string>): string {
    if s.Some? then s.value else "None"
  }

  /** A parsed XML part of a word-processing package. */
  datatype XmlPart<T> = PartMissing | PartMalformed(message: string) | PartParsed(content: T)

  /** docProps/core.xml: the text of dcterms:created and dcterms:modified, when present. */
  datatype CoreProperties = CoreProperties(created: Option<string>, modified: Option<string>)

  /** word/settings.xml: whether a w:trackRevisions element occurs. */
  datatype Settings = Settings(trackRevisions: bool)

  /** A ZIP package as `zipfile` lists it, with the two XML parts the structure layer reads. */
  datatype Package = Package(
    names: seq<string>,
    core: XmlPart<CoreProperties>,
    settings: XmlPart<Settings>)

  /**
   * One input file: the path as given, the resolved absolute path, what lives
   * there, its suffix (`Path.suffix`, original case), the guessed mime type,
   * its bytes, and the outcome of opening it as a ZIP package.
   */
  datatype FileRef = FileRef(
    path: string,
    resolved: string,
    kind: PathKind,
    suffix: string,
    stem: string,
    mime: Option<string>,
    bytes: seq<byte>,
    archive: Result<Package>)
}
