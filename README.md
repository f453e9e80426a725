# Document-forensics pipeline: a verified model

This project models the decision logic of a document-fraud checker written in Python. The checker runs five layers over one PDF or DOCX file and then gives a verdict:

- **preprocessing**: chunked SHA-256/SHA-512 hashing, type classification, a text-layer probe, metadata keys and page-image naming;
- **hash and signature**: the status of each PDF signature record, and the detection of DOCX signature parts;
- **structure**: `%%EOF` counting, JavaScript keys, docinfo dates, DOCX macros, core dates and track changes;
- **visual**: copy-move detection over keypoint matches, the PRNU reference-window rule, and the OCR word ratio;
- **text**: cleaning, form-feed pages, language detection, suspect terms, stylometry and z-score outliers;
- **orchestrator**: runs the layers in order and combines four red flags into `OK` or `SUSPEITO`.

Each Dafny module corresponds to one source file:

| module | file |
|---|---|
| `Signatures` | `verifica_hash_assinatura.py` |
| `Structure` | `analise_estrutura.py` |
| `TextAnalysis` | `analise_texto.py` |
| `Preprocess` | `document_preprocessor.py` |
| `Visual` | `analise_visual.py` |
| `Pipeline` | `verificador_documental.py` |

Two further modules hold shared material:

- `Common`: `Option`, `Result` and the exception kinds the code raises. It also has the file descriptor `FileRef`, which gives the path as given, the resolved path, the path kind, the suffix, the stem, the mime guess, the bytes and the ZIP listing.
- `Strings`: the Python `str` operations the code relies on, stated over `seq<char>`.

## How library calls are modelled

The model gives every library result as an input value:

- `HashSuite` holds the two digest functions.
- pyHanko's validation outcome per signature is `EmbeddedSignature`.
- pikepdf's docinfo, objects and free objects are `PikeDocument`.
- The pdfplumber, pikepdf and pdf2image probes are `PlumberProbe`, `PikeProbe` and `Renderer`.
- OpenCV's keypoint matches are `Features` / `Match`.
- The PRNU `mean`/`corr2d` pair is `PrnuLib`.
- nltk/textstat/langdetect are `Nlp` and a `detect` function.

A library that may be absent is a boolean or an `Option`. A library call whose exception the model follows yields a `Result`; the calls whose exceptions are not followed are listed under "## Left out".

## How imperative code is modelled

Code that loops and mutates state is written as a Dafny `method` with its loop. Each such method is proved equal to a specification function, and the pure pipeline composes those functions:

- `Preprocess.HashFile` is the chunk loop over a `ByteReader`, updating two `Hasher` objects.
- `Preprocess.RenderPages` appends the page-image names.
- `Structure.DetectJavascript` returns early.
- `Visual.DetectCopyMove`, `Visual.ExtractPrnu` (which has a `break`) and `Visual.AnalyzePages` (the accumulators) are loops.
- `TextAnalysis.CollectStyles` and `TextAnalysis.SelectOutliers` are the loops of `analyze_text`.

The numeric code differs from the source in two ways:

- Python floats are modelled as `real`.
- The z-score test `abs(v - mu) / sigma > 1.2` is stated without square roots, as `(v - mu)^2 > 1.44 * variance`. `TextAnalysis.ZScoreTest` proves the two forms equal for every positive `sigma`.

## Model

| member | source | states |
|---|---|---|
| Signatures.CalcHashes | verifica_hash_assinatura.py:80-81 | the pair is the SHA-256 and SHA-512 digest of the whole byte string |
| Signatures.SignerName | verifica_hash_assinatura.py:103-106 | no certificate gives no signer; otherwise the common name when it is truthy, else the organisation name |
| Signatures.SummarizeSignature | verifica_hash_assinatura.py:101-129 | VALID iff validation returned with trusted and intact both true; INVALID iff it returned otherwise; UNVERIFIED_HYBRID iff it raised with "hybrid-reference" in the lower-cased message (fixed summary); ERROR iff it raised otherwise (summary "Erro: " + message); signer and time are null on an exception |
| Signatures.PdfSignatureRecordsCases | verifica_hash_assinatura.py:88-130 | without pyHanko: exactly one UNAVAILABLE record with null signer and time; a reader exception propagates; no embedded signature gives []; otherwise one record per signature, in order; every record's status is VALID, INVALID, UNVERIFIED_HYBRID or ERROR |
| Signatures.PdfSignatureRecords | verifica_hash_assinatura.py:88-130 | the outcome is an exception iff pyHanko is present and reading the embedded signatures raised; it is [] iff pyHanko is present and there is no embedded signature; with pyHanko there is one record per signature; a record is UNAVAILABLE iff pyHanko is missing |
| Signatures.VerifyPdf | verifica_hash_assinatura.py:88-130 | the append loop returns exactly the records described by PdfSignatureRecordsCases |
| Signatures.SignatureParts | verifica_hash_assinatura.py:145 | the kept names are exactly the listed names that start with "_xmlsignatures/" and end with ".sig" |
| Signatures.SignaturePartsAppend | verifica_hash_assinatura.py:145 | the filter distributes over concatenation, so namelist order is kept |
| Signatures.DocxSignatureRecordsCases | verifica_hash_assinatura.py:137-152 | without cryptography: one UNAVAILABLE record; an archive failure gives exactly one ERROR record "Erro: " + message; otherwise one PRESENT record per signature part in order, and [] exactly when no entry is a signature part |
| Signatures.DocxSignatureRecords | verifica_hash_assinatura.py:137-152 | [] only when cryptography is present and the archive opened; with an opened archive there is one record per signature part; a record is UNAVAILABLE iff cryptography is missing and ERROR iff the archive failed |
| Signatures.VerifyDocx | verifica_hash_assinatura.py:137-152 | the append loop returns exactly the DOCX records |
| Signatures.Verify | verifica_hash_assinatura.py:159-180 | a path that is not a regular file raises FileNotFoundError before hashing; the report carries the resolved path and both digests of the bytes; lower-cased ".pdf" takes the PDF records, ".docx"/".doc" the DOCX records, any other suffix gives [] |
| Structure.CountEofMarkers | analise_estrutura.py:33-35 | each counted marker uses up five bytes of its own, so five times the count never exceeds the length |
| Structure.EofScanCountsEveryOccurrence | analise_estrutura.py:33-35 | the non-overlapping left-to-right scan for %%EOF counts every occurrence of the marker |
| Structure.NoOccurrenceInsideMarker | analise_estrutura.py:33-35 | no occurrence of %%EOF starts inside another one, so skipping a matched marker loses nothing |
| Structure.EofMarkersOfAppendedRevision | analise_estrutura.py:33-35 | appending a revision that ends in %%EOF raises the marker count by at least one |
| Structure.OccurrencesOfConcat | analise_estrutura.py:33-35 | the markers of two byte strings are still counted once they are concatenated |
| Structure.OccurrencesOfSuffix | analise_estrutura.py:33-35 | bytes ending in %%EOF hold at least one marker |
| Structure.DocinfoDate | analise_estrutura.py:101-103 | an empty docinfo gives None; a present key gives its value; a missing key in a non-empty docinfo gives "None" (the text of `str(None)`) |
| Structure.ModAfterCreation | analise_estrutura.py:104-107 | defined exactly when both dates are truthy, and then true iff the modification date is lexicographically greater; equal dates give false |
| Structure.ModAfterCreationExample | analise_estrutura.py:104-107 | a later PDF date string compares as after, an equal one or an earlier one as not after |
| Structure.ScriptDetected | analise_estrutura.py:38-49 | true iff some dictionary object has a /JavaScript or /JS key and no iteration fault occurs before it |
| Structure.DetectJavascript | analise_estrutura.py:38-49 | the loop with early return finds exactly such an object |
| Structure.SuspiciousObjects | analise_estrutura.py:108-119 | "JavaScript_embutido" comes first iff JavaScript was found; "Objetos_free:<n>" is present iff the free-object set could be read and is non-empty; nothing else is listed |
| Structure.PdfFindings | analise_estrutura.py:90-129 | the EOF count is the marker count; incremental updates iff it exceeds 1; the dates, the comparison, the JavaScript flag and the tags come from the rules above |
| Structure.AnalyzePdfSpec | analise_estrutura.py:84-129 | RuntimeError without pikepdf; IsADirectoryError for a directory; pikepdf's exception when opening fails; it succeeds exactly in the remaining case, and then the EOF count is the number of %%EOF occurrences in the bytes (at most a fifth of their length), incremental updates iff it exceeds 1, the JavaScript flag is the scan result and the tags follow it |
| Structure.AnalyzePdf | analise_estrutura.py:84-129 | the step-by-step findings: RuntimeError without pikepdf, IsADirectoryError for a directory, pikepdf's exception when opening fails, otherwise the PDF findings |
| Structure.CoreDates | analise_estrutura.py:144-159 | a missing core part gives three None; a malformed one raises; a parsed one gives its dates and their comparison |
| Structure.TrackChanges | analise_estrutura.py:161-168 | a missing settings part gives false; a malformed one raises; a parsed one tells whether trackRevisions is present |
| Structure.AnalyzeDocx | analise_estrutura.py:134-176 | without lxml: RuntimeError; an archive exception propagates; otherwise succeeds exactly when neither XML part is malformed, with has_macros iff some entry name ends in "vbaproject.bin" ignoring case, no dates when the core part is missing, the core part's created/modified dates and their comparison when it is parsed, and has_track_changes equal to the trackRevisions test of a parsed settings part (the corrected macro scan; see Findings) |
| Structure.MacroScanAttributeFinding | analise_estrutura.py:142 | as written, a non-empty archive raises AttributeError for 'ZipInfo'/'name'; an empty one agrees with the corrected analysis |
| Structure.MacroScanCounterexample | analise_estrutura.py:142 | an archive holding word/vbaProject.bin crashes as written, while the corrected scan reports has_macros |
| Structure.AnalyzeStructureWith | analise_estrutura.py:181-194 | the dispatch for a given DOCX outcome: a missing path raises FileNotFoundError, and a DOCX-suffixed file gets exactly the DOCX exception |
| Structure.AnalyzeStructure | analise_estrutura.py:181-194 | a missing path raises FileNotFoundError; ".pdf" gives PDF findings only, ".docx"/".docm" DOCX findings only, anything else UNKNOWN with neither; layer exceptions propagate (built on the corrected macro scan) |
| Structure.StructureAsWrittenRaises | analise_estrutura.py:142 | as written, an existing .docx/.docm with lxml present and an archive with entries makes the structure layer raise AttributeError for 'ZipInfo'/'name' |
| TextAnalysis.Collapse | analise_texto.py:84-85 | collapsing whitespace runs never lengthens the text and keeps its first character, a space standing for any whitespace |
| TextAnalysis.CollapseSingleSpaced | analise_texto.py:84-85 | after collapsing, every whitespace character is a single space not followed by whitespace |
| TextAnalysis.CollapseVisible | analise_texto.py:84-85 | collapsing keeps every non-whitespace character, in order |
| TextAnalysis.CollapseFixpoint | analise_texto.py:84-85 | collapsing a single-spaced text leaves it unchanged |
| TextAnalysis.VisibleStrip | analise_texto.py:85 | stripping removes no non-whitespace character |
| TextAnalysis.CleanText | analise_texto.py:84-85 | the result is empty iff the input is blank; it has no leading or trailing whitespace; it is single-spaced; it is no longer than the input; it keeps every visible character in order |
| TextAnalysis.CollapseWords | analise_texto.py:85 | on a text without leading or trailing whitespace, collapsing gives its `str.split()` words joined by single spaces |
| TextAnalysis.CollapseKeepsWords | analise_texto.py:85 | collapsing whitespace runs never changes the `str.split()` words of any text |
| TextAnalysis.CleanTextJoinsWords | analise_texto.py:84-85 | the cleaned text is exactly the `str.split()` words of the input joined by single spaces |
| TextAnalysis.CleanTextKeepsWords | analise_texto.py:84-85 | cleaning keeps exactly the `str.split()` words of the input |
| TextAnalysis.CleanTextIdempotent | analise_texto.py:84-85 | cleaning twice is cleaning once |
| TextAnalysis.SplitPages | analise_texto.py:88-90 | one page more than there are form feeds; no page holds a form feed; joining with form feeds restores the text |
| TextAnalysis.SplitPagesJoin | analise_texto.py:88-90 | splitting pages joined by form feed gives the pages back |
| TextAnalysis.SortedKeys | analise_texto.py:137 | the OCR page keys in strictly ascending order, each exactly once |
| TextAnalysis.OcrPages | analise_texto.py:136-137 | the OCR texts in ascending key order |
| TextAnalysis.OcrTextRoundTrip | analise_texto.py:136-137 | splitting the joined OCR text gives back the OCR pages in key order |
| TextAnalysis.PdfPageTexts | analise_texto.py:153-155 | one text per PDF page, "" for a page without text |
| TextAnalysis.ExtractText | analise_texto.py:128-157 | a non-empty OCR dict is joined by form feed in key order; otherwise ".docx" joins paragraphs by newline and ".pdf" joins page texts by form feed (RuntimeError when the library is missing, its exception when reading fails); any other suffix raises RuntimeError |
| TextAnalysis.PdfTextPagesRoundTrip | analise_texto.py:147-156 | the pages the analysis splits are exactly the pdfplumber page texts |
| TextAnalysis.Sample | analise_texto.py:119-120 | the detection sample is the first 1000 characters, or the whole text when it is shorter |
| TextAnalysis.DetectedCodes | analise_texto.py:175 | never more detected codes than pages, since a page yields at most one code |
| TextAnalysis.DetectedCodesSingle | analise_texto.py:175 | one page yields no code when it is blank, otherwise the detector's answer on its sample |
| TextAnalysis.DetectedCodesAppend | analise_texto.py:175 | the codes of two runs of pages are the codes of the first followed by those of the second |
| TextAnalysis.DetectedCodesMembers | analise_texto.py:175 | a code is detected iff some non-blank page gets it |
| TextAnalysis.Distinct | analise_texto.py:175-176 | the Counter keys: the same members as the codes, no repeats, in first-seen order |
| TextAnalysis.Languages | analise_texto.py:175-176 | the language list holds a code iff some non-blank page gets it, and holds each code once |
| TextAnalysis.LanguageErrors | analise_texto.py:177-178 | one "Vários idiomas detectados: " message listing the languages joined by ", " iff more than one language was seen |
| TextAnalysis.DistinctMixed | analise_texto.py:176-178 | more than one distinct language iff two different codes occur |
| TextAnalysis.LanguagesMixed | analise_texto.py:175-178 | the language list is longer than one iff the detected pages disagree |
| TextAnalysis.SortedSuspectTermsOrdered | analise_texto.py:55-58 | the suspect-term list is in strictly ascending str order |
| TextAnalysis.SortedSuspectTermsSame | analise_texto.py:55-58 | the list holds exactly the terms of the SUSPECT_TERMS set |
| TextAnalysis.TermsIn | analise_texto.py:182 | the terms kept are exactly those that occur in the text, and a sorted term list stays sorted |
| TextAnalysis.SuspiciousTerms | analise_texto.py:180-182 | sorted without repeats, and a term is reported iff it occurs in the lower-cased raw text |
| TextAnalysis.SuspiciousTermsExact | analise_texto.py:180-182 | the reported terms are exactly the members of SUSPECT_TERMS that occur in the lower-cased text |
| TextAnalysis.ContentWords | analise_texto.py:105-106 | exactly the alphabetic tokens whose lower-cased form is not a Portuguese stop word |
| TextAnalysis.ContentWordsSingle | analise_texto.py:106 | one token is kept iff it is alphabetic and its lower-cased form is not a stop word |
| TextAnalysis.ContentWordsAppend | analise_texto.py:106 | the filter distributes over concatenation, so token order is kept |
| TextAnalysis.Sentences | analise_texto.py:96-103 | never empty: the tokenizer's sentences when there are any, otherwise the whole text as one sentence |
| TextAnalysis.DistinctCountIff | analise_texto.py:113 | the number of distinct words equals the word count iff no word repeats |
| TextAnalysis.TotalLengthAtLeastCount | analise_texto.py:112 | non-empty words have a total length at least their count, so the mean word length is at least 1 |
| TextAnalysis.DistinctWordsBounds | analise_texto.py:113 | between 1 and n distinct words among n > 0 words, so the diversity lies in (0, 1] |
| TextAnalysis.Stylometry | analise_texto.py:93-116 | all-zero stats iff no content word remains; otherwise mean word length ≥ 1, 0 < lexical diversity ≤ 1 and the Flesch-Kincaid grade of the text; mean sentence length is never negative |
| TextAnalysis.StylometryValues | analise_texto.py:102-116 | with content words, the mean sentence length is the total token count over the sentences divided by their number, the mean word length is the total length over the count, and the lexical diversity is 1 iff no content word repeats |
| TextAnalysis.CleanPages | analise_texto.py:187 | each page cleaned, one for one |
| TextAnalysis.StyledPagesEntries | analise_texto.py:185-193 | each styled entry carries a 1-based page number, the page's cleaned text has at least 300 characters, and the stats are that text's stylometry |
| TextAnalysis.StyledPagesNumbers | analise_texto.py:185-193 | page i is styled iff its cleaned text has at least 300 characters; page numbers are in range and ascending |
| TextAnalysis.StyleMap | analise_texto.py:191 | the keys are exactly the styled page numbers, each mapped to its stats |
| TextAnalysis.SampleVariance | analise_texto.py:197-198 | the sample variance is never negative, and is 0 for fewer than two values |
| TextAnalysis.ZScoreTest | analise_texto.py:200 | for positive sigma, abs(v - mu) / sigma > 1.2 iff (v - mu)^2 > 1.44 * sigma^2 |
| TextAnalysis.FlaggedPages | analise_texto.py:199-201 | only styled pages are flagged, every page over the threshold is flagged, and zero variance flags none |
| TextAnalysis.FlaggedPagesOrdered | analise_texto.py:199-201 | the flagged pages are ascending, and a flagged page is over the threshold |
| TextAnalysis.StyleOutliers | analise_texto.py:195-201 | fewer than two styled pages flag none; outliers are styled pages; over entries in page order the outliers are ascending and an entry's page is an outlier iff its readability passes the z-score test against the mean and sample variance of all readabilities |
| TextAnalysis.StyleOutliersExample | analise_texto.py:195-201 | readabilities 10, 10, 10, 50 flag page 4 only |
| TextAnalysis.TrimDots | analise_texto.py:162 | the file-type label loses exactly its leading dots |
| TextAnalysis.TextReportOf | analise_texto.py:162-203 | the report carries the path and the upper-cased suffix without its dots; it has at most one error, and an extraction exception always leaves one |
| TextAnalysis.TextReportOnFailure | analise_texto.py:165-169 | an extraction exception gives the single error "Falha na extração de texto: " + message and empty findings |
| TextAnalysis.TextReportLanguagesAndTerms | analise_texto.py:172-182 | at most one error, present iff the detected pages disagree; terms sorted and exactly the suspect terms in the text |
| TextAnalysis.PageStatistics | analise_texto.py:185-201 | page i has stats iff its cleaned text has at least 300 characters; outliers have stats and are ascending |
| TextAnalysis.TextReportPages | analise_texto.py:185-201 | the same facts about the report's stylometry map and inconsistent pages |
| TextAnalysis.CollectStyles | analise_texto.py:185-193 | the page loop builds exactly the styled entries and the stylometry map |
| TextAnalysis.SelectOutliers | analise_texto.py:195-201 | the outlier loop appends exactly the flagged pages |
| TextAnalysis.AnalyzeText | analise_texto.py:161-203 | the report built step by step equals the report the section rules describe |
| Preprocess.Hasher.constructor | document_preprocessor.py:63-64 | a fresh digest has absorbed nothing |
| Preprocess.Hasher.Update | document_preprocessor.py:67-68 | the absorbed bytes grow by exactly the chunk |
| Preprocess.ByteReader.constructor | document_preprocessor.py:65 | a file opened for reading starts at offset 0 |
| Preprocess.ByteReader.Read | document_preprocessor.py:66 | returns the next n bytes, fewer only at end of file, and advances by as many |
| Preprocess.HashFile | document_preprocessor.py:61-69 | the non-empty chunks of at most 8192 bytes concatenate to the file, and the digests equal the one-shot digests of the whole file |
| Preprocess.Classify | document_preprocessor.py:188-199 | PDF iff the mime is "application/pdf" or the lower-cased suffix is ".pdf"; otherwise DOCX iff the suffix is ".docx"/".doc" or the mime contains "word"; otherwise UNKNOWN |
| Preprocess.ClassifyPrecedence | document_preprocessor.py:191-199 | a ".pdf" suffix or a PDF mime always wins; ".docx"/".doc" give DOCX unless the mime is PDF; no mime and another suffix give UNKNOWN |
| Preprocess.IsTextPdf | document_preprocessor.py:92-96 | a text PDF has at least one page and a readable first page with at least one character object |
| Preprocess.DropFirst | document_preprocessor.py:112 | `k[1:]`: the key without its first character, "" for an empty key |
| Preprocess.StripMetadata | document_preprocessor.py:111-113 | the last docinfo item's stripped name maps to its value |
| Preprocess.StripMetadataKeys | document_preprocessor.py:111-113 | the keys are exactly the stripped names of the items |
| Preprocess.StripMetadataLastWins | document_preprocessor.py:111-113 | on a clash of stripped names the last item's value is kept |
| Preprocess.StripMetadataExample | document_preprocessor.py:111-113 | "/Title" and "/Producer" become "Title" and "Producer" |
| Preprocess.PageImageNames | document_preprocessor.py:132-135 | one name per rendered page: out_dir/stem_page_(i+1).png |
| Preprocess.PageImageNamesDistinct | document_preprocessor.py:133 | two pages never share an image name |
| Preprocess.RenderPages | document_preprocessor.py:131-136 | the append loop produces exactly those names |
| Preprocess.PdfExtraOf | document_preprocessor.py:82-144 | pages and is_pdf_text are set iff pdfplumber opened the file, with the text probe; metadata iff pikepdf read it; image names iff out_dir is set, is_pdf_text is False and rendering succeeded |
| Preprocess.PreprocessPdf | document_preprocessor.py:82-144 | the dict filled key by key equals that description |
| Preprocess.DocxMetadata | document_preprocessor.py:152-174 | a readable document gives exactly the five keys author, created, last_modified_by, modified and title, with the dates as `str`; otherwise nothing |
| Preprocess.InfoOf | document_preprocessor.py:186-211 | the resolved path, the classified type and the whole-file digests; for a PDF, pages, is_pdf_text, metadata and images are those `_preprocess_pdf` set, with metadata {} after a failed pikepdf read and images [] when none were rendered; for a DOCX, the metadata `_preprocess_docx` read, {} when python-docx could not read it; non-PDF types have no pages, no text flag and no images; UNKNOWN has no metadata; images only for a raster PDF with an output directory |
| Preprocess.PreprocessSpec | document_preprocessor.py:181-211 | a missing path raises FileNotFoundError(resolved path); a directory raises IsADirectoryError when hashing; a regular file gives the record |
| Preprocess.Preprocess | document_preprocessor.py:181-211 | the step-by-step preprocessing equals that specification |
| Preprocess.NoRenderingWithoutOutputDir | document_preprocessor.py:124 | without out_dir no image is ever listed |
| Visual.Trunc | analise_visual.py:96 | `int()` truncates toward zero |
| Visual.Survivors | analise_visual.py:88 | exactly the matches with distance < 30 and distinct query and train keypoints, never more than the input |
| Visual.SurvivorsAppend | analise_visual.py:88 | the filter distributes over concatenation, so match order is kept |
| Visual.SurvivorsIdempotent | analise_visual.py:88 | filtering twice is filtering once |
| Visual.BoxesOf | analise_visual.py:93-96 | one box per match, from the truncated query and train positions |
| Visual.CopyMove | analise_visual.py:78-97 | positive iff OpenCV is present, descriptors exist, there are at least 2 keypoints and at least 10 survivors; then exactly 10 boxes from the first 10 survivors in order; otherwise no boxes |
| Visual.DetectCopyMove | analise_visual.py:78-97 | the box-appending loop returns exactly that outcome |
| Visual.Tag | analise_visual.py:157 | every box is prefixed with the page index |
| Visual.PrnuScanConsistent | analise_visual.py:105-111 | no inconsistency iff every compared residual correlates at or above 0.7 |
| Visual.PrnuScanInconsistent | analise_visual.py:105-111 | an inconsistency iff some residual falls below 0.7 after only passing ones |
| Visual.ExtractPrnuSpec | analise_visual.py:100-111 | None without the PRNU library; the mean's exception propagates; three or fewer residuals give false when their mean can be computed |
| Visual.ExtractPrnuMeaning | analise_visual.py:100-111 | false iff all residuals after the third pass against the mean of the first three; true iff one of them fails first |
| Visual.ExtractPrnu | analise_visual.py:100-111 | the loop with break returns exactly that result |
| Visual.WordCountBlank | analise_visual.py:118 | a text has no words iff it is blank |
| Visual.WordCountAppend | analise_visual.py:118 | the word counts of texts joined at whitespace add up |
| Visual.WordCountWords | analise_visual.py:118 | the word count is the length of `txt.split()` |
| Visual.OcrScore | analise_visual.py:114-119 | the page score is the word count divided by 100; 0 without Tesseract or for a blank page |
| Visual.AccumulateAbort | analise_visual.py:144-165 | an exception on one page aborts the loop with that exception |
| Visual.AccumulateOutcome | analise_visual.py:144-165 | the loop completes iff no page's residual extraction or OCR raises; otherwise its exception is the one the first raising page raises (residual before OCR) |
| Visual.AccumulateFacts | analise_visual.py:139-165 | copy_move iff some page is positive; every box's page index is below the page count; 10 boxes per positive page; one residual per page with PRNU, none without; the OCR sum is the sum of the page scores |
| Visual.AnalyzePages | analise_visual.py:139-165 | the accumulating loop equals its specification |
| Visual.PagesOf | analise_visual.py:127-137 | image suffixes give one IMAGE page; ".pdf" gives the rendered pages, and RuntimeError "Falha ao renderizar/abrir: " + the missing-library message without pdf2image; any other suffix raises the unsupported-type RuntimeError; every failure is a RuntimeError |
| Visual.AnalyzeSpec | analise_visual.py:123-184 | a page-listing failure is the exception; it succeeds iff listing the pages and the page loop both succeed, a loop exception propagating unchanged; the report carries the path and the type label |
| Visual.Analyze | analise_visual.py:123-184 | the step-by-step analysis equals the report its rules describe |
| Visual.AnalyzeFacts | analise_visual.py:167-183 | the report's page count, copy_move and boxes follow the page facts; the OCR ratio is the score sum over max(pages, 1); no PRNU verdict or error without PRNU or without pages; with PRNU and pages, the verdict is the PRNU result and a PRNU exception becomes the single error "PRNU erro: " + message; at most one error |
| Visual.NoCopyMoveWithoutOpenCv | analise_visual.py:153 | without OpenCV no page is positive |
| Visual.OcrTotalWithoutTesseract | analise_visual.py:114-116 | without Tesseract the OCR sum is 0 |
| Pipeline.VerdictLabel | verificador_documental.py:87 | "SUSPEITO" iff suspicious, otherwise "OK" |
| Pipeline.EscalationMonotone | verificador_documental.py:80-87 | adding red flags never turns SUSPEITO into OK |
| Pipeline.SingleFlags | verificador_documental.py:80-85 | an untrusted first status, copy-move or a suspect term alone escalates; incremental updates alone or JavaScript alone does not |
| Pipeline.UntrustedStatuses | verificador_documental.py:81 | PRESENT, UNAVAILABLE, ERROR and INVALID escalate; VALID and UNVERIFIED_HYBRID do not |
| Pipeline.DocxFindingsIgnored | verificador_documental.py:82 | DOCX macros and track changes never reach the verdict |
| Pipeline.RunPipelineWith | verificador_documental.py:44-96 | for a given structure outcome, a structure exception aborts the pipeline |
| Pipeline.RunPipeline | verificador_documental.py:44-96 | each layer's report is that layer's result for the file; the text layer gets no OCR dict; a verdict exists only with a first signature; the visual report is present iff is_pdf_text is False; the verdict is SUSPEITO iff one of the four red flags holds; missing paths and directories raise before anything else (built on the corrected macro scan) |
| Pipeline.NoSignaturesAborts | verificador_documental.py:54 | an empty signature list raises IndexError |
| Pipeline.UnknownTypeAborts | verificador_documental.py:52-54 | a file that is neither PDF nor DOCX by suffix always aborts with IndexError |
| Pipeline.UnsignedPdfAborts | verificador_documental.py:52-54 | with pyHanko installed, an unsigned PDF aborts with IndexError |
| Pipeline.DocxNeverClean | verificador_documental.py:80-87 | in the pipeline with the corrected macro scan, every DOCX that gets a verdict is SUSPEITO, because its signature records are never VALID or UNVERIFIED_HYBRID |
| Pipeline.DocxAsWrittenNoVerdict | verificador_documental.py:58-59 | as written, a .docx/.docm with lxml present and an archive with entries never gets a verdict; once preprocessing and a signature are available, the pipeline fails with the AttributeError for 'ZipInfo'/'name' |
| Pipeline.VisualOnlyForRasterPdf | verificador_documental.py:65-70 | the visual layer runs iff the file is classified PDF, pdfplumber opened it and its first page shows no character |
| Pipeline.NoRenderedImages | verificador_documental.py:46 | the pipeline's preprocess record never lists rendered images |
| Pipeline.VisualFailurePropagates | verificador_documental.py:64-70 | an exception of the visual layer aborts the pipeline with that exception |

## Left out

- I/O: the file system, the ZIP and XML readers, mime guessing and path resolution are inputs carried by `FileRef`. Path normalisation (`expanduser`, `resolve`, `Path` joining) is not modelled, so `out_dir / name` is written as `out_dir + "/" + name`.
- The actual algorithms: SHA-256/SHA-512, pyHanko validation, pikepdf parsing, pdfplumber character extraction, pdf2image rendering, ORB keypoints and the cross-checked matcher, PRNU residual extraction and `corr2d`, Tesseract, nltk tokenisation, stop words, textstat and langdetect. Their outputs are parameters.
- The strict `<` of the copy-move filter and the 0.7 PRNU threshold are compared on `real`; float rounding is not modelled.
- `str.lower()`/`upper()` are modelled for ASCII and Latin-1 letters only, and `upper()` leaves ß (U+00DF), ÿ (U+00FF) and µ (U+00B5) unchanged. Python maps these to "SS", U+0178 and U+039C. Other Unicode case mappings are not modelled. Upper-casing is only used for the file-type label of the text report.
- The `preprocess(path)` call inside `verify` is not modelled. Its result is discarded, and any exception from it is printed and swallowed.
- The keys `revisions` and `has_xref_streams` of the PDF `info` dict are not modelled, and neither is the `paragraphs` key of the DOCX `info`. `preprocess` never copies them into its record.
- Exceptions raised inside OpenCV colour conversion or keypoint detection are not modelled. In the model the detector always completes. Exceptions from the PRNU residual extraction and from Tesseract are modelled.
- Exceptions raised by the nltk and textstat calls of the stylometry are not modelled: `sent_tokenize` failing with something other than LookupError, `word_tokenize` without its tokenizer model, and `textstat.flesch_kincaid_grade`. The `Nlp` fields `sentences`, `wordsPt`, `words` and `fleschKincaid` are total functions. In the source, `analyze_text` does not catch these, so they would abort `run_pipeline`.
- The `verbose` progress bar of the page loop is not modelled, because it only reports progress.
- The `_cli` functions, JSON serialisation, printing, warnings, file writing and `sys.exit` are not modelled. Neither are the module-level nltk corpus downloads or the langdetect seed.
- The `PunktSentenceTokenizer` fallback for a missing punkt model is not modelled separately. The sentence splitter is the abstract `nlp.sentences`, which stands for whichever tokenizer ran. The fallback to the whole text when it finds no sentence is modelled, by `TextAnalysis.Sentences`.
- Structure.AnalyzeStructure: built on the corrected macro scan of `Structure.AnalyzeDocx`, so it states what the layer does once `p.name` reads the entry's file name. The code as written is `Structure.AnalyzeStructureAsWritten`, and `Structure.StructureAsWrittenRaises` states how it fails.
- Pipeline.RunPipeline: built on `Structure.AnalyzeStructure`, so it also assumes the corrected macro scan. The pipeline as written is `Pipeline.RunPipelineAsWritten`, and `Pipeline.DocxAsWrittenNoVerdict` states that it gives no verdict for a DOCX whose archive has entries.
- Pipeline.DocxNeverClean: about the corrected pipeline. As written, such a DOCX gets no verdict at all (see `Pipeline.DocxAsWrittenNoVerdict`).
- The result dict's six keys are the six fields of `PipelineResult`, so the datatype fixes them and no lemma states them.

## Findings

| source | as written | input that shows it | evidently intended | confidence | as-written member | corrected member |
|---|---|---|---|---|---|---|
| analise_estrutura.py:142 | the macro scan reads `p.name` on each `zipfile.ZipInfo` from `infolist()`, but `ZipInfo` has `filename` and no `name` attribute | any DOCX archive with at least one entry, e.g. one holding `word/vbaProject.bin`, raises AttributeError instead of being analysed | has_macros is true iff some entry's file name ends in "vbaproject.bin", ignoring case | not executed | Structure.MacroScanCounterexample | Structure.AnalyzeDocx |
