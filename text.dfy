/**
 * Layer 4 of the pipeline (analise_texto.py): text extraction, page
 * splitting, language list, suspicious terms and per-page stylometry with
 * z-score outliers. Tokenisers, the stop-word list, the readability
 * formula and the language detector are given as inputs.
 */
module TextAnalysis {
  import opened Common
  import opened Strings

  // ------------------------------------------------------------ cleaning

  /** The characters of `s` that are not whitespace, in order. */
  function Visible(s: string): string
    decreases |s|
  {
    if s == [] then [] else (if IsSpace(s[0]) then [] else [s[0]]) + Visible(s[1..])
  }

  lemma {:induction false} VisibleAppend(a: string, b: string)
    ensures Visible(a + b) == Visible(a) + Visible(b)
    decreases |a|
  {
    if a == [] {
      assert a + b == b;
    } else {
      assert (a + b)[1..] == a[1..] + b;
      VisibleAppend(a[1..], b);
    }
  }

  lemma {:induction false} VisibleBlank(s: string)
    requires Blank(s)
    ensures Visible(s) == []
    decreases |s|
  {
    if s != [] {
      VisibleBlank(s[1..]);
    }
  }

  /** `Visible` on a text with one more character in front. */
  lemma VisibleCons(c: char, t: string)
    ensures Visible([c] + t) == (if IsSpace(c) then [] else [c]) + Visible(t)
  {
    assert ([c] + t)[1..] == t;
  }

  /** `Visible` of a text is that of its two halves, cut anywhere. */
  lemma VisibleSplit(s: string, k: nat)
    requires k <= |s|
    ensures Visible(s) == Visible(s[..k]) + Visible(s[k..])
  {
    assert s == s[..k] + s[k..];
    VisibleAppend(s[..k], s[k..]);
  }

  /** Cutting off whitespace at the front of a text loses no visible character. */
  lemma VisibleDropBlank(s: string, k: nat)
    requires k <= |s|
    requires forall i :: 0 <= i < k ==> IsSpace(s[i])
    ensures Visible(s) == Visible(s[k..])
  {
    VisibleSplit(s, k);
    assert Blank(s[..k]);
    VisibleBlank(s[..k]);
  }

  /** Cutting off whitespace at the end of a text loses no visible character. */
  lemma VisibleTakeBlank(s: string, k: nat)
    requires k <= |s|
    requires forall i :: k <= i < |s| ==> IsSpace(s[i])
    ensures Visible(s) == Visible(s[..k])
  {
    VisibleSplit(s, k);
    assert Blank(s[k..]);
    VisibleBlank(s[k..]);
  }

  /** Stripping whitespace at either end keeps every visible character. */
  lemma VisibleStrip(s: string)
    ensures Visible(Strip(s)) == Visible(s)
  {
    var l := TrimLeft(s);
    VisibleDropBlank(s, |s| - |l|);
    var r := TrimRight(l);
    VisibleTakeBlank(l, |r|);
  }

  /** Every whitespace character is a plain space and is followed by a visible one. */
  predicate SingleSpaced(s: string) {
    forall i :: 0 <= i < |s| && IsSpace(s[i]) ==> s[i] == ' ' && (i + 1 < |s| ==> !IsSpace(s[i + 1]))
  }

  /** `re.sub(r"\s+", " ", s)`: each maximal whitespace run becomes one space. */
  function Collapse(s: string): (r: string)
    ensures |r| <= |s|
    ensures s != [] ==> r != [] && r[0] == (if IsSpace(s[0]) then ' ' else s[0])
    decreases |s|
  {
    if s == [] then []
    else if IsSpace(s[0]) then [' '] + Collapse(TrimLeft(s[1..]))
    else [s[0]] + Collapse(s[1..])
  }

  /** The collapsed text ends in whitespace exactly when the input does. */
  lemma {:induction false} CollapseLast(s: string)
    requires s != []
    ensures IsSpace(Collapse(s)[|Collapse(s)| - 1]) <==> IsSpace(s[|s| - 1])
    decreases |s|
  {
    var tail := s[1..];
    if IsSpace(s[0]) {
      var rest := TrimLeft(tail);
      if rest != [] {
        CollapseLast(rest);
        assert rest[|rest| - 1] == s[|s| - 1];
      } else {
        assert |s| > 1 ==> IsSpace(tail[|tail| - 1]);
      }
    } else if tail != [] {
      CollapseLast(tail);
    }
  }

  /** Collapsing leaves only single plain spaces. */
  lemma {:induction false} CollapseSingleSpaced(s: string)
    ensures SingleSpaced(Collapse(s))
    decreases |s|
  {
    if s != [] {
      var tail := s[1..];
      if IsSpace(s[0]) {
        var rest := TrimLeft(tail);
        CollapseSingleSpaced(rest);
        var c := Collapse(rest);
        assert c != [] ==> !IsSpace(c[0]);
        assert forall i :: 1 <= i < |c| + 1 ==> ([' '] + c)[i] == c[i - 1];
      } else {
        CollapseSingleSpaced(tail);
        var c := Collapse(tail);
        assert forall i :: 1 <= i < |c| + 1 ==> ([s[0]] + c)[i] == c[i - 1];
      }
    }
  }

  /** Collapsing keeps every visible character, in order. */
  lemma {:induction false} CollapseVisible(s: string)
    ensures Visible(Collapse(s)) == Visible(s)
    decreases |s|
  {
    if s != [] {
      var tail := s[1..];
      assert s == [s[0]] + tail;
      VisibleCons(s[0], tail);
      if IsSpace(s[0]) {
        var rest := TrimLeft(tail);
        CollapseVisible(rest);
        VisibleCons(' ', Collapse(rest));
        VisibleDropBlank(tail, |tail| - |rest|);
      } else {
        CollapseVisible(tail);
        VisibleCons(s[0], Collapse(tail));
      }
    }
  }

  /** A text that is already single-spaced is left as it is. */
  lemma {:induction false} CollapseFixpoint(s: string)
    requires SingleSpaced(s)
    ensures Collapse(s) == s
    decreases |s|
  {
    if s != [] {
      var tail := s[1..];
      assert SingleSpaced(tail) by {
        forall i | 0 <= i < |tail| && IsSpace(tail[i])
          ensures tail[i] == ' ' && (i + 1 < |tail| ==> !IsSpace(tail[i + 1]))
        {
          assert tail[i] == s[i + 1];
        }
      }
      CollapseFixpoint(tail);
      if IsSpace(s[0]) && tail != [] {
        assert !IsSpace(tail[0]);
        assert TrimLeft(tail) == tail;
      }
      assert s == [s[0]] + tail;
    }
  }

  /** `_clean_text`: `re.sub(r"\s+", " ", text.strip())`. */
  function CleanText(s: string): (r: string)
    ensures r == [] <==> Blank(s)
    ensures r != [] ==> !IsSpace(r[0]) && !IsSpace(r[|r| - 1])
    ensures SingleSpaced(r)
    ensures |r| <= |s|
    ensures Visible(r) == Visible(s)
  {
    CleanTextContract(s);
    Collapse(Strip(s))
  }

  /** The contract of CleanText, stated on its definition. */
  lemma CleanTextContract(s: string)
    ensures var r := Collapse(Strip(s));
      && (r == [] <==> Blank(s))
      && (r != [] ==> !IsSpace(r[0]) && !IsSpace(r[|r| - 1]))
      && SingleSpaced(r)
      && Visible(r) == Visible(s)
  {
    var t := Strip(s);
    StripEmptyIffBlank(s);
    StripEnds(s);
    if t != [] {
      CollapseLast(t);
    }
    CollapseSingleSpaced(t);
    VisibleStrip(s);
    CollapseVisible(t);
  }

  /** `s.strip()` neither starts nor ends with whitespace. */
  lemma StripEnds(s: string)
    ensures var t := Strip(s); t != [] ==> !IsSpace(t[0]) && !IsSpace(t[|t| - 1])
  {
    var l := TrimLeft(s);
    var t := TrimRight(l);
    if t != [] {
      assert t[0] == l[0];
    }
  }

  /** Cleaning a cleaned text changes nothing. */
  lemma CleanTextIdempotent(s: string)
    ensures CleanText(CleanText(s)) == CleanText(s)
  {
    var r := CleanText(s);
    assert TrimLeft(r) == r;
    assert TrimRight(r) == r;
    CollapseFixpoint(r);
  }

  lemma ConcatAssoc(a: string, b: string, c: string)
    ensures a + (b + c) == (a + b) + c
  {
  }

  /** A text that starts with a visible character collapses word by word. */
  lemma {:induction false} CollapseWord(s: string)
    requires s != [] && !IsSpace(s[0])
    ensures Collapse(s) == TakeWord(s) + Collapse(s[|TakeWord(s)|..])
    decreases |s|
  {
    var tail := s[1..];
    var w := TakeWord(tail);
    assert TakeWord(s) == [s[0]] + w;
    if tail != [] && !IsSpace(tail[0]) {
      CollapseWord(tail);
      var rem := tail[|w|..];
      assert rem == s[|TakeWord(s)|..] by { DropTwice(s, 1, |w|); }
      calc {
        Collapse(s);
        [s[0]] + Collapse(tail);
        [s[0]] + (w + Collapse(rem));
        { ConcatAssoc([s[0]], w, Collapse(rem)); }
        TakeWord(s) + Collapse(rem);
      }
    } else {
      assert w == [];
    }
  }

  /** A whitespace run before a visible character collapses to one space and separates no words. */
  lemma CollapseSpaceRun(rest: string)
    requires rest != [] && IsSpace(rest[0]) && !IsSpace(rest[|rest| - 1])
    ensures var u := TrimLeft(rest[1..]);
      && u != [] && !IsSpace(u[0]) && !IsSpace(u[|u| - 1]) && |u| < |rest|
      && Collapse(rest) == " " + Collapse(u)
      && Words(rest) == Words(u)
  {
    var tail := rest[1..];
    assert tail[|tail| - 1] == rest[|rest| - 1];
    TrimLeftKeepsLast(tail);
    WordsSpaceFirst(rest);
    WordsTrimLeft(tail);
  }

  /** `sep.join` of a list with at least two parts. */
  lemma JoinCons(w: string, ws: seq<string>, sep: string)
    requires ws != []
    ensures Join([w] + ws, sep) == w + sep + Join(ws, sep)
  {
    assert ([w] + ws)[1..] == ws;
  }

  /** Between its first and last visible character, collapsing joins the words with single spaces. */
  lemma {:induction false} CollapseWords(t: string)
    requires t != [] ==> !IsSpace(t[0]) && !IsSpace(t[|t| - 1])
    ensures Collapse(t) == Join(Words(t), " ")
    decreases |t|
  {
    if t != [] {
      assert TrimLeft(t) == t;
      var w := TakeWord(t);
      var rest := t[|w|..];
      CollapseWord(t);
      assert Words(t) == [w] + Words(rest);
      if rest != [] {
        assert IsSpace(rest[0]) && rest[|rest| - 1] == t[|t| - 1];
        CollapseSpaceRun(rest);
        var u := TrimLeft(rest[1..]);
        CollapseWords(u);
        WordsOfNonBlank(u);
        JoinCons(w, Words(u), " ");
        ConcatAssoc(w, " ", Collapse(u));
      } else {
        assert Words(rest) == [];
        assert Collapse(rest) == [];
        assert w + [] == w;
      }
    }
  }

  /** Collapsing whitespace runs keeps exactly the words of any text, in order. */
  lemma {:induction false} CollapseKeepsWords(s: string)
    ensures Words(Collapse(s)) == Words(s)
    decreases |s|
  {
    if s != [] && IsSpace(s[0]) {
      var u := TrimLeft(s[1..]);
      calc {
        Words(Collapse(s));
        Words([' '] + Collapse(u));
        { WordsSpaceCons(' ', Collapse(u)); }
        Words(Collapse(u));
        { CollapseKeepsWords(u); }
        Words(u);
        { WordsTrimLeft(s[1..]); }
        Words(s[1..]);
        { WordsSpaceFirst(s); }
        Words(s);
      }
    } else if s != [] {
      var w := TakeWord(s);
      var rem := s[|w|..];
      assert IsWord(w) by { assert s[0] == s[..|w|][0]; }
      assert rem == [] || IsSpace(rem[0]) by { assert rem != [] ==> rem[0] == s[|w|]; }
      assert s == w + rem;
      calc {
        Words(Collapse(s));
        { CollapseWord(s); }
        Words(w + Collapse(rem));
        { WordsWordBefore(w, Collapse(rem)); }
        [w] + Words(Collapse(rem));
        { CollapseKeepsWords(rem); }
        [w] + Words(rem);
        { WordsWordBefore(w, rem); }
        Words(s);
      }
    }
  }

  /** A text with a visible character has at least one word. */
  lemma WordsOfNonBlank(s: string)
    requires s != [] && !IsSpace(s[0])
    ensures Words(s) != []
  {
    assert TrimLeft(s) == s;
  }

  /** Stripping then collapsing leaves the words of the text joined by single spaces. */
  lemma StripCollapseWords(s: string)
    ensures Collapse(Strip(s)) == Join(Words(s), " ")
  {
    var l := TrimLeft(s);
    var t := TrimRight(l);
    assert t != [] ==> t[0] == l[0];
    CollapseWords(t);
    WordsTrimLeft(s);
    StripSuffixBlank(l);
    WordsBlankSuffix(t, l[|t|..]);
  }

  /** What `rstrip` cuts off is blank. */
  lemma StripSuffixBlank(l: string)
    ensures l == TrimRight(l) + l[|TrimRight(l)|..] && Blank(l[|TrimRight(l)|..])
  {
  }

  /** `_clean_text` is `" ".join(text.split())`: the words of the text, joined by single spaces. */
  lemma CleanTextJoinsWords(s: string)
    ensures CleanText(s) == Join(Words(s), " ")
  {
    StripCollapseWords(s);
  }

  /** Cleaning keeps exactly the words of the text, in order. */
  lemma CleanTextKeepsWords(s: string)
    ensures Words(CleanText(s)) == Words(s)
  {
    CleanTextJoinsWords(s);
    WordsAreWords(s);
    WordsJoin(Words(s));
  }

  // ------------------------------------------------------------ pages

  const FormFeed: char := '\U{0C}'

  /** `_split_pages`: the pieces between form feeds. */
  function SplitPages(s: string): (r: seq<string>)
    ensures |r| == CountChar(s, FormFeed) + 1
    ensures forall k :: 0 <= k < |r| ==> FormFeed !in r[k]
    ensures Join(r, [FormFeed]) == s
  {
    JoinSplit(s, FormFeed);
    Split(s, FormFeed)
  }

  /** Pages joined by form feeds split back into the same pages. */
  lemma SplitPagesJoin(pages: seq<string>)
    requires |pages| >= 1
    requires forall k :: 0 <= k < |pages| ==> FormFeed !in pages[k]
    ensures SplitPages(Join(pages, [FormFeed])) == pages
  {
    SplitJoin(pages, FormFeed);
  }

  // ------------------------------------------------------------ extraction

  /** Some element of a non-empty set. */
  ghost function Element(s: set<int>): (x: int)
    requires s != {}
    ensures x in s
  {
    assert exists y :: y in s by {
      if forall y :: y !in s {
        assert false;
      }
    }
    var x :| x in s; x
  }

  /** A non-empty set of integers has a least element. */
  lemma {:induction false} HasMinimum(s: set<int>)
    requires s != {}
    ensures exists m :: m in s && forall y :: y in s ==> m <= y
    decreases |s|
  {
    var x := Element(s);
    var rest := s - {x};
    if rest == {} {
      forall y | y in s ensures x <= y {
        assert y !in rest;
      }
    } else {
      assert s == rest + {x};
      assert |rest| < |s|;
      HasMinimum(rest);
      var m :| m in rest && forall y :: y in rest ==> m <= y;
      var least := if x < m then x else m;
      forall y | y in s ensures least <= y {
        if y != x {
          assert y in rest;
        }
      }
      assert least in s;
    }
  }

  /** The least element of a non-empty set of integers. */
  function Minimum(s: set<int>): (m: int)
    requires s != {}
    ensures m in s && forall y :: y in s ==> m <= y
  {
    HasMinimum(s);
    var m :| m in s && forall y :: y in s ==> m <= y;
    m
  }

  /** `rest` lists `s` in ascending order. */
  predicate ListsInOrder(rest: seq<int>, s: set<int>) {
    && |rest| == |s|
    && (forall i :: 0 <= i < |rest| ==> rest[i] in s)
    && (forall k :: k in s ==> k in rest)
    && (forall i, j :: 0 <= i < j < |rest| ==> rest[i] < rest[j])
  }

  /** Putting the least element in front of an ordered listing of the others lists the whole set in order. */
  lemma PrependLeast(s: set<int>, m: int, rest: seq<int>)
    requires m in s && forall y :: y in s ==> m <= y
    requires ListsInOrder(rest, s - {m})
    ensures ListsInOrder([m] + rest, s)
  {
    var r := [m] + rest;
    assert |s - {m}| == |s| - 1;
    assert forall i :: 1 <= i < |r| ==> r[i] == rest[i - 1];
    assert forall k :: k in s && k != m ==> k in s - {m};
    assert forall i :: 0 <= i < |rest| ==> m < rest[i];
  }

  /** `sorted(keys)`: the elements of a set of integers in ascending order. */
  function SortedKeys(s: set<int>): (r: seq<int>)
    ensures |r| == |s|
    ensures forall i :: 0 <= i < |r| ==> r[i] in s
    ensures forall k :: k in s ==> k in r
    ensures forall i, j :: 0 <= i < j < |r| ==> r[i] < r[j]
    decreases |s|
  {
    if s == {} then []
    else
      var m := Minimum(s);
      var rest := SortedKeys(s - {m});
      PrependLeast(s, m, rest);
      [m] + rest
  }

  /** The OCR pages in ascending page-number order. */
  function OcrPages(ocr: map<int, string>): (r: seq<string>)
    ensures |r| == |ocr|
    ensures forall i :: 0 <= i < |r| ==> r[i] == ocr[SortedKeys(ocr.Keys)[i]]
  {
    var keys := SortedKeys(ocr.Keys);
    assert |keys| == |ocr.Keys| == |ocr|;
    assert forall i :: 0 <= i < |keys| ==> keys[i] in ocr;
    seq(|keys|, i requires 0 <= i < |keys| && keys[i] in ocr => ocr[keys[i]])
  }

  /** `"\f".join(ocr_dict[k] for k in sorted(ocr_dict))` */
  function OcrText(ocr: map<int, string>): string {
    Join(OcrPages(ocr), [FormFeed])
  }

  /** Splitting the joined OCR text gives back each page, in page-number order. */
  lemma OcrTextRoundTrip(ocr: map<int, string>)
    requires |ocr| > 0
    requires forall k :: k in ocr ==> FormFeed !in ocr[k]
    ensures SplitPages(OcrText(ocr)) == OcrPages(ocr)
  {
    var pages := OcrPages(ocr);
    forall k | 0 <= k < |pages| ensures FormFeed !in pages[k] {
      assert SortedKeys(ocr.Keys)[k] in ocr;
    }
    SplitPagesJoin(pages);
  }

  /** What python-docx and pdfplumber read out of the file. */
  datatype TextSource = TextSource(
    docxAvailable: bool,
    /** The paragraph texts of the document, or the exception opening it raised. */
    paragraphs: Result<seq<string>>,
    plumberAvailable: bool,
    /** `page.extract_text()` per page, None for a page without text; or the exception. */
    pdfPages: Result<seq<Option<string>>>)

  /** `page.extract_text() or ""` */
  function PageText(t: Option<string>): string {
    if t.Some? then t.value else ""
  }

  function PdfPageTexts(pages: seq<Option<string>>): (r: seq<string>)
    ensures |r| == |pages| && forall i :: 0 <= i < |r| ==> r[i] == PageText(pages[i])
  {
    seq(|pages|, i requires 0 <= i < |pages| => PageText(pages[i]))
  }

  const DocxMissing := "python-docx ausente"
  const PlumberMissing := "pdfplumber ausente, instale para extrair texto"
  const UnsupportedFormat := "Formato não suportado para extração de texto"

  /** `extract_text`: a non-empty OCR map wins; otherwise the lower-cased suffix picks the reader. */
  function ExtractText(file: FileRef, ocr: map<int, string>, src: TextSource): (r: Result<string>)
    ensures |ocr| > 0 ==> r == Ok(OcrText(ocr))
    ensures |ocr| == 0 && Lower(file.suffix) == ".docx" ==>
      r == (if !src.docxAvailable then Err(RuntimeError(DocxMissing))
            else if src.paragraphs.Err? then Err(src.paragraphs.error)
            else Ok(Join(src.paragraphs.value, "\n")))
    ensures |ocr| == 0 && Lower(file.suffix) == ".pdf" ==>
      r == (if !src.plumberAvailable then Err(RuntimeError(PlumberMissing))
            else if src.pdfPages.Err? then Err(src.pdfPages.error)
            else Ok(Join(PdfPageTexts(src.pdfPages.value), [FormFeed])))
    ensures |ocr| == 0 && Lower(file.suffix) !in {".docx", ".pdf"} ==> r == Err(RuntimeError(UnsupportedFormat))
  {
    if |ocr| > 0 then Ok(OcrText(ocr))
    else
      var suffix := Lower(file.suffix);
      if suffix == ".docx" then
        if !src.docxAvailable then Err(RuntimeError(DocxMissing))
        else match src.paragraphs
          case Err(e) => Err(e)
          case Ok(ps) => Ok(Join(ps, "\n"))
      else if suffix == ".pdf" then
        if !src.plumberAvailable then Err(RuntimeError(PlumberMissing))
        else match src.pdfPages
          case Err(e) => Err(e)
          case Ok(ps) => Ok(Join(PdfPageTexts(ps), [FormFeed]))
      else Err(RuntimeError(UnsupportedFormat))
  }

  /** For a PDF with at least one page, the page split of the extracted text is the page list. */
  lemma PdfTextPagesRoundTrip(file: FileRef, src: TextSource)
    requires Lower(file.suffix) == ".pdf" && src.plumberAvailable && src.pdfPages.Ok?
    requires |src.pdfPages.value| >= 1
    requires forall i :: 0 <= i < |src.pdfPages.value| ==> FormFeed !in PageText(src.pdfPages.value[i])
    ensures SplitPages(ExtractText(file, map[], src).value) == PdfPageTexts(src.pdfPages.value)
  {
    SplitPagesJoin(PdfPageTexts(src.pdfPages.value));
  }

  // ------------------------------------------------------------ languages

  const SampleSize := 1000

  /** `text[:1000] if len(text) > 1000 else text` */
  function Sample(t: string): (r: string)
    ensures |r| == (if |t| > SampleSize then SampleSize else |t|)
    ensures r == t[..|r|]
  {
    if |t| > SampleSize then t[..SampleSize] else t
  }

  /** `_detect_language_sample`: the detector's answer on the sample, "unknown" when it raises. */
  function DetectLanguage(t: string, detect: string -> Option<string>): string {
    match detect(Sample(t))
    case None => "unknown"
    case Some(code) => code
  }

  /** The detected code of each page with text (`t.strip()` is empty exactly on blank pages), in page order. */
  function DetectedCodes(pages: seq<string>, detect: string -> Option<string>): (r: seq<string>)
    ensures |r| <= |pages|
    decreases |pages|
  {
    if pages == [] then []
    else
      var prev := DetectedCodes(pages[..|pages| - 1], detect);
      var t := pages[|pages| - 1];
      if !Blank(t) then prev + [DetectLanguage(t, detect)] else prev
  }

  /** A single page contributes its language exactly when it is not blank. */
  lemma DetectedCodesSingle(t: string, detect: string -> Option<string>)
    ensures DetectedCodes([t], detect) == (if Blank(t) then [] else [DetectLanguage(t, detect)])
  {
    StripEmptyIffBlank(t);
    assert [t][..0] == [];
  }

  /** One more page adds the codes of that page alone. */
  lemma DetectedCodesSnoc(pages: seq<string>, t: string, detect: string -> Option<string>)
    ensures DetectedCodes(pages + [t], detect) == DetectedCodes(pages, detect) + DetectedCodes([t], detect)
  {
    assert (pages + [t])[..|pages|] == pages;
    assert [t][..0] == [];
  }

  /** The codes of two runs of pages are those of the first followed by those of the second. */
  lemma {:induction false} DetectedCodesAppend(a: seq<string>, b: seq<string>, detect: string -> Option<string>)
    ensures DetectedCodes(a + b, detect) == DetectedCodes(a, detect) + DetectedCodes(b, detect)
    decreases |b|
  {
    if b == [] {
      assert a + b == a;
    } else {
      var init, t := b[..|b| - 1], b[|b| - 1];
      assert b == init + [t];
      assert a + b == (a + init) + [t];
      calc {
        DetectedCodes(a + b, detect);
        { DetectedCodesSnoc(a + init, t, detect); }
        DetectedCodes(a + init, detect) + DetectedCodes([t], detect);
        { DetectedCodesAppend(a, init, detect); }
        (DetectedCodes(a, detect) + DetectedCodes(init, detect)) + DetectedCodes([t], detect);
        { DetectedCodesSnoc(init, t, detect); }
        DetectedCodes(a, detect) + DetectedCodes(b, detect);
      }
    }
  }

  /** The index of the first occurrence of `x`. */
  function FirstIndex(xs: seq<string>, x: string): (r: nat)
    requires x in xs
    ensures r < |xs| && xs[r] == x
    ensures forall k :: 0 <= k < r ==> xs[k] != x
    decreases |xs|
  {
    if xs[0] == x then 0 else 1 + FirstIndex(xs[1..], x)
  }

  lemma FirstIndexPrefix(xs: seq<string>, n: nat, x: string)
    requires n <= |xs| && x in xs[..n]
    ensures FirstIndex(xs, x) == FirstIndex(xs[..n], x)
  {
    var a, b := FirstIndex(xs, x), FirstIndex(xs[..n], x);
    assert xs[b] == x;
    assert a <= b;
    assert xs[..n][a] == x;
  }

  /** `list(Counter(xs))`: the distinct values, in the order each first occurs. */
  function Distinct(xs: seq<string>): (r: seq<string>)
    ensures forall x :: x in r <==> x in xs
    ensures forall i, j :: 0 <= i < j < |r| ==> r[i] != r[j]
    ensures forall i, j :: 0 <= i < j < |r| ==> FirstIndex(xs, r[i]) < FirstIndex(xs, r[j])
    decreases |xs|
  {
    if xs == [] then []
    else
      var n := |xs| - 1;
      var prev := Distinct(xs[..n]);
      var x := xs[n];
      assert xs == xs[..n] + [x];
      forall y | y in prev ensures FirstIndex(xs, y) == FirstIndex(xs[..n], y) && FirstIndex(xs, y) < n {
        FirstIndexPrefix(xs, n, y);
      }
      if x in prev then prev
      else
        assert FirstIndex(xs, x) == n;
        prev + [x]
  }

  /** A non-blank page contributes its code. */
  lemma {:induction false} DetectedCodesHas(pages: seq<string>, detect: string -> Option<string>, i: nat)
    requires i < |pages| && !Blank(pages[i])
    ensures DetectLanguage(pages[i], detect) in DetectedCodes(pages, detect)
    decreases |pages|
  {
    var n := |pages| - 1;
    var front, last := pages[..n], pages[n];
    assert pages == front + [last];
    DetectedCodesSnoc(front, last, detect);
    if i < n {
      assert front[i] == pages[i];
      DetectedCodesHas(front, detect, i);
    } else {
      DetectedCodesSingle(last, detect);
    }
  }

  /** Every detected code comes from some non-blank page. */
  lemma {:induction false} DetectedCodesFrom(pages: seq<string>, detect: string -> Option<string>, x: string)
    requires x in DetectedCodes(pages, detect)
    ensures exists i :: 0 <= i < |pages| && DetectedOn(pages, detect, x, i)
    decreases |pages|
  {
    var n := |pages| - 1;
    var front, last := pages[..n], pages[n];
    assert pages == front + [last];
    DetectedCodesSnoc(front, last, detect);
    DetectedCodesSingle(last, detect);
    if x in DetectedCodes(front, detect) {
      DetectedCodesFrom(front, detect, x);
      var i :| 0 <= i < n && DetectedOn(front, detect, x, i);
      assert front[i] == pages[i];
      assert DetectedOn(pages, detect, x, i);
    } else {
      assert DetectedOn(pages, detect, x, n);
    }
  }

  /** A code is detected exactly when some non-blank page gets it. */
  lemma DetectedCodesMembers(pages: seq<string>, detect: string -> Option<string>, x: string)
    ensures x in DetectedCodes(pages, detect) <==> exists i :: 0 <= i < |pages| && DetectedOn(pages, detect, x, i)
  {
    if x in DetectedCodes(pages, detect) {
      DetectedCodesFrom(pages, detect, x);
    }
    if i :| 0 <= i < |pages| && DetectedOn(pages, detect, x, i) {
      DetectedCodesHas(pages, detect, i);
    }
  }

  /** Page `i` is not blank and gets the code `x`. */
  predicate DetectedOn(pages: seq<string>, detect: string -> Option<string>, x: string, i: nat)
    requires i < |pages|
  {
    !Blank(pages[i]) && x == DetectLanguage(pages[i], detect)
  }

  /** `languages`: each code some non-blank page got, once. */
  function Languages(pages: seq<string>, detect: string -> Option<string>): (r: seq<string>)
    ensures forall x :: x in r <==> exists i :: 0 <= i < |pages| && DetectedOn(pages, detect, x, i)
    ensures forall i, j :: 0 <= i < j < |r| ==> r[i] != r[j]
  {
    forall x ensures x in DetectedCodes(pages, detect) <==> exists i :: 0 <= i < |pages| && DetectedOn(pages, detect, x, i)
    {
      DetectedCodesMembers(pages, detect, x);
    }
    Distinct(DetectedCodes(pages, detect))
  }

  const LanguagesPrefix := "Vários idiomas detectados: "

  /** The error appended when more than one language is detected. */
  function LanguageErrors(langs: seq<string>): (r: seq<string>)
    ensures |r| <= 1
    ensures r != [] <==> |langs| > 1
    ensures r != [] ==> r[0] == LanguagesPrefix + Join(langs, ", ")
  {
    if |langs| > 1 then [LanguagesPrefix + Join(langs, ", ")] else []
  }

  /** Some two values of `xs` differ. */
  predicate Mixed(xs: seq<string>) {
    exists a, b :: a in xs && b in xs && a != b
  }

  /** More than one value is listed exactly when two values differ. */
  lemma DistinctMixed(xs: seq<string>)
    ensures |Distinct(xs)| > 1 <==> Mixed(xs)
  {
    var r := Distinct(xs);
    if |r| > 1 {
      assert r[0] in xs && r[1] in xs && r[0] != r[1];
    }
    if Mixed(xs) {
      var a, b :| a in xs && b in xs && a != b;
      assert a in r && b in r;
    }
  }

  /** More than one language is listed exactly when two non-blank pages got different codes. */
  lemma LanguagesMixed(pages: seq<string>, detect: string -> Option<string>)
    ensures |Languages(pages, detect)| > 1 <==> Mixed(DetectedCodes(pages, detect))
  {
    DistinctMixed(DetectedCodes(pages, detect));
  }

  // ------------------------------------------------------------ terms

  /** `SUSPECT_TERMS` */
  const SuspectTerms: set<string> := {
    "rasura", "alterado", "alteração", "em branco", "cópia", "copiar", "recortar",
    "colar", "fotomontagem", "adobe", "photoshop", "gimp", "paint"}

  /** The same terms in Python's string order. */
  const SortedSuspectTerms: seq<string> := [
    "adobe", "alterado", "alteração", "colar", "copiar", "cópia", "em branco",
    "fotomontagem", "gimp", "paint", "photoshop", "rasura", "recortar"]

  predicate StrictlySorted(xs: seq<string>) {
    forall i, j :: 0 <= i < j < |xs| ==> LexLess(xs[i], xs[j])
  }

  lemma {:induction false} AdjacentSorted(xs: seq<string>)
    requires forall i :: 0 <= i < |xs| - 1 ==> LexLess(xs[i], xs[i + 1])
    ensures StrictlySorted(xs)
    decreases |xs|
  {
    if |xs| > 1 {
      AdjacentSorted(xs[1..]);
      forall j | 1 <= j < |xs| ensures LexLess(xs[0], xs[j]) {
        if j > 1 {
          assert LexLess(xs[1..][0], xs[1..][j - 1]);
          LexLessTransitive(xs[0], xs[1], xs[j]);
        }
      }
    }
  }

  /** Adjacent terms 0 to 3 are in order. */
  lemma SuspectTermsOrderedA()
    ensures LexLess(SortedSuspectTerms[0], SortedSuspectTerms[1])
    ensures LexLess(SortedSuspectTerms[1], SortedSuspectTerms[2])
    ensures LexLess(SortedSuspectTerms[2], SortedSuspectTerms[3])
  {
    LexLessCommonPrefix("altera", "do", "ção");
    assert "altera" + "do" == "alterado" && "altera" + "ção" == "alteração";
  }

  /** Adjacent terms 3 to 6 are in order. */
  lemma SuspectTermsOrderedB()
    ensures LexLess(SortedSuspectTerms[3], SortedSuspectTerms[4])
    ensures LexLess(SortedSuspectTerms[4], SortedSuspectTerms[5])
    ensures LexLess(SortedSuspectTerms[5], SortedSuspectTerms[6])
  {
    LexLessCommonPrefix("co", "lar", "piar");
    assert "co" + "lar" == "colar" && "co" + "piar" == "copiar";
  }

  /** Adjacent terms 6 to 9 are in order. */
  lemma SuspectTermsOrderedC()
    ensures LexLess(SortedSuspectTerms[6], SortedSuspectTerms[7])
    ensures LexLess(SortedSuspectTerms[7], SortedSuspectTerms[8])
    ensures LexLess(SortedSuspectTerms[8], SortedSuspectTerms[9])
  {
  }

  /** Adjacent terms 9 to 12 are in order. */
  lemma SuspectTermsOrderedD()
    ensures LexLess(SortedSuspectTerms[9], SortedSuspectTerms[10])
    ensures LexLess(SortedSuspectTerms[10], SortedSuspectTerms[11])
    ensures LexLess(SortedSuspectTerms[11], SortedSuspectTerms[12])
  {
  }

  /** The ordered list is in ascending order. */
  lemma SortedSuspectTermsOrdered()
    ensures StrictlySorted(SortedSuspectTerms)
  {
    SuspectTermsOrderedA();
    SuspectTermsOrderedB();
    SuspectTermsOrderedC();
    SuspectTermsOrderedD();
    AdjacentSorted(SortedSuspectTerms);
  }

  /** The ordered list holds exactly the terms of the set. */
  lemma SortedSuspectTermsSame()
    ensures forall t :: t in SortedSuspectTerms <==> t in SuspectTerms
  {
  }

  /** The terms of `terms` that occur in `text`, in the order of `terms`. */
  function TermsIn(terms: seq<string>, text: string): (r: seq<string>)
    ensures forall t :: t in r <==> t in terms && Contains(text, t)
    ensures StrictlySorted(terms) ==> StrictlySorted(r)
    decreases |terms|
  {
    if terms == [] then []
    else
      var rest := TermsIn(terms[1..], text);
      if Contains(text, terms[0]) then
        assert forall t :: t in rest ==> t in terms[1..];
        assert StrictlySorted(terms) ==> forall t :: t in terms[1..] ==> LexLess(terms[0], t);
        [terms[0]] + rest
      else rest
  }

  /** `sorted({t for t in SUSPECT_TERMS if t in raw_text.lower()})` */
  function SuspiciousTerms(raw: string): (r: seq<string>)
    ensures StrictlySorted(r)
    ensures forall t :: t in r <==> t in SortedSuspectTerms && Contains(Lower(raw), t)
  {
    SortedSuspectTermsOrdered();
    TermsIn(SortedSuspectTerms, Lower(raw))
  }

  /** The reported terms are exactly the members of the term set found in the lower-cased text. */
  lemma SuspiciousTermsExact(raw: string)
    ensures forall t :: t in SuspiciousTerms(raw) <==> t in SuspectTerms && Contains(Lower(raw), t)
  {
    SortedSuspectTermsSame();
  }

  // ------------------------------------------------------------ stylometry

  datatype StylometryStats = StylometryStats(
    avgSentenceLen: real,
    avgWordLen: real,
    lexicalDiversity: real,
    /** Flesch-Kincaid grade level. */
    readabilityFk: real)

  const ZeroStats := StylometryStats(0.0, 0.0, 0.0, 0.0)

  /** The language tools `_calc_stylometry` calls. */
  datatype Nlp = Nlp(
    /** `sent_tokenize`, with its Punkt fallback. */
    sentences: string -> seq<string>,
    /** `word_tokenize(text, language="portuguese")` */
    wordsPt: string -> seq<string>,
    /** `word_tokenize(s)` */
    words: string -> seq<string>,
    /** `stopwords.words("portuguese")` */
    stopWords: set<string>,
    /** Whether a character is a letter, as `str.isalpha` decides. */
    isLetter: char -> bool,
    /** `textstat.flesch_kincaid_grade` */
    fleschKincaid: string -> real)

  /** `w.isalpha()`: non-empty and made of letters. */
  predicate IsAlpha(w: string, nlp: Nlp) {
    |w| > 0 && forall i :: 0 <= i < |w| ==> nlp.isLetter(w[i])
  }

  /** `[w for w in words if w.lower() not in stop_words_pt and w.isalpha()]` */
  function ContentWords(ws: seq<string>, nlp: Nlp): (r: seq<string>)
    ensures |r| <= |ws|
    ensures forall w :: w in r ==> w in ws && IsAlpha(w, nlp) && Lower(w) !in nlp.stopWords
    ensures forall w :: w in ws && IsAlpha(w, nlp) && Lower(w) !in nlp.stopWords ==> w in r
    decreases |ws|
  {
    if ws == [] then []
    else
      var rest := ContentWords(ws[1..], nlp);
      assert forall w :: w in ws ==> w == ws[0] || w in ws[1..];
      if Lower(ws[0]) !in nlp.stopWords && IsAlpha(ws[0], nlp) then [ws[0]] + rest else rest
  }

  /** A single token is kept exactly when it is alphabetic and, lower-cased, not a stop word. */
  lemma ContentWordsSingle(w: string, nlp: Nlp)
    ensures ContentWords([w], nlp) == (if IsAlpha(w, nlp) && Lower(w) !in nlp.stopWords then [w] else [])
  {
    assert [w][1..] == [];
  }

  /** The filter works token by token: the content words of two runs are those of each, in order. */
  lemma {:induction false} ContentWordsAppend(a: seq<string>, b: seq<string>, nlp: Nlp)
    ensures ContentWords(a + b, nlp) == ContentWords(a, nlp) + ContentWords(b, nlp)
    decreases |a|
  {
    if a == [] {
      assert a + b == b;
    } else {
      DropAppend(a, b, 1);
      assert (a + b)[0] == a[0];
      var rest := ContentWords(a[1..], nlp);
      var head := if Lower(a[0]) !in nlp.stopWords && IsAlpha(a[0], nlp) then [a[0]] else [];
      calc {
        ContentWords(a + b, nlp);
        head + ContentWords(a[1..] + b, nlp);
        { ContentWordsAppend(a[1..], b, nlp); }
        head + (rest + ContentWords(b, nlp));
        (head + rest) + ContentWords(b, nlp);
        ContentWords(a, nlp) + ContentWords(b, nlp);
      }
    }
  }

  function TotalLength(ws: seq<string>): nat
    decreases |ws|
  {
    if ws == [] then 0 else |ws[0]| + TotalLength(ws[1..])
  }

  lemma {:induction false} TotalLengthAtLeastCount(ws: seq<string>)
    requires forall w :: w in ws ==> |w| >= 1
    ensures TotalLength(ws) >= |ws|
    decreases |ws|
  {
    if ws != [] {
      TotalLengthAtLeastCount(ws[1..]);
    }
  }

  /** The distinct words of a non-empty list number between one and its length. */
  lemma {:induction false} DistinctWordsBounds(ws: seq<string>)
    ensures |set w | w in ws| <= |ws|
    ensures ws != [] ==> |set w | w in ws| >= 1
    decreases |ws|
  {
    if ws != [] {
      DistinctWordsBounds(ws[1..]);
      var all, rest := set w | w in ws, set w | w in ws[1..];
      assert all == rest + {ws[0]};
      assert ws[0] in all;
    }
  }

  /** The total token count of the sentences. */
  function SentenceTokenTotal(sents: seq<string>, nlp: Nlp): nat
    decreases |sents|
  {
    if sents == [] then 0 else |nlp.words(sents[0])| + SentenceTokenTotal(sents[1..], nlp)
  }

  lemma RatioAtMostOne(a: real, b: real)
    requires 1.0 <= a <= b
    ensures 0.0 < a / b <= 1.0
  {
    assert a / b * b == a;
  }

  lemma RatioAtLeastOne(a: real, b: real)
    requires 0.0 < b <= a
    ensures a / b >= 1.0
  {
    assert a / b * b == a;
  }

  lemma RatioNonNegative(a: real, b: real)
    requires 0.0 <= a && 0.0 < b
    ensures a / b >= 0.0
  {
    assert a / b * b == a;
  }

  /** The sentences `_calc_stylometry` averages over: the whole text when the tokenizer finds none. */
  function Sentences(text: string, nlp: Nlp): (r: seq<string>)
    ensures r != []
    ensures nlp.sentences(text) != [] ==> r == nlp.sentences(text)
  {
    var found := nlp.sentences(text);
    if found == [] then [text] else found
  }

  /** No word occurs twice. */
  predicate NoRepeats(ws: seq<string>) {
    forall i, j :: 0 <= i < j < |ws| ==> ws[i] != ws[j]
  }

  /** A list has as many distinct words as elements exactly when no word repeats. */
  lemma {:induction false} DistinctCountIff(ws: seq<string>)
    ensures |set w | w in ws| == |ws| <==> NoRepeats(ws)
    decreases |ws|
  {
    if ws != [] {
      var rest := ws[1..];
      DistinctCountIff(rest);
      DistinctWordsBounds(rest);
      var all, tail := set w | w in ws, set w | w in rest;
      assert all == tail + {ws[0]};
      if ws[0] in rest {
        var j :| 0 <= j < |rest| && rest[j] == ws[0];
        assert ws[0] == ws[j + 1];
        assert all == tail;
      } else {
        assert |all| == |tail| + 1;
        if NoRepeats(rest) {
          forall i, j | 0 <= i < j < |ws| ensures ws[i] != ws[j] {
            if i == 0 { assert ws[j] == rest[j - 1]; } else { assert ws[i] == rest[i - 1] && ws[j] == rest[j - 1]; }
          }
        }
        if NoRepeats(ws) {
          forall i, j | 0 <= i < j < |rest| ensures rest[i] != rest[j] {
            assert rest[i] == ws[i + 1] && rest[j] == ws[j + 1];
          }
        }
      }
    }
  }

  lemma RatioOneIff(a: real, b: real)
    requires 0.0 < b
    ensures a / b == 1.0 <==> a == b
  {
    assert a / b * b == a;
  }

  /** `_calc_stylometry`: zeros when no content word remains, otherwise the four averages. */
  function Stylometry(text: string, nlp: Nlp): (r: StylometryStats)
    ensures ContentWords(nlp.wordsPt(text), nlp) == [] <==> r == ZeroStats
    ensures r != ZeroStats ==> r.avgWordLen >= 1.0
    ensures r != ZeroStats ==> 0.0 < r.lexicalDiversity <= 1.0
    ensures r.avgSentenceLen >= 0.0
    ensures r != ZeroStats ==> r.readabilityFk == (if text != "" then nlp.fleschKincaid(text) else 0.0)
  {
    var sents := Sentences(text, nlp);
    var content := ContentWords(nlp.wordsPt(text), nlp);
    if content == [] then ZeroStats
    else
      assert content[0] in content;
      var n := |content| as real;
      TotalLengthAtLeastCount(content);
      DistinctWordsBounds(content);
      var distinct := |set w | w in content| as real;
      var avgWord := TotalLength(content) as real / n;
      RatioAtLeastOne(TotalLength(content) as real, n);
      var diversity := distinct / n;
      RatioAtMostOne(distinct, n);
      var avgSentence := SentenceTokenTotal(sents, nlp) as real / |sents| as real;
      RatioNonNegative(SentenceTokenTotal(sents, nlp) as real, |sents| as real);
      StylometryStats(
        avgSentence,
        avgWord,
        diversity,
        if text != "" then nlp.fleschKincaid(text) else 0.0)
  }

  /**
   * The averages `_calc_stylometry` reports: the mean token count per sentence,
   * the mean length of a content word, and a lexical diversity of exactly one
   * when no content word repeats.
   */
  lemma StylometryValues(text: string, nlp: Nlp)
    ensures var r := Stylometry(text, nlp);
      var c := ContentWords(nlp.wordsPt(text), nlp);
      var sents := Sentences(text, nlp);
      r != ZeroStats ==>
        && r.avgSentenceLen == SentenceTokenTotal(sents, nlp) as real / |sents| as real
        && r.avgWordLen == TotalLength(c) as real / |c| as real
        && (r.lexicalDiversity == 1.0 <==> NoRepeats(c))
  {
    var c := ContentWords(nlp.wordsPt(text), nlp);
    if c != [] {
      DistinctCountIff(c);
      RatioOneIff(|set w | w in c| as real, |c| as real);
    }
  }

  // ------------------------------------------------------------ page styles

  /** `MIN_PAGE_CHARS` */
  const MinPageChars := 300

  /** The cleaned text of every page. */
  function CleanPages(pages: seq<string>): (r: seq<string>)
    ensures |r| == |pages| && forall i :: 0 <= i < |r| ==> r[i] == CleanText(pages[i])
  {
    seq(|pages|, i requires 0 <= i < |pages| => CleanText(pages[i]))
  }

  /** The stylometry of one qualifying page, numbered from 1. */
  datatype PageStyle = PageStyle(page: nat, stats: StylometryStats)

  function PageNumbers(entries: seq<PageStyle>): (r: seq<nat>)
    ensures |r| == |entries| && forall k :: 0 <= k < |r| ==> r[k] == entries[k].page
  {
    seq(|entries|, k requires 0 <= k < |entries| => entries[k].page)
  }

  predicate Ascending(xs: seq<nat>) {
    forall k, l :: 0 <= k < l < |xs| ==> xs[k] < xs[l]
  }

  /**
   * The entries the first loop of `analyze_text` collects from the cleaned
   * pages: one per page of at least 300 characters, numbered from 1.
   */
  function StyledPages(cleaned: seq<string>, nlp: Nlp): seq<PageStyle>
    decreases |cleaned|
  {
    if cleaned == [] then []
    else
      var n := |cleaned|;
      var prev := StyledPages(cleaned[..n - 1], nlp);
      if |cleaned[n - 1]| >= MinPageChars then prev + [PageStyle(n, Stylometry(cleaned[n - 1], nlp))]
      else prev
  }

  /** Each entry is a long enough page, numbered from 1, with that page's statistics. */
  lemma {:induction false} StyledPagesEntries(cleaned: seq<string>, nlp: Nlp)
    ensures forall k :: 0 <= k < |StyledPages(cleaned, nlp)| ==>
      var e := StyledPages(cleaned, nlp)[k];
      1 <= e.page <= |cleaned| && |cleaned[e.page - 1]| >= MinPageChars &&
      e.stats == Stylometry(cleaned[e.page - 1], nlp)
    decreases |cleaned|
  {
    if cleaned != [] {
      var n := |cleaned|;
      var front := cleaned[..n - 1];
      StyledPagesEntries(front, nlp);
      var prev, r := StyledPages(front, nlp), StyledPages(cleaned, nlp);
      forall k | 0 <= k < |r|
        ensures 1 <= r[k].page <= n && |cleaned[r[k].page - 1]| >= MinPageChars &&
                r[k].stats == Stylometry(cleaned[r[k].page - 1], nlp)
      {
        if k < |prev| {
          assert r[k] == prev[k];
          assert front[prev[k].page - 1] == cleaned[prev[k].page - 1];
        }
      }
    }
  }

  /** The entries are numbered in ascending order, and a page has one exactly when it is long enough. */
  lemma {:induction false} StyledPagesNumbers(cleaned: seq<string>, nlp: Nlp)
    ensures forall i :: 1 <= i <= |cleaned| ==>
      (i in PageNumbers(StyledPages(cleaned, nlp)) <==> |cleaned[i - 1]| >= MinPageChars)
    ensures forall p :: p in PageNumbers(StyledPages(cleaned, nlp)) ==> 1 <= p <= |cleaned|
    ensures Ascending(PageNumbers(StyledPages(cleaned, nlp)))
    decreases |cleaned|
  {
    if cleaned != [] {
      var n := |cleaned|;
      var front := cleaned[..n - 1];
      StyledPagesNumbers(front, nlp);
      var prev := PageNumbers(StyledPages(front, nlp));
      var nums := PageNumbers(StyledPages(cleaned, nlp));
      assert forall i :: 0 <= i < n - 1 ==> front[i] == cleaned[i];
      if |cleaned[n - 1]| >= MinPageChars {
        assert nums == prev + [n];
        forall k | 0 <= k < |prev| ensures prev[k] < n {
          assert prev[k] in prev;
        }
        assert forall i :: 1 <= i < n ==> (i in nums <==> i in prev);
      } else {
        assert nums == prev;
      }
    }
  }

  /** One more cleaned page: an entry is appended exactly when the page is long enough. */
  lemma StyledPagesStep(cleaned: seq<string>, i: nat, nlp: Nlp)
    requires i < |cleaned|
    ensures StyledPages(cleaned[..i + 1], nlp) ==
      if |cleaned[i]| >= MinPageChars then StyledPages(cleaned[..i], nlp) + [PageStyle(i + 1, Stylometry(cleaned[i], nlp))]
      else StyledPages(cleaned[..i], nlp)
  {
    assert cleaned[..i + 1][..i] == cleaned[..i];
  }

  /** `stylometry_by_page`: page number to its statistics. */
  function StyleMap(entries: seq<PageStyle>): (m: map<nat, StylometryStats>)
    ensures forall p :: p in m <==> p in PageNumbers(entries)
    ensures Ascending(PageNumbers(entries)) ==> forall k :: 0 <= k < |entries| ==> m[entries[k].page] == entries[k].stats
    decreases |entries|
  {
    if entries == [] then map[]
    else
      var n := |entries| - 1;
      var prev := StyleMap(entries[..n]);
      assert PageNumbers(entries) == PageNumbers(entries[..n]) + [entries[n].page];
      prev[entries[n].page := entries[n].stats]
  }

  /** One more entry updates the map at its page. */
  lemma StyleMapSnoc(entries: seq<PageStyle>, e: PageStyle)
    ensures StyleMap(entries + [e]) == StyleMap(entries)[e.page := e.stats]
  {
    assert (entries + [e])[..|entries|] == entries;
  }

  // ------------------------------------------------------------ outliers

  /** `STYLE_STD_Z` */
  const StyleZ: real := 1.2

  function Sum(vs: seq<real>): real
    decreases |vs|
  {
    if vs == [] then 0.0 else vs[0] + Sum(vs[1..])
  }

  /** `statistics.mean` */
  function Mean(vs: seq<real>): real
    requires |vs| > 0
  {
    Sum(vs) / |vs| as real
  }

  function SquaredDeviations(vs: seq<real>, mu: real): (r: real)
    ensures r >= 0.0
    decreases |vs|
  {
    if vs == [] then 0.0
    else
      SquareNonNegative(vs[0] - mu);
      (vs[0] - mu) * (vs[0] - mu) + SquaredDeviations(vs[1..], mu)
  }

  lemma SquareNonNegative(x: real)
    ensures x * x >= 0.0
  {
    if x < 0.0 {
      assert x * x == (-x) * (-x);
    }
  }

  /** The square of `stdev(vals) if len(vals) > 1 else 0`. */
  function SampleVariance(vs: seq<real>): (r: real)
    requires |vs| > 0
    ensures r >= 0.0
    ensures |vs| < 2 ==> r == 0.0
  {
    if |vs| < 2 then 0.0
    else
      RatioNonNegative(SquaredDeviations(vs, Mean(vs)), (|vs| - 1) as real);
      SquaredDeviations(vs, Mean(vs)) / (|vs| - 1) as real
  }

  function Abs(x: real): real {
    if x < 0.0 then -x else x
  }

  /**
   * `sigma and abs(v - mu) / sigma > STYLE_STD_Z`, stated on the variance
   * so that no square root is needed.
   */
  predicate Flagged(v: real, mu: real, variance: real) {
    variance != 0.0 && (v - mu) * (v - mu) > StyleZ * StyleZ * variance
  }

  lemma MulPositive(x: real, y: real)
    requires x > 0.0 && y > 0.0
    ensures x * y > 0.0
  {
  }

  lemma MulNonNegative(x: real, y: real)
    requires x >= 0.0 && y >= 0.0
    ensures x * y >= 0.0
  {
  }

  lemma SquareMonotone(a: real, b: real)
    requires 0.0 <= a && 0.0 <= b
    ensures a > b <==> a * a > b * b
  {
    if a > b {
      MulPositive(a, a - b);
      MulNonNegative(b, a - b);
      assert a * (a - b) == a * a - a * b;
      assert b * (a - b) == a * b - b * b;
    } else {
      MulNonNegative(a, b - a);
      MulNonNegative(b, b - a);
      assert a * (b - a) == a * b - a * a;
      assert b * (b - a) == b * b - a * b;
    }
  }

  /** With a positive standard deviation, the squared test is the z-score test. */
  lemma ZScoreTest(v: real, mu: real, sigma: real)
    requires sigma > 0.0
    ensures Abs(v - mu) / sigma > StyleZ <==> Flagged(v, mu, sigma * sigma)
  {
    var d := Abs(v - mu);
    assert d * d == (v - mu) * (v - mu);
    assert d / sigma > StyleZ <==> d > StyleZ * sigma by {
      assert d / sigma * sigma == d;
    }
    SquareMonotone(d, StyleZ * sigma);
    assert (StyleZ * sigma) * (StyleZ * sigma) == StyleZ * StyleZ * (sigma * sigma);
    assert sigma * sigma > 0.0;
  }

  function Readabilities(entries: seq<PageStyle>): (r: seq<real>)
    ensures |r| == |entries| && forall k :: 0 <= k < |r| ==> r[k] == entries[k].stats.readabilityFk
  {
    seq(|entries|, k requires 0 <= k < |entries| => entries[k].stats.readabilityFk)
  }

  /** The pages, in entry order, whose readability the test flags. */
  function FlaggedPages(entries: seq<PageStyle>, mu: real, variance: real): (r: seq<nat>)
    ensures forall p :: p in r ==> p in PageNumbers(entries)
    ensures forall k :: 0 <= k < |entries| && Flagged(entries[k].stats.readabilityFk, mu, variance) ==>
      entries[k].page in r
    ensures variance == 0.0 ==> r == []
    decreases |entries|
  {
    if entries == [] then []
    else
      var n := |entries| - 1;
      var prev := FlaggedPages(entries[..n], mu, variance);
      assert PageNumbers(entries) == PageNumbers(entries[..n]) + [entries[n].page];
      assert forall k :: 0 <= k < n ==> entries[..n][k] == entries[k];
      if Flagged(entries[n].stats.readabilityFk, mu, variance) then prev + [entries[n].page] else prev
  }

  /** One more entry: its page is added after the others exactly when it is flagged. */
  lemma FlaggedPagesSnoc(entries: seq<PageStyle>, mu: real, variance: real)
    requires entries != []
    ensures var n := |entries| - 1;
      FlaggedPages(entries, mu, variance) ==
        if Flagged(entries[n].stats.readabilityFk, mu, variance)
        then FlaggedPages(entries[..n], mu, variance) + [entries[n].page]
        else FlaggedPages(entries[..n], mu, variance)
  {
  }

  /** Entries in page order: every page before the last is smaller than the last. */
  lemma AscendingFront(entries: seq<PageStyle>)
    requires entries != [] && Ascending(PageNumbers(entries))
    ensures var n := |entries| - 1;
      && Ascending(PageNumbers(entries[..n]))
      && forall p :: p in PageNumbers(entries[..n]) ==> p < entries[n].page
  {
    var n := |entries| - 1;
    var front := entries[..n];
    assert forall k :: 0 <= k < n ==> PageNumbers(front)[k] == PageNumbers(entries)[k];
    forall p | p in PageNumbers(front) ensures p < entries[n].page {
      var k :| 0 <= k < n && PageNumbers(front)[k] == p;
      assert PageNumbers(entries)[k] == p && PageNumbers(entries)[n] == entries[n].page;
    }
  }

  /** Over entries in page order, the flagged pages are ascending. */
  lemma {:induction false} FlaggedPagesAscending(entries: seq<PageStyle>, mu: real, variance: real)
    requires Ascending(PageNumbers(entries))
    ensures Ascending(FlaggedPages(entries, mu, variance))
    decreases |entries|
  {
    if entries != [] {
      var n := |entries| - 1;
      var front := entries[..n];
      var prev := FlaggedPages(front, mu, variance);
      AscendingFront(entries);
      FlaggedPagesAscending(front, mu, variance);
      FlaggedPagesSnoc(entries, mu, variance);
      if Flagged(entries[n].stats.readabilityFk, mu, variance) {
        var r := prev + [entries[n].page];
        forall k, l | 0 <= k < l < |r| ensures r[k] < r[l] {
          assert r[k] == prev[k] && prev[k] in prev;
        }
      }
    }
  }

  /** Over entries in page order, a flagged page belongs to a flagged entry. */
  lemma {:induction false} FlaggedPagesOnlyFlagged(entries: seq<PageStyle>, mu: real, variance: real)
    requires Ascending(PageNumbers(entries))
    ensures forall k :: 0 <= k < |entries| && entries[k].page in FlaggedPages(entries, mu, variance) ==>
      Flagged(entries[k].stats.readabilityFk, mu, variance)
    decreases |entries|
  {
    if entries != [] {
      var n := |entries| - 1;
      var front := entries[..n];
      var prev := FlaggedPages(front, mu, variance);
      var last := entries[n].page;
      AscendingFront(entries);
      FlaggedPagesOnlyFlagged(front, mu, variance);
      FlaggedPagesSnoc(entries, mu, variance);
      var r := FlaggedPages(entries, mu, variance);
      assert last in r ==> Flagged(entries[n].stats.readabilityFk, mu, variance);
      forall k | 0 <= k < n && entries[k].page in r
        ensures Flagged(entries[k].stats.readabilityFk, mu, variance)
      {
        assert front[k] == entries[k];
        assert PageNumbers(front)[k] == entries[k].page;
        assert entries[k].page in prev;
      }
    }
  }

  /** Over entries in page order, the flagged pages are ascending and hold only flagged entries. */
  lemma FlaggedPagesOrdered(entries: seq<PageStyle>, mu: real, variance: real)
    ensures Ascending(PageNumbers(entries)) ==>
      Ascending(FlaggedPages(entries, mu, variance)) &&
      forall k :: 0 <= k < |entries| && entries[k].page in FlaggedPages(entries, mu, variance) ==>
        Flagged(entries[k].stats.readabilityFk, mu, variance)
  {
    if Ascending(PageNumbers(entries)) {
      FlaggedPagesAscending(entries, mu, variance);
      FlaggedPagesOnlyFlagged(entries, mu, variance);
    }
  }

  /** `style_inconsistent_pages` */
  function StyleOutliers(entries: seq<PageStyle>): (r: seq<nat>)
    ensures |entries| < 2 ==> r == []
    ensures forall p :: p in r ==> p in PageNumbers(entries)
    ensures Ascending(PageNumbers(entries)) ==> Ascending(r)
    ensures Ascending(PageNumbers(entries)) ==> forall k :: 0 <= k < |entries| ==>
      (entries[k].page in r <==>
       Flagged(entries[k].stats.readabilityFk, Mean(Readabilities(entries)), SampleVariance(Readabilities(entries))))
  {
    if entries == [] then []
    else
      var vals := Readabilities(entries);
      FlaggedPagesOrdered(entries, Mean(vals), SampleVariance(vals));
      FlaggedPages(entries, Mean(vals), SampleVariance(vals))
  }

  /** Readabilities 10, 10, 10 and 50 on pages 1 to 4 flag only page 4 (z = 1.5 against 0.5). */
  lemma StyleOutliersExample(s: StylometryStats)
    ensures StyleOutliers([PageStyle(1, s.(readabilityFk := 10.0)), PageStyle(2, s.(readabilityFk := 10.0)),
                           PageStyle(3, s.(readabilityFk := 10.0)), PageStyle(4, s.(readabilityFk := 50.0))]) == [4]
  {
    var entries := [PageStyle(1, s.(readabilityFk := 10.0)), PageStyle(2, s.(readabilityFk := 10.0)),
                    PageStyle(3, s.(readabilityFk := 10.0)), PageStyle(4, s.(readabilityFk := 50.0))];
    var vals := Readabilities(entries);
    assert vals == [10.0, 10.0, 10.0, 50.0];
    assert vals[1..][1..][1..] == [50.0] && [50.0][1..] == [];
    assert Sum(vals[1..][1..][1..]) == 50.0;
    assert Sum(vals[1..][1..]) == 60.0;
    assert Sum(vals[1..]) == 70.0;
    assert Sum(vals) == 80.0;
    assert Mean(vals) == 20.0;
    assert SquaredDeviations(vals[1..][1..][1..], 20.0) == 900.0;
    assert SquaredDeviations(vals[1..][1..], 20.0) == 1000.0;
    assert SquaredDeviations(vals[1..], 20.0) == 1100.0;
    assert SquaredDeviations(vals, 20.0) == 1200.0;
    assert SampleVariance(vals) == 400.0;
    assert FlaggedPages(entries[..1], 20.0, 400.0) == [] by {
      assert entries[..1][..0] == [];
    }
    assert entries[..2][..1] == entries[..1] && entries[..3][..2] == entries[..2] && entries[..3] == entries[..4][..3];
    assert FlaggedPages(entries[..2], 20.0, 400.0) == [];
    assert FlaggedPages(entries[..3], 20.0, 400.0) == [];
    assert entries[..4] == entries;
    assert !Flagged(10.0, 20.0, 400.0) && Flagged(50.0, 20.0, 400.0);
  }

  // ------------------------------------------------------------ report

  datatype TextReport = TextReport(
    path: string,
    fileType: string,
    languages: seq<string>,
    suspiciousTerms: seq<string>,
    styleInconsistentPages: seq<nat>,
    stylometryByPage: map<nat, StylometryStats>,
    errors: seq<string>)

  /** `s.lstrip(".")` */
  function TrimDots(s: string): (r: string)
    ensures r == [] || r[0] != '.'
    ensures |r| <= |s| && r == s[|s| - |r|..]
    ensures forall i :: 0 <= i < |s| - |r| ==> s[i] == '.'
    decreases |s|
  {
    if s != [] && s[0] == '.' then TrimDots(s[1..]) else s
  }

  /** `Path(path).suffix.upper().lstrip(".")` */
  function FileTypeLabel(suffix: string): string {
    TrimDots(Upper(suffix))
  }

  const ExtractionFailure := "Falha na extração de texto: "

  /** The libraries `analyze_text` calls. */
  datatype TextEnv = TextEnv(source: TextSource, detect: string -> Option<string>, nlp: Nlp)

  /** The report `analyze_text` returns: at most one error, and none only after a successful extraction. */
  function TextReportOf(file: FileRef, ocr: map<int, string>, env: TextEnv): (r: TextReport)
    ensures r.path == file.path && r.fileType == FileTypeLabel(file.suffix)
    ensures |r.errors| <= 1
    ensures ExtractText(file, ocr, env.source).Err? ==> r.errors != []
  {
    var empty := TextReport(file.path, FileTypeLabel(file.suffix), [], [], [], map[], []);
    match ExtractText(file, ocr, env.source)
    case Err(e) => empty.(errors := [ExtractionFailure + e.Message()])
    case Ok(raw) =>
      var pages := SplitPages(raw);
      var langs := Languages(pages, env.detect);
      var styled := StyledPages(CleanPages(pages), env.nlp);
      empty.(languages := langs,
             errors := LanguageErrors(langs),
             suspiciousTerms := SuspiciousTerms(raw),
             stylometryByPage := StyleMap(styled),
             styleInconsistentPages := StyleOutliers(styled))
  }

  /** A failed extraction gives a report whose only content is one error. */
  lemma TextReportOnFailure(file: FileRef, ocr: map<int, string>, env: TextEnv)
    requires ExtractText(file, ocr, env.source).Err?
    ensures var r := TextReportOf(file, ocr, env);
      r.errors == [ExtractionFailure + ExtractText(file, ocr, env.source).error.Message()] &&
      r.languages == [] && r.suspiciousTerms == [] && r.styleInconsistentPages == [] &&
      r.stylometryByPage == map[]
  {
  }

  /** The report of an extracted text, field by field. */
  lemma TextReportFields(file: FileRef, ocr: map<int, string>, env: TextEnv)
    requires ExtractText(file, ocr, env.source).Ok?
    ensures var raw := ExtractText(file, ocr, env.source).value;
      var styled := StyledPages(CleanPages(SplitPages(raw)), env.nlp);
      TextReportOf(file, ocr, env) ==
        TextReport(file.path, FileTypeLabel(file.suffix), Languages(SplitPages(raw), env.detect),
                   SuspiciousTerms(raw), StyleOutliers(styled), StyleMap(styled),
                   LanguageErrors(Languages(SplitPages(raw), env.detect)))
  {
  }

  /** A successful extraction: the language warning and the suspicious terms. */
  lemma TextReportLanguagesAndTerms(file: FileRef, ocr: map<int, string>, env: TextEnv)
    requires ExtractText(file, ocr, env.source).Ok?
    ensures var raw := ExtractText(file, ocr, env.source).value;
      var r := TextReportOf(file, ocr, env);
      && r.languages == Languages(SplitPages(raw), env.detect)
      && |r.errors| <= 1
      && (r.errors != [] <==> Mixed(DetectedCodes(SplitPages(raw), env.detect)))
      && StrictlySorted(r.suspiciousTerms)
      && (forall t :: t in r.suspiciousTerms <==> t in SuspectTerms && Contains(Lower(raw), t))
  {
    var raw := ExtractText(file, ocr, env.source).value;
    TextReportFields(file, ocr, env);
    LanguagesMixed(SplitPages(raw), env.detect);
    SuspiciousTermsExact(raw);
  }

  /** The same facts stated over the cleaned pages themselves. */
  lemma StyleFacts(cleaned: seq<string>, nlp: Nlp)
    ensures var styled := StyledPages(cleaned, nlp);
      var m := StyleMap(styled);
      var outliers := StyleOutliers(styled);
      && (forall i :: 1 <= i <= |cleaned| ==> (i in m <==> |cleaned[i - 1]| >= MinPageChars))
      && (forall p :: p in m ==> 1 <= p <= |cleaned|)
      && (forall p :: p in outliers ==> p in m)
      && Ascending(outliers)
  {
    StyledPagesNumbers(cleaned, nlp);
  }

  /** Page `i` of the text has statistics exactly when its cleaned form is long enough. */
  lemma PageHasStatistics(pages: seq<string>, nlp: Nlp, i: nat)
    requires 1 <= i <= |pages|
    ensures i in StyleMap(StyledPages(CleanPages(pages), nlp)) <==> |CleanText(pages[i - 1])| >= MinPageChars
  {
    var cleaned := CleanPages(pages);
    StyleFacts(cleaned, nlp);
    assert cleaned[i - 1] == CleanText(pages[i - 1]);
  }

  /** Statistics exactly for the long pages; outliers among them, in page order. */
  lemma PageStatistics(pages: seq<string>, nlp: Nlp)
    ensures var styled := StyledPages(CleanPages(pages), nlp);
      var m := StyleMap(styled);
      var outliers := StyleOutliers(styled);
      && (forall i :: 1 <= i <= |pages| ==> (i in m <==> |CleanText(pages[i - 1])| >= MinPageChars))
      && (forall p :: p in m ==> 1 <= p <= |pages|)
      && (forall p :: p in outliers ==> p in m)
      && Ascending(outliers)
  {
    forall i | 1 <= i <= |pages|
      ensures i in StyleMap(StyledPages(CleanPages(pages), nlp)) <==> |CleanText(pages[i - 1])| >= MinPageChars
    {
      PageHasStatistics(pages, nlp, i);
    }
    StyleFacts(CleanPages(pages), nlp);
  }

  /** A successful extraction: statistics exactly for the long pages, outliers among them in page order. */
  lemma TextReportPages(file: FileRef, ocr: map<int, string>, env: TextEnv)
    requires ExtractText(file, ocr, env.source).Ok?
    ensures var pages := SplitPages(ExtractText(file, ocr, env.source).value);
      var r := TextReportOf(file, ocr, env);
      && (forall i :: 1 <= i <= |pages| ==> (i in r.stylometryByPage <==> |CleanText(pages[i - 1])| >= MinPageChars))
      && (forall p :: p in r.stylometryByPage ==> 1 <= p <= |pages|)
      && (forall p :: p in r.styleInconsistentPages ==> p in r.stylometryByPage)
      && Ascending(r.styleInconsistentPages)
  {
    var pages := SplitPages(ExtractText(file, ocr, env.source).value);
    var styled := StyledPages(CleanPages(pages), env.nlp);
    TextReportFields(file, ocr, env);
    var r := TextReportOf(file, ocr, env);
    assert r.stylometryByPage == StyleMap(styled) && r.styleInconsistentPages == StyleOutliers(styled);
    PageStatistics(pages, env.nlp);
  }

  /** The stylometry loop of `analyze_text`: clean each page, skip short ones, record the rest. */
  method CollectStyles(pages: seq<string>, nlp: Nlp) returns (styled: seq<PageStyle>, byPage: map<nat, StylometryStats>)
    ensures styled == StyledPages(CleanPages(pages), nlp)
    ensures byPage == StyleMap(styled)
  {
    styled, byPage := [], map[];
    ghost var cleanedPages := CleanPages(pages);
    var i := 0;
    while i < |pages|
      invariant 0 <= i <= |pages|
      invariant styled == StyledPages(cleanedPages[..i], nlp)
      invariant byPage == StyleMap(styled)
    {
      var cleaned := CleanText(pages[i]);
      assert cleaned == cleanedPages[i];
      StyledPagesStep(cleanedPages, i, nlp);
      i := i + 1;
      if |cleaned| < MinPageChars {
        continue;
      }
      var stats := Stylometry(cleaned, nlp);
      StyleMapSnoc(styled, PageStyle(i, stats));
      byPage := byPage[i := stats];
      styled := styled + [PageStyle(i, stats)];
    }
    assert cleanedPages[..|pages|] == cleanedPages;
  }

  /** The outlier loop of `analyze_text`: keep the pages whose readability the z-score test flags. */
  method SelectOutliers(styled: seq<PageStyle>) returns (flagged: seq<nat>)
    ensures flagged == StyleOutliers(styled)
  {
    flagged := [];
    if styled != [] {
      var vals := Readabilities(styled);
      var mu := Mean(vals);
      var variance := SampleVariance(vals);
      var j := 0;
      while j < |styled|
        invariant 0 <= j <= |styled|
        invariant flagged == FlaggedPages(styled[..j], mu, variance)
      {
        assert styled[..j + 1][..j] == styled[..j];
        if Flagged(styled[j].stats.readabilityFk, mu, variance) {
          flagged := flagged + [styled[j].page];
        }
        j := j + 1;
      }
      assert styled[..|styled|] == styled;
    }
  }

  /** `analyze_text`: each field of the report computed in turn. */
  method AnalyzeText(file: FileRef, ocr: map<int, string>, env: TextEnv) returns (report: TextReport)
    ensures report == TextReportOf(file, ocr, env)
  {
    var fileType := FileTypeLabel(file.suffix);
    var extracted := ExtractText(file, ocr, env.source);
    if extracted.Err? {
      report := TextReport(file.path, fileType, [], [], [], map[], [ExtractionFailure + extracted.error.Message()]);
      return;
    }
    var raw := extracted.value;
    var pages := SplitPages(raw);

    var langs := Languages(pages, env.detect);
    var errors: seq<string> := [];
    if |langs| > 1 {
      errors := errors + [LanguagesPrefix + Join(langs, ", ")];
    }
    var terms := SuspiciousTerms(raw);

    var styled, byPage := CollectStyles(pages, env.nlp);
    var flagged := SelectOutliers(styled);
    report := TextReport(file.path, fileType, langs, terms, flagged, byPage, errors);
    TextReportFields(file, ocr, env);
  }
}
