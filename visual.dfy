/**
 * The visual layer (analise_visual.py): copy-move detection over the
 * matches of a page's keypoints against themselves, the PRNU reference
 * window rule, the OCR word ratio and the per-page accumulation of
 * `analyze`. Keypoints, matches, noise residuals, correlations and OCR
 * text are given as input.
 */
module Visual {
  import opened Common
  import opened Strings

  /** `MATCH_DIST_THRESHOLD` */
  const MatchDistThreshold: real := 30.0
  /** `MIN_CLUSTER` */
  const MinCluster: nat := 10
  /** `PRNU_CORR_THRESHOLD` */
  const PrnuCorrThreshold: real := 0.7

  // ------------------------------------------------------------ copy-move

  /** A keypoint position `kp[i].pt`. */
  datatype Point = Point(x: real, y: real)

  /** One match of `bf.match(des, des)`, with the positions of both keypoints looked up. */
  datatype Match = Match(distance: real, queryIdx: nat, trainIdx: nat, queryPt: Point, trainPt: Point)

  /** What ORB finds on a page: the keypoint count, whether descriptors exist, and the self-matches. */
  datatype Features = Features(keypointCount: nat, hasDescriptors: bool, matches: seq<Match>)

  /** `[x1, y1, x2, y2]` */
  datatype Box = Box(x1: int, y1: int, x2: int, y2: int)

  /** A box prefixed with its 0-based page index. */
  datatype TaggedBox = TaggedBox(page: nat, box: Box)

  /** Python's `int(x)` on a float: truncation toward zero. */
  function Trunc(x: real): (r: int)
    ensures x >= 0.0 ==> r as real <= x < r as real + 1.0
    ensures x < 0.0 ==> r as real - 1.0 < x <= r as real
  {
    if x >= 0.0 then x.Floor else -((-x).Floor)
  }

  /** The filter of `_detect_copy_move`: close enough, and not a keypoint matched with itself. */
  predicate Survives(m: Match) {
    m.distance < MatchDistThreshold && m.queryIdx != m.trainIdx
  }

  /** The matches that survive the filter, in their original order. */
  function Survivors(ms: seq<Match>): (r: seq<Match>)
    ensures |r| <= |ms|
    ensures forall m :: m in r <==> m in ms && Survives(m)
    decreases |ms|
  {
    if ms == [] then []
    else
      var n := |ms| - 1;
      var prev := Survivors(ms[..n]);
      assert ms == ms[..n] + [ms[n]];
      if Survives(ms[n]) then prev + [ms[n]] else prev
  }

  /** Filtering distributes over concatenation, so order is kept. */
  lemma {:induction false} SurvivorsAppend(a: seq<Match>, b: seq<Match>)
    ensures Survivors(a + b) == Survivors(a) + Survivors(b)
    decreases |b|
  {
    if b == [] {
      assert a + b == a;
    } else {
      var n := |b| - 1;
      assert (a + b)[..|a + b| - 1] == a + b[..n];
      assert (a + b)[|a + b| - 1] == b[n];
      SurvivorsAppend(a, b[..n]);
    }
  }

  /** Filtering twice is filtering once. */
  lemma {:induction false} SurvivorsIdempotent(ms: seq<Match>)
    ensures Survivors(Survivors(ms)) == Survivors(ms)
    decreases |ms|
  {
    if ms != [] {
      var n := |ms| - 1;
      SurvivorsIdempotent(ms[..n]);
      if Survives(ms[n]) {
        SurvivorsAppend(Survivors(ms[..n]), [ms[n]]);
        assert Survivors([ms[n]]) == [ms[n]] by {
          assert [ms[n]][..0] == [];
        }
      }
    }
  }

  /** The box of one match: the truncated query and train positions. */
  function BoxOf(m: Match): Box {
    Box(Trunc(m.queryPt.x), Trunc(m.queryPt.y), Trunc(m.trainPt.x), Trunc(m.trainPt.y))
  }

  function BoxesOf(ms: seq<Match>): (r: seq<Box>)
    ensures |r| == |ms| && forall i :: 0 <= i < |ms| ==> r[i] == BoxOf(ms[i])
  {
    seq(|ms|, i requires 0 <= i < |ms| => BoxOf(ms[i]))
  }

  /** The outcome `_detect_copy_move` returns. */
  function CopyMove(cv2Available: bool, f: Features): (r: (bool, seq<Box>))
    ensures r.0 <==> cv2Available && f.hasDescriptors && f.keypointCount >= 2 && |Survivors(f.matches)| >= MinCluster
    ensures !r.0 ==> r.1 == []
    ensures r.0 ==> |r.1| == MinCluster
    ensures r.0 ==> forall i :: 0 <= i < MinCluster ==> r.1[i] == BoxOf(Survivors(f.matches)[i])
  {
    if !cv2Available || !f.hasDescriptors || f.keypointCount < 2 then (false, [])
    else
      var matches := Survivors(f.matches);
      if |matches| < MinCluster then (false, []) else (true, BoxesOf(matches[..MinCluster]))
  }

  /** `_detect_copy_move`: the boxes of the first ten survivors are appended one by one. */
  method DetectCopyMove(cv2Available: bool, f: Features) returns (flag: bool, boxes: seq<Box>)
    ensures (flag, boxes) == CopyMove(cv2Available, f)
  {
    if !cv2Available || !f.hasDescriptors || f.keypointCount < 2 {
      return false, [];
    }
    var matches := Survivors(f.matches);
    if |matches| < MinCluster {
      return false, [];
    }
    var firstMatches := matches[..MinCluster];
    boxes := [];
    for i := 0 to MinCluster
      invariant boxes == BoxesOf(firstMatches[..i])
    {
      boxes := boxes + [BoxOf(firstMatches[i])];
    }
    assert firstMatches[..MinCluster] == firstMatches;
    flag := true;
  }

  /** `[[idx] + b for b in boxes]` */
  function Tag(page: nat, boxes: seq<Box>): (r: seq<TaggedBox>)
    ensures |r| == |boxes| && forall i :: 0 <= i < |boxes| ==> r[i] == TaggedBox(page, boxes[i])
  {
    seq(|boxes|, i requires 0 <= i < |boxes| => TaggedBox(page, boxes[i]))
  }

  // ------------------------------------------------------------ PRNU

  /** A camera noise residual, flattened. */
  type Residual = seq<real>

  /** The parts of the PRNU library the window rule uses; either may raise. */
  datatype PrnuLib = PrnuLib(
    mean: seq<Residual> -> Result<Residual>,
    corr2d: (Residual, Residual) -> Result<real>)

  /** A residual correlates with the reference well enough. */
  predicate Passes(lib: PrnuLib, reference: Residual, r: Residual) {
    lib.corr2d(reference, r).Ok? && lib.corr2d(reference, r).value >= PrnuCorrThreshold
  }

  /** A residual correlates below the threshold. */
  predicate Fails(lib: PrnuLib, reference: Residual, r: Residual) {
    lib.corr2d(reference, r).Ok? && lib.corr2d(reference, r).value < PrnuCorrThreshold
  }

  /** The loop over `residuals[3:]`, stopping at the first low correlation or the first exception. */
  function PrnuScan(lib: PrnuLib, reference: Residual, rest: seq<Residual>): Result<bool>
    decreases |rest|
  {
    if rest == [] then Ok(false)
    else match lib.corr2d(reference, rest[0])
      case Err(e) => Err(e)
      case Ok(c) => if c < PrnuCorrThreshold then Ok(true) else PrnuScan(lib, reference, rest[1..])
  }

  /** No inconsistency exactly when every residual passes. */
  lemma {:induction false} PrnuScanConsistent(lib: PrnuLib, reference: Residual, rest: seq<Residual>)
    ensures PrnuScan(lib, reference, rest) == Ok(false) <==> forall k :: 0 <= k < |rest| ==> Passes(lib, reference, rest[k])
    decreases |rest|
  {
    if rest != [] {
      PrnuScanConsistent(lib, reference, rest[1..]);
      assert forall k :: 1 <= k < |rest| ==> rest[1..][k - 1] == rest[k];
    }
  }

  /** An inconsistency exactly when some residual fails after only passing ones. */
  lemma {:induction false} PrnuScanInconsistent(lib: PrnuLib, reference: Residual, rest: seq<Residual>)
    ensures PrnuScan(lib, reference, rest) == Ok(true) <==>
      exists k :: 0 <= k < |rest| && Fails(lib, reference, rest[k]) &&
        forall j :: 0 <= j < k ==> Passes(lib, reference, rest[j])
    decreases |rest|
  {
    if rest != [] {
      var tail := rest[1..];
      PrnuScanInconsistent(lib, reference, tail);
      if PrnuScan(lib, reference, rest) == Ok(true) && !Fails(lib, reference, rest[0]) {
        var k :| 0 <= k < |tail| && Fails(lib, reference, tail[k]) &&
          forall j :: 0 <= j < k ==> Passes(lib, reference, tail[j]);
        assert rest[k + 1] == tail[k];
        assert forall j :: 0 <= j < k + 1 ==> Passes(lib, reference, rest[j]) by {
          forall j | 0 <= j < k + 1 ensures Passes(lib, reference, rest[j]) {
            if j > 0 {
              assert rest[j] == tail[j - 1];
            }
          }
        }
      }
      if exists k :: 0 <= k < |rest| && Fails(lib, reference, rest[k]) &&
          forall j :: 0 <= j < k ==> Passes(lib, reference, rest[j]) {
        var k :| 0 <= k < |rest| && Fails(lib, reference, rest[k]) &&
          forall j :: 0 <= j < k ==> Passes(lib, reference, rest[j]);
        if k > 0 {
          assert Passes(lib, reference, rest[0]);
          assert tail[k - 1] == rest[k];
          assert forall j :: 0 <= j < k - 1 ==> tail[j] == rest[j + 1];
        }
      }
    }
  }

  /** `residuals[:3]` */
  function ReferenceWindow(residuals: seq<Residual>): seq<Residual> {
    if |residuals| <= 3 then residuals else residuals[..3]
  }

  /** `residuals[3:]` */
  function Compared(residuals: seq<Residual>): seq<Residual> {
    if |residuals| <= 3 then [] else residuals[3..]
  }

  /** What `_extract_prnu` returns, or the exception it raises. */
  function ExtractPrnuSpec(prnuAvailable: bool, lib: PrnuLib, residuals: seq<Residual>): (r: Result<Option<bool>>)
    ensures !prnuAvailable ==> r == Ok(None)
    ensures prnuAvailable && lib.mean(ReferenceWindow(residuals)).Err? ==> r == Err(lib.mean(ReferenceWindow(residuals)).error)
    ensures prnuAvailable && |residuals| <= 3 && lib.mean(residuals).Ok? ==> r == Ok(Some(false))
  {
    if !prnuAvailable then Ok(None)
    else match lib.mean(ReferenceWindow(residuals))
      case Err(e) => Err(e)
      case Ok(reference) =>
        match PrnuScan(lib, reference, Compared(residuals))
        case Err(e) => Err(e)
        case Ok(b) => Ok(Some(b))
  }

  /** With the reference computed, the flag is true exactly when some later residual fails first. */
  lemma ExtractPrnuMeaning(lib: PrnuLib, residuals: seq<Residual>)
    requires lib.mean(ReferenceWindow(residuals)).Ok?
    ensures var reference := lib.mean(ReferenceWindow(residuals)).value;
      var rest := Compared(residuals);
      && (ExtractPrnuSpec(true, lib, residuals) == Ok(Some(false)) <==>
            forall k :: 0 <= k < |rest| ==> Passes(lib, reference, rest[k]))
      && (ExtractPrnuSpec(true, lib, residuals) == Ok(Some(true)) <==>
            exists k :: 0 <= k < |rest| && Fails(lib, reference, rest[k]) &&
              forall j :: 0 <= j < k ==> Passes(lib, reference, rest[j]))
  {
    var reference := lib.mean(ReferenceWindow(residuals)).value;
    PrnuScanConsistent(lib, reference, Compared(residuals));
    PrnuScanInconsistent(lib, reference, Compared(residuals));
  }

  /** `_extract_prnu`: the flag is set and the loop left at the first low correlation. */
  method ExtractPrnu(prnuAvailable: bool, lib: PrnuLib, residuals: seq<Residual>) returns (r: Result<Option<bool>>)
    ensures r == ExtractPrnuSpec(prnuAvailable, lib, residuals)
  {
    if !prnuAvailable {
      return Ok(None);
    }
    var mean := lib.mean(ReferenceWindow(residuals));
    if mean.Err? {
      return Err(mean.error);
    }
    var reference := mean.value;
    var rest := Compared(residuals);
    var inconsistent := false;
    var i := 0;
    while i < |rest|
      invariant 0 <= i <= |rest|
      invariant PrnuScan(lib, reference, rest) == PrnuScan(lib, reference, rest[i..])
    {
      var corr := lib.corr2d(reference, rest[i]);
      if corr.Err? {
        return Err(corr.error);
      }
      if corr.value < PrnuCorrThreshold {
        inconsistent := true;
        break;
      }
      assert rest[i..][1..] == rest[i + 1..];
      i := i + 1;
    }
    return Ok(Some(inconsistent));
  }

  // ------------------------------------------------------------ OCR

  /** A word starts at `i`: a non-space character at the start or after a space. */
  predicate WordStart(s: string, i: nat)
    requires i < |s|
  {
    !IsSpace(s[i]) && (i == 0 || IsSpace(s[i - 1]))
  }

  /** `len(txt.split())` */
  function WordCount(s: string): nat
    decreases |s|
  {
    if s == [] then 0
    else WordCount(s[..|s| - 1]) + (if WordStart(s, |s| - 1) then 1 else 0)
  }

  /** A string has no words exactly when it is blank. */
  lemma {:induction false} WordCountBlank(s: string)
    ensures WordCount(s) == 0 <==> Blank(s)
    decreases |s|
  {
    if s != [] {
      var n := |s| - 1;
      WordCountBlank(s[..n]);
      assert forall i :: 0 <= i < n ==> s[..n][i] == s[i];
      if !IsSpace(s[n]) && !WordStart(s, n) {
        assert !Blank(s[..n]) by {
          assert s[..n][n - 1] == s[n - 1];
        }
      }
    }
  }

  /** Texts glued at a space: the word counts add up. */
  lemma {:induction false} WordCountAppend(a: string, b: string)
    requires a == [] || IsSpace(a[|a| - 1])
    ensures WordCount(a + b) == WordCount(a) + WordCount(b)
    decreases |b|
  {
    if b == [] {
      assert a + b == a;
    } else {
      var n := |b| - 1;
      var ab := a + b;
      assert ab[..|ab| - 1] == a + b[..n];
      WordCountAppend(a, b[..n]);
      assert ab[|ab| - 1] == b[n];
      if n > 0 {
        assert ab[|ab| - 2] == b[n - 1];
      } else if a != [] {
        assert ab[|ab| - 2] == a[|a| - 1];
      }
      assert WordStart(ab, |ab| - 1) <==> WordStart(b, n);
    }
  }

  /** A word on its own counts once. */
  lemma {:induction false} WordCountOfWord(w: string)
    requires IsWord(w)
    ensures WordCount(w) == 1
    decreases |w|
  {
    var n := |w| - 1;
    var front := w[..n];
    if n == 0 {
      assert front == [];
    } else {
      assert IsWord(front) by {
        forall i | 0 <= i < |front| ensures !IsSpace(front[i]) {
          assert front[i] == w[i];
        }
      }
      WordCountOfWord(front);
      assert !WordStart(w, n);
    }
  }

  /** A word followed by nothing or by whitespace adds one to the count of what follows. */
  lemma WordCountWordThen(w: string, rest: string)
    requires IsWord(w) && (rest == [] || IsSpace(rest[0]))
    ensures WordCount(w + rest) == 1 + WordCount(rest)
  {
    WordCountOfWord(w);
    if rest == [] {
      assert w + rest == w;
    } else {
      var c, tail := rest[0], rest[1..];
      assert w + rest == (w + [c]) + tail;
      assert rest == [c] + tail;
      WordCountAppend(w + [c], tail);
      WordCountAppend([c], tail);
      assert WordCount(w + [c]) == 1 by {
        assert (w + [c])[..|w|] == w;
      }
      assert WordCount([c]) == 0 by {
        assert [c][..0] == [];
      }
    }
  }

  /** Leading whitespace adds no word. */
  lemma WordCountTrimLeft(s: string)
    ensures WordCount(s) == WordCount(TrimLeft(s))
  {
    var t := TrimLeft(s);
    var pre := s[..|s| - |t|];
    assert s == pre + t;
    assert Blank(pre) by {
      forall i | 0 <= i < |pre| ensures IsSpace(pre[i]) {
        assert pre[i] == s[i];
      }
    }
    WordCountBlank(pre);
    WordCountAppend(pre, t);
  }

  /** A text that starts with a word: that word, then the count of what follows it. */
  lemma WordCountFirstWord(t: string)
    requires t != [] && !IsSpace(t[0])
    ensures WordCount(t) == 1 + WordCount(t[|TakeWord(t)|..])
  {
    var w := TakeWord(t);
    assert |w| > 0 && IsWord(w);
    assert t == w + t[|w|..];
    WordCountWordThen(w, t[|w|..]);
  }

  /** `len(text.split())`: the count is the number of whitespace-separated words. */
  lemma {:induction false} WordCountWords(s: string)
    ensures WordCount(s) == |Words(s)|
    decreases |s|
  {
    var t := TrimLeft(s);
    if t == [] {
      calc {
        WordCount(s);
        == { WordCountTrimLeft(s); }
        WordCount(t);
        == { assert t == []; }
        0;
        == { WordsBlank(s); }
        |Words(s)|;
      }
    } else {
      var rest := t[|TakeWord(t)|..];
      calc {
        WordCount(s);
        == { WordCountTrimLeft(s); }
        WordCount(t);
        == { WordCountFirstWord(t); }
        1 + WordCount(rest);
        == { WordCountWords(rest); }
        1 + |Words(rest)|;
        == { WordsUnfold(s, t); }
        |Words(s)|;
      }
    }
  }

  /** `_ocr_text`: a page's word count divided by 100, or 0 without Tesseract. */
  function OcrScore(tesseractAvailable: bool, text: string): (r: real)
    ensures r >= 0.0
    ensures !tesseractAvailable || Blank(text) ==> r == 0.0
    ensures tesseractAvailable ==> r * 100.0 == WordCount(text) as real
  {
    WordCountBlank(text);
    if tesseractAvailable then WordCount(text) as real / 100.0 else 0.0
  }

  // ------------------------------------------------------------ analyze

  /**
   * One page as the loop sees it: its features when OpenCV decoded it (None
   * when it did not), its noise residual and its OCR text, either of which
   * may be an exception raised by the library.
   */
  datatype PageInput = PageInput(features: Option<Features>, residual: Result<Residual>, ocrText: Result<string>)

  /** The libraries `analyze` reaches and the pages they produce. */
  datatype VisualEnv = VisualEnv(
    cv2Available: bool,
    prnuAvailable: bool,
    tesseractAvailable: bool,
    prnu: PrnuLib,
    /** `convert_from_path`: None when pdf2image is not installed. */
    render: Option<Result<seq<PageInput>>>,
    /** The single page of an image file. */
    imagePage: PageInput)

  datatype VisualReport = VisualReport(
    path: string,
    fileType: string,
    pages: nat,
    copyMove: bool,
    copyMoveBoxes: seq<TaggedBox>,
    prnuInconsistent: Option<bool>,
    ocrRatio: Option<real>,
    errors: seq<string>)

  /** The accumulators of the page loop. */
  datatype Accumulators = Accumulators(copyMove: bool, boxes: seq<TaggedBox>, residuals: seq<Residual>, ocrWords: real)

  /** The copy-move detector runs on a page and is positive there. */
  predicate PositivePage(env: VisualEnv, page: PageInput) {
    env.cv2Available && page.features.Some? && CopyMove(true, page.features.value).0
  }

  /** One iteration of the page loop: copy-move, then the residual, then OCR. */
  function Step(env: VisualEnv, acc: Accumulators, idx: nat, page: PageInput): Result<Accumulators> {
    var detected :=
      if env.cv2Available && page.features.Some? then CopyMove(true, page.features.value) else (false, []);
    var acc1 := if detected.0 then acc.(copyMove := true, boxes := acc.boxes + Tag(idx, detected.1)) else acc;
    if env.prnuAvailable && page.residual.Err? then Err(page.residual.error)
    else
      var acc2 := if env.prnuAvailable then acc1.(residuals := acc1.residuals + [page.residual.value]) else acc1;
      if env.tesseractAvailable && page.ocrText.Err? then Err(page.ocrText.error)
      else
        var text := if env.tesseractAvailable then page.ocrText.value else "";
        Ok(acc2.(ocrWords := acc2.ocrWords + OcrScore(env.tesseractAvailable, text)))
  }

  /** The accumulators after the loop over `pages`, or the first exception a page raised. */
  function Accumulate(env: VisualEnv, pages: seq<PageInput>): Result<Accumulators>
    decreases |pages|
  {
    if pages == [] then Ok(Accumulators(false, [], [], 0.0))
    else
      var n := |pages| - 1;
      match Accumulate(env, pages[..n])
      case Err(e) => Err(e)
      case Ok(acc) => Step(env, acc, n, pages[n])
  }

  /** The number of pages on which the detector is positive. */
  function PositiveCount(env: VisualEnv, pages: seq<PageInput>): nat
    decreases |pages|
  {
    if pages == [] then 0
    else PositiveCount(env, pages[..|pages| - 1]) + (if PositivePage(env, pages[|pages| - 1]) then 1 else 0)
  }

  /** The sum of the per-page OCR scores. */
  function OcrTotal(env: VisualEnv, pages: seq<PageInput>): real
    decreases |pages|
  {
    if pages == [] then 0.0
    else
      var page := pages[|pages| - 1];
      var text := if env.tesseractAvailable && page.ocrText.Ok? then page.ocrText.value else "";
      OcrTotal(env, pages[..|pages| - 1]) + OcrScore(env.tesseractAvailable, text)
  }

  /** An exception on an early page aborts the whole loop. */
  lemma {:induction false} AccumulateAbort(env: VisualEnv, pages: seq<PageInput>, i: nat)
    requires i <= |pages| && Accumulate(env, pages[..i]).Err?
    ensures Accumulate(env, pages) == Accumulate(env, pages[..i])
    decreases |pages| - i
  {
    if i < |pages| {
      assert pages[..i + 1][..i] == pages[..i];
      AccumulateAbort(env, pages, i + 1);
    } else {
      assert pages[..i] == pages;
    }
  }

  /**
   * After the loop: `copy_move` holds exactly when some page is positive,
   * every box is tagged with a page index below the page count, there are
   * ten boxes per positive page, one residual per page when PRNU is
   * present and none otherwise, and the OCR sum is the sum of the scores.
   */
  lemma {:induction false} AccumulateFacts(env: VisualEnv, pages: seq<PageInput>)
    requires Accumulate(env, pages).Ok?
    ensures var acc := Accumulate(env, pages).value;
      && (acc.copyMove <==> exists k :: 0 <= k < |pages| && PositivePage(env, pages[k]))
      && (forall b :: b in acc.boxes ==> b.page < |pages|)
      && |acc.boxes| == MinCluster * PositiveCount(env, pages)
      && |acc.residuals| == (if env.prnuAvailable then |pages| else 0)
      && acc.ocrWords == OcrTotal(env, pages)
    decreases |pages|
  {
    if pages != [] {
      var n := |pages| - 1;
      var prefix := pages[..n];
      AccumulateFacts(env, prefix);
      assert forall k :: 0 <= k < n ==> prefix[k] == pages[k];
      var acc := Accumulate(env, prefix).value;
      var page := pages[n];
      if PositivePage(env, page) {
        var detected := CopyMove(true, page.features.value);
        assert forall b :: b in Tag(n, detected.1) ==> b.page == n;
      }
    }
  }

  /** A page on which the residual or the OCR call raises. */
  predicate Raises(env: VisualEnv, page: PageInput) {
    (env.prnuAvailable && page.residual.Err?) || (env.tesseractAvailable && page.ocrText.Err?)
  }

  /** The exception such a page raises: the residual's first, then OCR's. */
  function RaisedError(env: VisualEnv, page: PageInput): Exception
    requires Raises(env, page)
  {
    if env.prnuAvailable && page.residual.Err? then page.residual.error else page.ocrText.error
  }

  /** One iteration fails exactly on a raising page, with that page's exception. */
  lemma StepOutcome(env: VisualEnv, acc: Accumulators, idx: nat, page: PageInput)
    ensures Step(env, acc, idx, page).Err? <==> Raises(env, page)
    ensures Raises(env, page) ==> Step(env, acc, idx, page) == Err(RaisedError(env, page))
  {
  }

  /**
   * The loop completes exactly when no page raises; otherwise its exception
   * is the one the first raising page raises.
   */
  lemma {:induction false} AccumulateOutcome(env: VisualEnv, pages: seq<PageInput>)
    ensures Accumulate(env, pages).Ok? <==> forall k :: 0 <= k < |pages| ==> !Raises(env, pages[k])
    ensures Accumulate(env, pages).Err? ==>
      exists k :: 0 <= k < |pages| && Raises(env, pages[k]) &&
        Accumulate(env, pages).error == RaisedError(env, pages[k]) &&
        forall j :: 0 <= j < k ==> !Raises(env, pages[j])
    decreases |pages|
  {
    if pages != [] {
      var n := |pages| - 1;
      var prefix := pages[..n];
      AccumulateOutcome(env, prefix);
      assert forall k :: 0 <= k < n ==> prefix[k] == pages[k];
      match Accumulate(env, prefix)
      case Err(e) =>
        var k :| 0 <= k < n && Raises(env, prefix[k]) && e == RaisedError(env, prefix[k]) &&
          forall j :: 0 <= j < k ==> !Raises(env, prefix[j]);
        assert Accumulate(env, pages) == Err(e);
        assert Raises(env, pages[k]);
      case Ok(acc) =>
        StepOutcome(env, acc, n, pages[n]);
        assert Accumulate(env, pages) == Step(env, acc, n, pages[n]);
    }
  }

  /** One more page: the loop state after it is one `Step` from the state before. */
  lemma AccumulateStep(env: VisualEnv, pages: seq<PageInput>, idx: nat, acc: Accumulators)
    requires idx < |pages| && Accumulate(env, pages[..idx]) == Ok(acc)
    ensures Accumulate(env, pages[..idx + 1]) == Step(env, acc, idx, pages[idx])
  {
    assert pages[..idx + 1][..idx] == pages[..idx];
  }

  /** The loop `analyze` runs over the pages. */
  method AnalyzePages(env: VisualEnv, pages: seq<PageInput>) returns (r: Result<Accumulators>)
    ensures r == Accumulate(env, pages)
  {
    var copyMove := false;
    var copyBoxes: seq<TaggedBox> := [];
    var residuals: seq<Residual> := [];
    var ocrWords := 0.0;
    for idx := 0 to |pages|
      invariant Accumulate(env, pages[..idx]) == Ok(Accumulators(copyMove, copyBoxes, residuals, ocrWords))
    {
      var page := pages[idx];
      AccumulateStep(env, pages, idx, Accumulators(copyMove, copyBoxes, residuals, ocrWords));
      if env.cv2Available && page.features.Some? {
        var cmFlag, boxes := DetectCopyMove(true, page.features.value);
        if cmFlag {
          copyMove := true;
          copyBoxes := copyBoxes + Tag(idx, boxes);
        }
      }
      if env.prnuAvailable {
        if page.residual.Err? {
          AccumulateAbort(env, pages, idx + 1);
          return Err(page.residual.error);
        }
        residuals := residuals + [page.residual.value];
      }
      if env.tesseractAvailable && page.ocrText.Err? {
        AccumulateAbort(env, pages, idx + 1);
        return Err(page.ocrText.error);
      }
      var text := if env.tesseractAvailable then page.ocrText.value else "";
      ocrWords := ocrWords + OcrScore(env.tesseractAvailable, text);
    }
    assert pages[..|pages|] == pages;
    r := Ok(Accumulators(copyMove, copyBoxes, residuals, ocrWords));
  }

  const ImageSuffixes: set<string> := {".png", ".jpg", ".jpeg", ".tif", ".tiff"}
  const RenderFailurePrefix := "Falha ao renderizar/abrir: "
  const PdfToImageMissing := "pdf2image não está instalado; instale para renderizar PDFs."
  const UnsupportedType := "Tipo de arquivo não suportado para análise visual."
  const PrnuErrorPrefix := "PRNU erro: "

  /** The pages and the type label for a file, or the `RuntimeError` raised for it. */
  function PagesOf(file: FileRef, env: VisualEnv): (r: Result<(seq<PageInput>, string)>)
    ensures Lower(file.suffix) in ImageSuffixes ==> r == Ok(([env.imagePage], "IMAGE"))
    ensures Lower(file.suffix) == ".pdf" && env.render == None ==>
      r == Err(RuntimeError(RenderFailurePrefix + PdfToImageMissing))
    ensures Lower(file.suffix) == ".pdf" && env.render.Some? && env.render.value.Ok? ==>
      r == Ok((env.render.value.value, "PDF"))
    ensures Lower(file.suffix) !in ImageSuffixes && Lower(file.suffix) != ".pdf" ==>
      r == Err(RuntimeError(UnsupportedType))
    ensures r.Err? ==> r.error.RuntimeError?
  {
    var ext := Lower(file.suffix);
    if ext in ImageSuffixes then Ok(([env.imagePage], "IMAGE"))
    else if ext == ".pdf" then
      match env.render
      case None => Err(RuntimeError(RenderFailurePrefix + PdfToImageMissing))
      case Some(Err(e)) => Err(RuntimeError(RenderFailurePrefix + e.Message()))
      case Some(Ok(pages)) => Ok((pages, "PDF"))
    else Err(RuntimeError(UnsupportedType))
  }

  function Max1(n: nat): nat {
    if n > 1 then n else 1
  }

  /** The report `analyze` returns, or the exception it raises. */
  function AnalyzeSpec(file: FileRef, env: VisualEnv): (r: Result<VisualReport>)
    ensures PagesOf(file, env).Err? ==> r == Err(PagesOf(file, env).error)
    ensures r.Ok? <==> PagesOf(file, env).Ok? && Accumulate(env, PagesOf(file, env).value.0).Ok?
    ensures PagesOf(file, env).Ok? && Accumulate(env, PagesOf(file, env).value.0).Err? ==>
      r == Err(Accumulate(env, PagesOf(file, env).value.0).error)
    ensures r.Ok? ==> r.value.path == file.path && r.value.fileType == PagesOf(file, env).value.1
  {
    match PagesOf(file, env)
    case Err(e) => Err(e)
    case Ok((pages, fileType)) =>
      match Accumulate(env, pages)
      case Err(e) => Err(e)
      case Ok(acc) =>
        var prnu :=
          if acc.residuals != [] && env.prnuAvailable then ExtractPrnuSpec(true, env.prnu, acc.residuals) else Ok(None);
        var flag := if prnu.Ok? then prnu.value else None;
        var errors := if prnu.Err? then [PrnuErrorPrefix + prnu.error.Message()] else [];
        Ok(VisualReport(file.path, fileType, |pages|, acc.copyMove, acc.boxes, flag,
                        Some(acc.ocrWords / Max1(|pages|) as real), errors))
  }

  /** `analyze` */
  method Analyze(file: FileRef, env: VisualEnv) returns (r: Result<VisualReport>)
    ensures r == AnalyzeSpec(file, env)
  {
    var source := PagesOf(file, env);
    if source.Err? {
      return Err(source.error);
    }
    var pages, fileType := source.value.0, source.value.1;
    assert source == Ok((pages, fileType));
    var loop := AnalyzePages(env, pages);
    if loop.Err? {
      return Err(loop.error);
    }
    var acc := loop.value;
    var errors: seq<string> := [];
    var prnuFlag: Option<bool> := None;
    if acc.residuals != [] && env.prnuAvailable {
      var prnu := ExtractPrnu(true, env.prnu, acc.residuals);
      if prnu.Ok? {
        prnuFlag := prnu.value;
      } else {
        errors := errors + [PrnuErrorPrefix + prnu.error.Message()];
        assert errors == [PrnuErrorPrefix + prnu.error.Message()];
      }
    }
    assert Accumulate(env, pages) == Ok(acc);
    r := Ok(VisualReport(file.path, fileType, |pages|, acc.copyMove, acc.boxes, prnuFlag,
                         Some(acc.ocrWords / Max1(|pages|) as real), errors));
  }

  /**
   * The report's promises: `copy_move` exactly when some page is positive,
   * boxes tagged with existing pages and ten per positive page, the OCR
   * ratio as the mean score, no PRNU verdict without PRNU, and at most the
   * one PRNU error.
   */
  lemma AnalyzeFacts(file: FileRef, env: VisualEnv)
    requires AnalyzeSpec(file, env).Ok?
    ensures var rep := AnalyzeSpec(file, env).value;
      var pages := PagesOf(file, env).value.0;
      && rep.pages == |pages|
      && (rep.copyMove <==> exists k :: 0 <= k < |pages| && PositivePage(env, pages[k]))
      && (forall b :: b in rep.copyMoveBoxes ==> b.page < rep.pages)
      && |rep.copyMoveBoxes| == MinCluster * PositiveCount(env, pages)
      && rep.ocrRatio == Some(OcrTotal(env, pages) / Max1(|pages|) as real)
      && (!env.prnuAvailable ==> rep.prnuInconsistent.None? && rep.errors == [])
      && (|pages| == 0 ==> rep.prnuInconsistent.None? && rep.errors == [])
      && (env.prnuAvailable && |pages| > 0 ==>
            match ExtractPrnuSpec(true, env.prnu, Accumulate(env, pages).value.residuals)
            case Ok(flag) => rep.prnuInconsistent == flag && rep.errors == []
            case Err(e) => rep.prnuInconsistent.None? && rep.errors == [PrnuErrorPrefix + e.Message()])
      && |rep.errors| <= 1
  {
    var pages := PagesOf(file, env).value.0;
    AccumulateFacts(env, pages);
  }

  /** Without OpenCV, nothing is ever flagged as copy-move. */
  lemma {:induction false} NoCopyMoveWithoutOpenCv(env: VisualEnv, pages: seq<PageInput>)
    requires !env.cv2Available
    ensures PositiveCount(env, pages) == 0
    decreases |pages|
  {
    if pages != [] {
      NoCopyMoveWithoutOpenCv(env, pages[..|pages| - 1]);
    }
  }

  /** Without Tesseract the OCR ratio is zero. */
  lemma {:induction false} OcrTotalWithoutTesseract(env: VisualEnv, pages: seq<PageInput>)
    requires !env.tesseractAvailable
    ensures OcrTotal(env, pages) == 0.0
    decreases |pages|
  {
    if pages != [] {
      OcrTotalWithoutTesseract(env, pages[..|pages| - 1]);
    }
  }
}
