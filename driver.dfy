/** The pipeline driver: `process_pdf_to_text` checks the input, renders it,
    recognises a prefix of its pages in order, and writes the non-blank page
    texts to one file. The file system is two oracles, `fileExists(path)` and
    `writeFile(path, content)`, the latter telling whether the write
    succeeded. Every call the driver makes to an oracle is reported, in order,
    as a `Call`. */
module Driver {
  import opened Wrappers
  import opened Text
  import opened Paths
  import opened Renderer
  import opened Recognizer

  /** A call from the driver to the outside world. `Recognise` stands for one
      call of the recognizer on a page, with the configurations it tried. */
  datatype Call =
    | Exists(path: string)
    | Convert(path: string, dpi: nat)
    | Recognise(page: nat, configs: seq<string>)
    | Write(path: string, content: string)

  /** The output path: the one given, or the default derived from the input. */
  function OutputPath(pdfPath: string, outputPath: Option<string>): (p: string)
    ensures outputPath.Some? ==> p == outputPath.value
    ensures outputPath.None? ==> p == Stem(pdfPath) + OutputSuffix && Separator !in p
  {
    match outputPath
    case Some(p) => p
    case None => DefaultOutputPath(pdfPath)
  }

  /** The page budget as the driver computes it: every page without a cap,
      otherwise the smaller of the cap and the page count (negative when the
      cap is). */
  function PagesToProcess(n: nat, maxPages: Option<int>): (p: int)
    ensures p <= n
    ensures maxPages.None? ==> p == n
    ensures maxPages.Some? ==> p <= maxPages.value && (p == n || p == maxPages.value)
  {
    match maxPages
    case None => n
    case Some(m) => if m < n then m else n
  }

  /** How many pages the per-page loop visits: a non-positive budget visits
      none. */
  function ProcessedCount(n: nat, maxPages: Option<int>): (k: nat)
    ensures k <= n
    ensures maxPages.None? ==> k == n
    ensures maxPages.Some? && maxPages.value >= n ==> k == n
    ensures maxPages.Some? && 0 <= maxPages.value <= n ==> k == maxPages.value
    ensures maxPages.Some? && maxPages.value <= 0 ==> k == 0
  {
    var p := PagesToProcess(n, maxPages);
    if p < 0 then 0 else p
  }

  /** The text the recognizer returns for each page, in page order. */
  function Texts<Image>(pages: seq<Page<Image>>, ocr: (Image, string) -> Result<string>): (ts: seq<string>)
    ensures |ts| == |pages|
    decreases |pages|
  {
    if pages == [] then []
    else Texts(pages[..|pages| - 1], ocr) + [Recognize(pages[|pages| - 1].image, ocr).text]
  }

  /** Text i is the recognizer's result for page i. */
  lemma {:induction false} TextsAt<Image>(pages: seq<Page<Image>>, ocr: (Image, string) -> Result<string>, i: nat)
    requires i < |pages|
    ensures Texts(pages, ocr)[i] == Recognize(pages[i].image, ocr).text
    decreases |pages|
  {
    if i < |pages| - 1 {
      TextsAt(pages[..|pages| - 1], ocr, i);
    }
  }

  /** The recognizer calls made for `pages`, one per page, in order. */
  function RecognitionLog<Image>(pages: seq<Page<Image>>, ocr: (Image, string) -> Result<string>): (log: seq<Call>)
    ensures |log| == |pages|
    decreases |pages|
  {
    if pages == [] then []
    else
      var last := pages[|pages| - 1];
      RecognitionLog(pages[..|pages| - 1], ocr) + [Recognise(last.num, Recognize(last.image, ocr).tried)]
  }

  /** The recognizer is called once per page, on pages 1, 2, ..., k in
      ascending order, and each call tries between one and all of the
      configurations, in priority order. */
  lemma {:induction false} RecognitionLogPages<Image>(pages: seq<Page<Image>>, ocr: (Image, string) -> Result<string>, i: nat)
    requires NumberedFromOne(pages)
    requires i < |pages|
    ensures var call := RecognitionLog(pages, ocr)[i];
      && call == Recognise(i + 1, Recognize(pages[i].image, ocr).tried)
      && 1 <= |call.configs| <= |Configs| && call.configs == Configs[..|call.configs|]
    decreases |pages|
  {
    if i < |pages| - 1 {
      RecognitionLogPages(pages[..|pages| - 1], ocr, i);
    }
  }

  /** The block recorded for a page with text `t`: the text between two
      newlines. */
  function Wrap(t: string): (w: string)
    ensures |w| == |t| + 2
    ensures w[0] == '\n' && w[|w| - 1] == '\n'
    ensures forall j :: 0 <= j < |t| ==> w[j + 1] == t[j]
  {
    "\n" + t + "\n"
  }

  /** The accumulated text buffer: one block per non-empty text, in order. */
  function Blocks(texts: seq<string>): (blocks: seq<string>)
    ensures |blocks| <= |texts|
    decreases |texts|
  {
    if texts == [] then []
    else (if texts[0] != "" then [Wrap(texts[0])] else []) + Blocks(texts[1..])
  }

  /** The content written: the blocks joined with single newlines. It is
      empty without blocks and otherwise starts with the newline that opens
      the first block. */
  function Content(texts: seq<string>): (c: string)
    ensures Blocks(texts) == [] ==> c == ""
    ensures Blocks(texts) != [] ==> c != [] && c[0] == '\n'
  {
    BlocksFirstWrapped(texts);
    Join("\n", Blocks(texts))
  }

  /** Blocks keep page order: the blocks of two runs of pages are the blocks
      of the first followed by those of the second. */
  lemma {:induction false} BlocksAppend(a: seq<string>, b: seq<string>)
    ensures Blocks(a + b) == Blocks(a) + Blocks(b)
    decreases |a|
  {
    if a != [] {
      assert (a + b)[1..] == a[1..] + b;
      BlocksAppend(a[1..], b);
    } else {
      assert a + b == b;
    }
  }

  /** There are no blocks exactly when every text is empty. */
  lemma {:induction false} BlocksEmptyIff(texts: seq<string>)
    ensures Blocks(texts) == [] <==> forall i :: 0 <= i < |texts| ==> texts[i] == ""
    decreases |texts|
  {
    if texts != [] {
      BlocksEmptyIff(texts[1..]);
      assert forall i :: 1 <= i < |texts| ==> texts[i] == texts[1..][i - 1];
    }
  }

  /** Every page gets a block exactly when no text is empty; one empty page
      leaves fewer blocks than pages (no placeholder is inserted). */
  lemma {:induction false} BlocksAllKeptIff(texts: seq<string>)
    ensures |Blocks(texts)| == |texts| <==> forall i :: 0 <= i < |texts| ==> texts[i] != ""
    decreases |texts|
  {
    if texts != [] {
      BlocksAllKeptIff(texts[1..]);
      assert forall i :: 1 <= i < |texts| ==> texts[i] == texts[1..][i - 1];
    }
  }

  /** Every block is a non-empty text between two newlines. */
  lemma {:induction false} BlocksWrapped(texts: seq<string>, j: nat)
    requires j < |Blocks(texts)|
    ensures exists i :: 0 <= i < |texts| && texts[i] != "" && Blocks(texts)[j] == Wrap(texts[i])
    decreases |texts|
  {
    var head := if texts[0] != "" then [Wrap(texts[0])] else [];
    if j < |head| {
      assert Blocks(texts)[j] == Wrap(texts[0]);
    } else {
      BlocksWrapped(texts[1..], j - |head|);
      var i :| 0 <= i < |texts[1..]| && texts[1..][i] != "" && Blocks(texts[1..])[j - |head|] == Wrap(texts[1..][i]);
      assert texts[i + 1] == texts[1..][i];
    }
  }

  /** The first block, if any, starts with a newline. */
  lemma BlocksFirstWrapped(texts: seq<string>)
    ensures Blocks(texts) != [] ==> Blocks(texts)[0] != [] && Blocks(texts)[0][0] == '\n'
  {
    if Blocks(texts) != [] {
      BlocksWrapped(texts, 0);
    }
  }

  /** The content is empty exactly when every page's text is empty. */
  lemma ContentEmptyIff(texts: seq<string>)
    ensures Content(texts) == "" <==> forall i :: 0 <= i < |texts| ==> texts[i] == ""
  {
    BlocksEmptyIff(texts);
    forall j | 0 <= j < |Blocks(texts)| ensures Blocks(texts)[j] != "" {
      BlocksWrapped(texts, j);
    }
    JoinEmptyIff("\n", Blocks(texts));
  }

  /** A further page adds nothing when its text is empty, and otherwise its
      block behind one more newline, so that consecutive page texts are
      separated by blank lines. */
  lemma ContentSnoc(texts: seq<string>, t: string)
    ensures Content(texts + [t]) ==
      if t == "" then Content(texts)
      else if Blocks(texts) == [] then Wrap(t)
      else Content(texts) + "\n" + Wrap(t)
  {
    BlocksAppend(texts, [t]);
    assert Blocks([t]) == if t != "" then [Wrap(t)] else [];
    if t == "" {
      assert Blocks(texts + [t]) == Blocks(texts);
    } else {
      JoinSnoc("\n", Blocks(texts), Wrap(t));
    }
  }

  /** Processing page `i` after pages `0..i` extends the texts, the blocks and
      the log by that page's contribution. */
  lemma NextPage<Image>(pages: seq<Page<Image>>, i: nat, ocr: (Image, string) -> Result<string>)
    requires i < |pages|
    ensures var a := Recognize(pages[i].image, ocr);
      && Blocks(Texts(pages[..i + 1], ocr)) ==
           Blocks(Texts(pages[..i], ocr)) + (if a.text != "" then [Wrap(a.text)] else [])
      && RecognitionLog(pages[..i + 1], ocr) ==
           RecognitionLog(pages[..i], ocr) + [Recognise(pages[i].num, a.tried)]
  {
    var a := Recognize(pages[i].image, ocr);
    assert pages[..i + 1][..i] == pages[..i];
    assert Texts(pages[..i + 1], ocr) == Texts(pages[..i], ocr) + [a.text];
    BlocksAppend(Texts(pages[..i], ocr), [a.text]);
    assert Blocks([a.text]) == if a.text != "" then [Wrap(a.text)] else [];
  }

  /** The texts of a two-page run are the recognizer's results for the two
      pages, in order. */
  lemma TextsOfTwo<Image>(ocr: (Image, string) -> Result<string>, p: Page<Image>, q: Page<Image>)
    ensures Texts([p, q], ocr) == [Recognize(p.image, ocr).text, Recognize(q.image, ocr).text]
  {
    assert [p, q][..1] == [p];
    assert [p][..0] == [];
  }

  /** A non-empty text followed by an empty one is written as the first
      text's block alone. */
  lemma ContentOfTextThenBlank(t: string)
    requires t != ""
    ensures Content([t, ""]) == Wrap(t)
  {
    assert [t, ""][1..] == [""];
    assert [""][1..] == [];
    assert Blocks([t, ""]) == [Wrap(t)];
  }

  /** Two pages where the first reads as `t` under every configuration and
      the second reads as nothing: the content is the single block for the
      first page and holds nothing for the second. */
  lemma BlankPageContributesNothing<Image>(ocr: (Image, string) -> Result<string>, first: Image, second: Image, t: string)
    requires forall c :: ocr(first, c) == Ok(t)
    requires forall c :: ocr(second, c) == Ok("")
    requires t != "" && Stripped(t)
    ensures Content(Texts([Page(1, first), Page(2, second)], ocr)) == Wrap(t)
  {
    RecognizeUniform(first, ocr, t);
    RecognizeUniform(second, ocr, "");
    assert Strip(t) == t by {
      StripPadded("", t, "");
      assert "" + t + "" == t;
    }
    TextsOfTwo(ocr, Page(1, first), Page(2, second));
    ContentOfTextThenBlank(t);
  }

  /** A two-page document: the renderer yields
      two images, the engine reads some text (say "hello") from the first and
      nothing from the second, and the content is the block for the first
      page alone (say "\nhello\n"). */
  lemma TwoPageDocument<Image>(
    pdfPath: string, convert: (string, nat) -> Result<seq<Image>>, ocr: (Image, string) -> Result<string>,
    first: Image, second: Image, t: string)
    requires convert(pdfPath, Dpi) == Ok([first, second])
    requires forall c :: ocr(first, c) == Ok(t)
    requires forall c :: ocr(second, c) == Ok("")
    requires t != "" && Stripped(t)
    ensures ExtractImages(pdfPath, convert) == [Page(1, first), Page(2, second)]
    ensures Content(Texts(ExtractImages(pdfPath, convert), ocr)) == "\n" + t + "\n"
  {
    assert ExtractImages(pdfPath, convert) == [Page(1, first), Page(2, second)];
    BlankPageContributesNothing(ocr, first, second, t);
  }

  /** `process_pdf_to_text(pdf_path, output_path, max_pages)`: `ok` is the
      returned boolean and `calls` the oracle calls made, in order. */
  method ProcessPdfToText<Image>(
    pdfPath: string, outputPath: Option<string>, maxPages: Option<int>,
    fileExists: string -> bool,
    convert: (string, nat) -> Result<seq<Image>>,
    ocr: (Image, string) -> Result<string>,
    writeFile: (string, string) -> bool)
    returns (ok: bool, calls: seq<Call>)
    ensures !fileExists(pdfPath) ==> !ok && calls == [Exists(pdfPath)]
    ensures fileExists(pdfPath) && ExtractImages(pdfPath, convert) == [] ==>
      !ok && calls == [Exists(pdfPath), Convert(pdfPath, Dpi)]
    ensures fileExists(pdfPath) && ExtractImages(pdfPath, convert) != [] ==>
      var pages := ExtractImages(pdfPath, convert);
      var done := pages[..ProcessedCount(|pages|, maxPages)];
      var out := OutputPath(pdfPath, outputPath);
      var content := Content(Texts(done, ocr));
      && calls == [Exists(pdfPath), Convert(pdfPath, Dpi)] + RecognitionLog(done, ocr) + [Write(out, content)]
      && ok == writeFile(out, content)
  {
    calls := [Exists(pdfPath)];
    if !fileExists(pdfPath) {
      return false, calls;
    }
    var out := OutputPath(pdfPath, outputPath);
    var images := ExtractImages(pdfPath, convert);
    calls := calls + [Convert(pdfPath, Dpi)];
    if images == [] {
      return false, calls;
    }
    var allText: seq<string> := [];
    var log: seq<Call> := [];
    var pagesToProcess := PagesToProcess(|images|, maxPages);
    ghost var k := ProcessedCount(|images|, maxPages);
    var i := 0;
    while i < pagesToProcess
      invariant 0 <= i <= k
      invariant allText == Blocks(Texts(images[..i], ocr))
      invariant log == RecognitionLog(images[..i], ocr)
    {
      var page := images[i];
      var attempt := Recognize(page.image, ocr);
      log := log + [Recognise(page.num, attempt.tried)];
      if attempt.text != "" {
        allText := allText + [Wrap(attempt.text)];
      }
      NextPage(images, i, ocr);
      i := i + 1;
    }
    assert images[..i] == images[..k];
    var content := Join("\n", allText);
    ok := writeFile(out, content);
    calls := [Exists(pdfPath), Convert(pdfPath, Dpi)] + log + [Write(out, content)];
  }
}
