# PDF Chinese OCR: a Dafny model of the pipeline driver

`pdf_chinese_ocr.py` turns the pages of a PDF into images, runs Tesseract OCR on
each image under an ordered list of language configurations, and writes the
recognised text to one UTF-8 file. The two libraries that do the real work
(pdf2image's rasteriser and pytesseract) and the file system are outside the
model. They are **oracles**: function-typed parameters that the model calls but
does not define.

- `convert(path, dpi)`: the rasteriser. It returns `Ok(images)` or `Err(cause)`.
- `ocr(image, config)`: the OCR engine. It returns `Ok(text)` or `Err(cause)`.
- `fileExists(path)`: the existence check.
- `writeFile(path, content)`: opening and writing the file. It returns `true`
  when the write succeeds and `false` when it raises.

Images are a type parameter `Image`. The model keeps the driver's sequential
logic:

- page numbering;
- the ordered first-success fallback over the four configurations
  (Traditional Chinese, Simplified Chinese, English with Traditional Chinese,
  English);
- the default output name;
- the page budget;
- the filtering and wrapping of page texts, and the joined content.

Modules, one per component of the program:

- `Wrappers`: `Option` and `Result`, which stand in for `None` defaults and
  exceptions.
- `Text`: Python's whitespace stripping, joining with a separator, and `rfind`.
- `Paths`: the name and stem of a path, and the default output path.
- `Renderer`: `extract_images_from_pdf`.
- `Recognizer`: `ocr_chinese_text`, as the recursive function `Fallback` over
  the configuration list. It returns the text and the configurations it tried.
- `Driver`: `process_pdf_to_text`, as the method `ProcessPdfToText` with a
  while loop. It returns the boolean result and the list of oracle calls it
  made, in order (`Exists`, `Convert`, one `Recognise` per page, `Write`).
  That list is how the model states "fails before rendering", "no later
  configuration runs" and "pages 1..k once each, in order".

Two points where the code says more than its usage text and docstrings:

- The usage examples show a positive page cap. The code accepts any integer.
  A zero or negative cap processes no page, and the run still writes an empty
  file and reports success when that write succeeds. The model follows the code.
- The recognizer returns the first result that is non-empty after stripping,
  and it returns that result stripped of surrounding whitespace.

## Model

| member | source | states |
|---|---|---|
| Text.TrimLeft | pdf_chinese_ocr.py:36-37 | the result is the suffix left after removing leading whitespace: everything removed is whitespace and the result does not start with whitespace |
| Text.TrimRight | pdf_chinese_ocr.py:36-37 | the result is the prefix left after removing trailing whitespace: everything removed is whitespace and the result does not end with whitespace |
| Text.Strip | pdf_chinese_ocr.py:36-37 | the stripped text never starts or ends with whitespace, and it is empty exactly when the input is all whitespace |
| Text.StripPadded | pdf_chinese_ocr.py:36-37 | stripping whitespace padding off a stripped core gives back exactly that core |
| Text.StripIdempotent | pdf_chinese_ocr.py:36-37 | stripping twice gives the same text as stripping once: the returned text, stripped again, is unchanged |
| Text.Join | pdf_chinese_ocr.py:86 | joining no parts gives the empty string; otherwise the first part is a prefix of the result |
| Text.JoinSnoc | pdf_chinese_ocr.py:86 | appending a part to a non-empty join adds one separator and that part; appending to an empty join gives the part alone |
| Text.JoinEmptyIff | pdf_chinese_ocr.py:86 | a join of non-empty parts is empty exactly when there are no parts |
| Text.LastIndexOf | pdf_chinese_ocr.py:51 | the index of the last occurrence of the character, or -1 when it does not occur |
| Paths.DropTrailingSeparators | pdf_chinese_ocr.py:51 | trailing separators are removed and nothing else: the result is a prefix that does not end in a separator |
| Paths.Name | pdf_chinese_ocr.py:51 | a path's name contains no separator |
| Paths.Stem | pdf_chinese_ocr.py:51 | the stem is a prefix of the name, has no separator, and is non-empty when the name is |
| Paths.NameAfterDirectory | pdf_chinese_ocr.py:51 | the name of `dir/file`, for a single component `file` after any directory prefix, is `file` |
| Paths.StemOfFileName | pdf_chinese_ocr.py:51 | for `dir/base.ext`, where ext contains no dot, the stem is `base`: only the last suffix is dropped, so `archive.tar.pdf` has stem `archive.tar` |
| Paths.StemOfPlainName | pdf_chinese_ocr.py:51 | a name without a dot, after any directory prefix, is its own stem |
| Paths.StemOfDotFile | pdf_chinese_ocr.py:51 | for a dot-file `dir/.base`, the stem is the whole name `.base` |
| Paths.DefaultOutputOfFileName | pdf_chinese_ocr.py:50-51 | without an output path, `dir/base.ext` (ext without a dot) is written to `base_extracted.txt`, for instance `report.pdf` to `report_extracted.txt` |
| Paths.DefaultOutputPath | pdf_chinese_ocr.py:50-51 | with no output path the file is named after the input: the stem followed by `_extracted.txt`, with no directory part, so it is created in the working directory |
| Renderer.Enumerate | pdf_chinese_ocr.py:18 | one page per image, in order, numbered consecutively from the start number |
| Renderer.ExtractImages | pdf_chinese_ocr.py:14-21 | rendering runs at 300 DPI; on success there is one page per image in document order, numbered 1..n; on failure there are no pages |
| Recognizer.Fallback | pdf_chinese_ocr.py:33-42 | the configurations tried are a prefix of the list, at least one is tried when the list is non-empty, and the text is empty or free of surrounding whitespace |
| Recognizer.Recognize | pdf_chinese_ocr.py:23-42 | between one and four configurations are tried, in priority order (chi_tra, chi_sim, eng+chi_tra, eng), and the text is empty or free of surrounding whitespace |
| Recognizer.FallbackSkipsUnusable | pdf_chinese_ocr.py:33-40 | every configuration tried before the last one tried either raised or gave blank text |
| Recognizer.FallbackFound | pdf_chinese_ocr.py:35-37 | a non-empty result is the stripped output of the last configuration tried, and that output was not blank |
| Recognizer.FallbackExhausted | pdf_chinese_ocr.py:33-42 | an empty result means every configuration was tried and each one raised or gave blank text |
| Recognizer.FallbackEmptyIff | pdf_chinese_ocr.py:33-42 | the result is "" exactly when no configuration gives usable text |
| Recognizer.FallbackIgnoresUntried | pdf_chinese_ocr.py:33-37 | configurations after the first usable one are never consulted: an engine that agrees on the configurations tried gives the same result and the same calls |
| Recognizer.RecognizeUniform | pdf_chinese_ocr.py:33-37 | an engine that reads the same text under every configuration yields that text stripped |
| Driver.OutputPath | pdf_chinese_ocr.py:50-51 | a given output path is used unchanged; without one, the path has no directory part and is the input's stem followed by `_extracted.txt` |
| Driver.PagesToProcess | pdf_chinese_ocr.py:69 | the budget is the page count without a cap, and otherwise the smaller of the cap and the page count (it is at most each and equals one of them), negative when the cap is |
| Driver.ProcessedCount | pdf_chinese_ocr.py:69-72 | without a cap all pages are processed; a cap of at least the page count processes all pages; a cap between 0 and the page count processes exactly that many; a non-positive cap processes none |
| Driver.Texts | pdf_chinese_ocr.py:72-75 | one recognised text per processed page |
| Driver.TextsAt | pdf_chinese_ocr.py:72-75 | text i is the recognizer's result for the image of page i, for every processed page |
| Driver.RecognitionLog | pdf_chinese_ocr.py:72-75 | one recognizer call per processed page |
| Driver.RecognitionLogPages | pdf_chinese_ocr.py:72-75 | call i is for page i+1 on that page's image, so pages 1..k are recognised once each in ascending order; each call tries one to four configurations in priority order |
| Driver.Wrap | pdf_chinese_ocr.py:78 | a page's block is its text with one newline added before and one after, two characters longer than the text |
| Driver.Blocks | pdf_chinese_ocr.py:77-78 | the buffer has at most one entry per processed page |
| Driver.BlocksWrapped | pdf_chinese_ocr.py:77-78 | every entry of the buffer is some page's non-empty text between two newlines |
| Driver.BlocksAppend | pdf_chinese_ocr.py:72-78 | the buffer follows page order: the entries for two runs of pages are those of the first run followed by those of the second |
| Driver.BlocksEmptyIff | pdf_chinese_ocr.py:77-81 | the buffer is empty exactly when every processed page gave empty text |
| Driver.BlocksAllKeptIff | pdf_chinese_ocr.py:77-81 | every page has an entry exactly when no page's text is empty; an empty page adds no placeholder, so it leaves fewer entries than pages |
| Driver.Content | pdf_chinese_ocr.py:86 | the content written is the buffer joined with single newlines: empty without blocks, and otherwise starting with the newline that opens the first block |
| Driver.ContentEmptyIff | pdf_chinese_ocr.py:77-86 | the written content is empty exactly when every processed page gave empty text |
| Driver.ContentSnoc | pdf_chinese_ocr.py:77-86 | an empty page adds nothing to the content; a non-empty page adds its block, after one more newline when the content already has a block, so page texts are separated by blank lines |
| Driver.NextPage | pdf_chinese_ocr.py:72-78 | processing page i after the pages before it adds exactly that page's block (if any) and that page's recognizer call |
| Driver.TextsOfTwo | pdf_chinese_ocr.py:72-75 | the texts of a two-page run are the recognizer's results for the first and then the second page |
| Driver.ContentOfTextThenBlank | pdf_chinese_ocr.py:77-86 | a non-empty text followed by an empty one is written as the first text's block alone |
| Driver.BlankPageContributesNothing | pdf_chinese_ocr.py:72-86 | pages 1 and 2, where page 1 reads as a non-empty text t with no surrounding whitespace and page 2 reads as nothing, give content "\n" + t + "\n" |
| Driver.TwoPageDocument | pdf_chinese_ocr.py:57-86 | a renderer that yields two images, with the engine reading a non-empty text t with no surrounding whitespace from the first (for instance "hello") and nothing from the second, gives pages 1 and 2 and the content "\n" + t + "\n" (for instance "\nhello\n") |
| Driver.ProcessPdfToText | pdf_chinese_ocr.py:44-93 | a missing input returns false after only the existence check; no pages returns false after the check and one render at 300 DPI, with no write; otherwise it recognises pages 1..k in order (k from the cap), writes the joined blocks of the non-empty texts once to the given or default path, and returns exactly whether that write succeeded |

## Left out

- `main` (command-line parsing, `int()` conversion of the cap, `sys.exit`): this is process plumbing. The driver takes the parsed arguments as `Option` values.
- All `print` logging: it does not affect any result.
- PDF rasterisation, OCR inference and the file system: these are oracles. The model does not describe images beyond their identity.
- A write that fails after `open` succeeded leaves a truncated file in reality. The model reduces a write to one boolean outcome.
- UTF-8 encoding: content is a sequence of Unicode characters, and its byte form is not modelled.
- Paths.Name: it does not drop `.` components as pathlib does. For `a/.` the model's name is `.`, while pathlib's is `a`. Repeated separators and the empty path already give pathlib's name.
- The path separator is fixed to `/` (POSIX paths). Windows paths, with `\` separators and drive letters, are not modelled.
- Paths.Stem: it follows pathlib up to Python 3.13, where a name that ends in a dot has no suffix. Later versions treat that trailing dot as a suffix.
- Text.IsWhitespace: it is fixed to the code points for which Python's `str.isspace()` holds. The model does not derive them from the Unicode database.
- Renderer.Enumerate and Renderer.ExtractImages: page numbers are unbounded naturals. Python's integers are unbounded too, so nothing is lost.
- Driver.Texts and Driver.RecognitionLog: their own contracts give only the length. Their elements are fixed by Driver.TextsAt and Driver.RecognitionLogPages.
