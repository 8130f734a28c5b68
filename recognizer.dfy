/** The recognizer: `ocr_chinese_text` runs OCR under an ordered list of
    Tesseract configurations and keeps the first non-blank result. The engine
    (`pytesseract.image_to_string`) is an oracle `ocr(image, config)` that
    returns the recognised text or fails. */
module Recognizer {
  import opened Wrappers
  import opened Text

  /** The configurations in priority order: Traditional Chinese, Simplified
      Chinese, English with Traditional Chinese, English. */
  const Configs: seq<string> := [
    "--oem 3 --psm 6 -l chi_tra",
    "--oem 3 --psm 6 -l chi_sim",
    "--oem 3 --psm 6 -l eng+chi_tra",
    "--oem 3 --psm 6 -l eng"
  ]

  /** What one recognition run produced: the text returned and the
      configurations handed to the engine, in the order they were tried. */
  datatype Attempt = Attempt(text: string, tried: seq<string>)

  /** An engine outcome that ends the search: it did not fail and its text is
      not blank. */
  predicate Usable(r: Result<string>) {
    r.Ok? && Strip(r.value) != ""
  }

  /** The walk over the configurations: a failing or blank configuration is
      skipped, the first usable one returns its stripped text, and "" is
      returned once the list is exhausted. */
  function Fallback<Image>(image: Image, ocr: (Image, string) -> Result<string>, configs: seq<string>): (a: Attempt)
    ensures a.tried <= configs
    ensures configs != [] ==> a.tried != []
    ensures Stripped(a.text)
    decreases |configs|
  {
    if configs == [] then Attempt("", [])
    else
      var r := ocr(image, configs[0]);
      if Usable(r) then Attempt(Strip(r.value), [configs[0]])
      else
        var rest := Fallback(image, ocr, configs[1..]);
        Attempt(rest.text, [configs[0]] + rest.tried)
  }

  /** `ocr_chinese_text(image)`. */
  function Recognize<Image>(image: Image, ocr: (Image, string) -> Result<string>): (a: Attempt)
    ensures 1 <= |a.tried| <= |Configs| && a.tried == Configs[..|a.tried|]
    ensures Stripped(a.text)
  {
    Fallback(image, ocr, Configs)
  }

  /** Every configuration tried before the last one tried was unusable. */
  lemma {:induction false} FallbackSkipsUnusable<Image>(image: Image, ocr: (Image, string) -> Result<string>, configs: seq<string>, j: nat)
    requires j + 1 < |Fallback(image, ocr, configs).tried|
    ensures !Usable(ocr(image, configs[j]))
    decreases |configs|
  {
    var r := ocr(image, configs[0]);
    if !Usable(r) && j > 0 {
      var rest := Fallback(image, ocr, configs[1..]);
      assert Fallback(image, ocr, configs).tried == [configs[0]] + rest.tried;
      FallbackSkipsUnusable(image, ocr, configs[1..], j - 1);
      assert configs[1..][j - 1] == configs[j];
    }
  }

  /** A non-empty result is the stripped text of the last configuration
      tried, which is usable. */
  lemma {:induction false} FallbackFound<Image>(image: Image, ocr: (Image, string) -> Result<string>, configs: seq<string>)
    requires Fallback(image, ocr, configs).text != ""
    ensures var a := Fallback(image, ocr, configs);
      && Usable(ocr(image, configs[|a.tried| - 1]))
      && a.text == Strip(ocr(image, configs[|a.tried| - 1]).value)
    decreases |configs|
  {
    var r := ocr(image, configs[0]);
    if !Usable(r) {
      var rest := Fallback(image, ocr, configs[1..]);
      assert Fallback(image, ocr, configs) == Attempt(rest.text, [configs[0]] + rest.tried);
      FallbackFound(image, ocr, configs[1..]);
      assert configs[1..][|rest.tried| - 1] == configs[|rest.tried|];
    }
  }

  /** An empty result means every configuration was tried and none was
      usable. */
  lemma {:induction false} FallbackExhausted<Image>(image: Image, ocr: (Image, string) -> Result<string>, configs: seq<string>, j: nat)
    requires Fallback(image, ocr, configs).text == ""
    requires j < |configs|
    ensures Fallback(image, ocr, configs).tried == configs
    ensures !Usable(ocr(image, configs[j]))
    decreases |configs|
  {
    var r := ocr(image, configs[0]);
    var rest := Fallback(image, ocr, configs[1..]);
    assert !Usable(r);
    assert Fallback(image, ocr, configs) == Attempt(rest.text, [configs[0]] + rest.tried);
    if |configs| > 1 {
      FallbackExhausted(image, ocr, configs[1..], if j > 0 then j - 1 else 0);
      assert configs == [configs[0]] + configs[1..];
      if j > 0 {
        assert configs[1..][j - 1] == configs[j];
      }
    }
  }

  /** The result is "" exactly when no configuration is usable. */
  lemma FallbackEmptyIff<Image>(image: Image, ocr: (Image, string) -> Result<string>, configs: seq<string>)
    ensures Fallback(image, ocr, configs).text == "" <==>
            forall j :: 0 <= j < |configs| ==> !Usable(ocr(image, configs[j]))
  {
    if Fallback(image, ocr, configs).text == "" {
      forall j | 0 <= j < |configs| ensures !Usable(ocr(image, configs[j])) {
        FallbackExhausted(image, ocr, configs, j);
      }
    } else {
      FallbackFound(image, ocr, configs);
    }
  }

  /** Configurations after the one that succeeded are never consulted: an
      engine that agrees on the configurations tried gives the same run. */
  lemma {:induction false} FallbackIgnoresUntried<Image>(
    image: Image, ocr: (Image, string) -> Result<string>, other: (Image, string) -> Result<string>, configs: seq<string>)
    requires forall c :: c in Fallback(image, ocr, configs).tried ==> other(image, c) == ocr(image, c)
    ensures Fallback(image, other, configs) == Fallback(image, ocr, configs)
    decreases |configs|
  {
    if configs != [] {
      assert configs[0] in Fallback(image, ocr, configs).tried;
      if !Usable(ocr(image, configs[0])) {
        FallbackIgnoresUntried(image, ocr, other, configs[1..]);
      }
    }
  }

  /** An engine that reads the same text under every configuration yields
      that text stripped. */
  lemma RecognizeUniform<Image>(image: Image, ocr: (Image, string) -> Result<string>, t: string)
    requires forall c :: ocr(image, c) == Ok(t)
    ensures Recognize(image, ocr).text == Strip(t)
  {
    if Recognize(image, ocr).text != "" {
      FallbackFound(image, ocr, Configs);
    } else {
      FallbackExhausted(image, ocr, Configs, 0);
    }
  }
}
