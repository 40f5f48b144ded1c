/** The helpers of utils.py: whitespace clean-up of extracted text and the
    routing of a file to the extractor for its format. The extractors
    themselves read files and call PDF, DOCX and OCR libraries; they are
    parameters here, functions from a path to the text they return. */
module Utils {
  import opened Text

  // ---------------------------------------------------------------------
  // clean_text

  /** clean_text: the empty text stays empty; otherwise every run of
      whitespace becomes one space and the ends are stripped. */
  function CleanText(text: string): (r: string)
    ensures forall c :: c in r ==> c == ' ' || (c in text && !IsSpace(c))
    ensures r == [] || (r[0] != ' ' && r[|r| - 1] != ' ')
  {
    if text == "" then ""
    else
      var collapsed := CollapseSpace(text);
      StripFacts(collapsed);
      Strip(collapsed)
  }

  /** The cleaned text is single-spaced: no two spaces side by side, no
      space at either end, and no whitespace but the plain space. */
  lemma CleanShape(text: string)
    ensures NoDoubleSpace(CleanText(text))
    ensures CleanText(text) == [] || (!IsSpace(CleanText(text)[0]) && !IsSpace(CleanText(text)[|CleanText(text)| - 1]))
    ensures forall k | 0 <= k < |CleanText(text)| :: IsSpace(CleanText(text)[k]) ==> CleanText(text)[k] == ' '
  {
    if text != "" {
      var collapsed := CollapseSpace(text);
      CollapseNoDouble(text);
      TrimIsSlice(collapsed, IsSpace);
      var a, b :| 0 <= a <= b <= |collapsed| && Strip(collapsed) == collapsed[a..b];
      NoDoubleSpaceSlice(collapsed, a, b);
    }
  }

  /** Cleaning clean text changes nothing. */
  lemma CleanIdempotent(text: string)
    ensures CleanText(CleanText(text)) == CleanText(text)
  {
    var r := CleanText(text);
    if r != "" {
      CleanShape(text);
      CollapseNoop(r);
      StripNoop(r);
    }
  }

  /** Cleaning keeps the words: str.split() of the cleaned text is
      str.split() of the text. */
  lemma CleanWords(text: string)
    ensures Words(CleanText(text)) == Words(text)
  {
    if text != "" {
      CollapseWords(text);
      StripWords(CollapseSpace(text));
    }
  }

  /** A leading whitespace character does not change the words. */
  lemma WordsOfSpaceLed(x: string)
    requires x != [] && IsSpace(x[0])
    ensures Words(x) == Words(x[1..])
  {
  }

  /** A leading run of whitespace does not change the words. */
  lemma {:induction false} WordsSkipRun(s: string, n: nat)
    requires n <= |s|
    requires forall k | 0 <= k < n :: IsSpace(s[k])
    ensures Words(s) == Words(s[n..])
    decreases n
  {
    if n > 0 {
      WordsOfSpaceLed(s);
      WordsSkipRun(s[1..], n - 1);
      assert s[1..][n - 1..] == s[n..];
    }
  }

  /** A word followed by nothing or by whitespace is the first word. */
  lemma WordsPrefix(w: string, x: string)
    requires w != [] && forall k | 0 <= k < |w| :: !IsSpace(w[k])
    requires x == [] || IsSpace(x[0])
    ensures Words(w + x) == [w] + Words(x)
  {
    var s := w + x;
    assert TrimLeft(s, IsSpace) == s;
    RunEndIs(s, 0, NotSpace, |w|);
    assert s[..|w|] == w && s[|w|..] == x;
  }

  /** Collapsing passes a word through unchanged. */
  lemma {:induction false} CollapseWord(w: string, rest: string)
    requires forall k | 0 <= k < |w| :: !IsSpace(w[k])
    ensures CollapseSpace(w + rest) == w + CollapseSpace(rest)
    decreases |w|
  {
    if w != [] {
      var s := w + rest;
      assert s[1..] == w[1..] + rest;
      calc {
        CollapseSpace(s);
        { assert s[0] == w[0] && !IsSpace(s[0]); }
        [w[0]] + CollapseSpace(w[1..] + rest);
        { assert forall k | 0 <= k < |w| - 1 :: w[1..][k] == w[k + 1];
          CollapseWord(w[1..], rest); }
        [w[0]] + (w[1..] + CollapseSpace(rest));
        { AppendAssoc([w[0]], w[1..], CollapseSpace(rest)); assert [w[0]] + w[1..] == w; }
        w + CollapseSpace(rest);
      }
    } else {
      assert w + rest == rest;
    }
  }

  /** Collapsing whitespace keeps the words. */
  lemma {:induction false} CollapseWords(s: string)
    ensures Words(CollapseSpace(s)) == Words(s)
    decreases |s|
  {
    if s != [] {
      if IsSpace(s[0]) {
        var n := RunEnd(s, 0, IsSpace);
        RunEndAll(s, 0, IsSpace);
        CollapseWords(s[n..]);
        WordsOfSpaceLed([' '] + CollapseSpace(s[n..]));
        assert ([' '] + CollapseSpace(s[n..]))[1..] == CollapseSpace(s[n..]);
        WordsSkipRun(s, n);
      } else {
        var n := RunEnd(s, 0, NotSpace);
        RunEndAll(s, 0, NotSpace);
        var w, rest := s[..n], s[n..];
        assert s == w + rest;
        CollapseWord(w, rest);
        CollapseWords(rest);
        WordsPrefix(w, rest);
        WordsPrefix(w, CollapseSpace(rest));
      }
    }
  }

  /** Trailing whitespace does not change the words. */
  lemma {:induction false} WordsTrailing(x: string, sp: string)
    requires forall k | 0 <= k < |sp| :: IsSpace(sp[k])
    ensures Words(x + sp) == Words(x)
    decreases |x|
  {
    if x == [] {
      assert x + sp == sp;
      WordsSkipRun(sp, |sp|);
    } else if IsSpace(x[0]) {
      WordsOfSpaceLed(x + sp);
      WordsOfSpaceLed(x);
      assert (x + sp)[1..] == x[1..] + sp;
      WordsTrailing(x[1..], sp);
    } else {
      var n := RunEnd(x, 0, NotSpace);
      RunEndAll(x, 0, NotSpace);
      var w, rest := x[..n], x[n..];
      assert x == w + rest && x + sp == w + (rest + sp);
      WordsPrefix(w, rest);
      WordsPrefix(w, rest + sp);
      WordsTrailing(rest, sp);
    }
  }

  /** Stripping keeps the words. */
  lemma StripWords(s: string)
    ensures Words(Strip(s)) == Words(s)
  {
    var l := TrimLeft(s, IsSpace);
    TrimLeftIsSuffix(s, IsSpace);
    WordsSkipRun(s, |s| - |l|);
    var r := TrimRight(l, IsSpace);
    TrimRightIsPrefix(l, IsSpace);
    assert l == r + l[|r|..];
    WordsTrailing(r, l[|r|..]);
  }

  // ---------------------------------------------------------------------
  // extract_text

  /** The formats extract_text routes to an extractor. */
  datatype Format = Pdf | Docx | Image | Unsupported

  predicate IsDot(c: char) { c == '.' }

  /** extension.lower().lstrip("."). */
  function NormalizedExtension(extension: string): string {
    TrimLeft(Lower(extension), IsDot)
  }

  /** The format an extension names. */
  function FormatOf(extension: string): (f: Format)
    ensures f == Pdf <==> NormalizedExtension(extension) == "pdf"
    ensures f == Docx <==> NormalizedExtension(extension) == "docx"
    ensures f == Image <==> NormalizedExtension(extension) in {"png", "jpg", "jpeg"}
  {
    var ext := NormalizedExtension(extension);
    if ext == "pdf" then Pdf
    else if ext == "docx" then Docx
    else if ext in {"png", "jpg", "jpeg"} then Image
    else Unsupported
  }

  /** extract_text: nothing without a path or an extension, else the
      extractor for the format, and nothing for an unsupported one. */
  function ExtractText(filePath: string, extension: string,
                       pdf: string -> string, docx: string -> string, image: string -> string): (r: string)
    ensures filePath == "" || extension == "" || FormatOf(extension) == Unsupported ==> r == ""
    ensures r == "" || r == pdf(filePath) || r == docx(filePath) || r == image(filePath)
    ensures filePath != "" && extension != "" ==>
      && (NormalizedExtension(extension) == "pdf" ==> r == pdf(filePath))
      && (NormalizedExtension(extension) == "docx" ==> r == docx(filePath))
      && (NormalizedExtension(extension) in {"png", "jpg", "jpeg"} ==> r == image(filePath))
  {
    if filePath == "" || extension == "" then ""
    else
      match FormatOf(extension)
      case Pdf => pdf(filePath)
      case Docx => docx(filePath)
      case Image => image(filePath)
      case Unsupported => ""
  }

  /** Leading dots do not change the format. */
  lemma FormatIgnoresDot(extension: string)
    ensures FormatOf("." + extension) == FormatOf(extension)
  {
    LowerAppend(".", extension);
    assert Lower(".") == ".";
    assert Lower("." + extension)[1..] == Lower(extension);
  }

  /** Upper case does not change the format. */
  lemma FormatIgnoresCase(extension: string)
    ensures FormatOf(Upper(extension)) == FormatOf(extension)
  {
    assert Lower(Upper(extension)) == Lower(extension);
  }

  /** ".PDF" goes to the PDF extractor, "JPEG" to OCR, "tiff" nowhere. */
  lemma RoutingExamples(filePath: string, pdf: string -> string, docx: string -> string, image: string -> string)
    requires filePath != ""
    ensures ExtractText(filePath, ".PDF", pdf, docx, image) == pdf(filePath)
    ensures ExtractText(filePath, "JPEG", pdf, docx, image) == image(filePath)
    ensures ExtractText(filePath, "tiff", pdf, docx, image) == ""
  {
    assert Lower(".PDF") == ".pdf";
    assert NormalizedExtension(".PDF") == "pdf";
    assert Lower("JPEG") == "jpeg";
    assert NormalizedExtension("JPEG") == "jpeg";
    assert Lower("tiff") == "tiff";
    assert NormalizedExtension("tiff") == "tiff";
  }
}
