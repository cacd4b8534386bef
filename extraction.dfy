/**
 * `extract_text.py`: read every PDF under `data/raw`, keep each page's own
 * text or, for a page without any, its OCR text; fall back to `pdfminer`
 * when that gives almost nothing; write the text under `data/text` with the
 * same relative path and a `.txt` suffix; count successes and failures; and
 * mark the matching registry documents `text_extracted`.
 *
 * The PDF libraries are outside the model: a file's content is given as the
 * texts they would return (`Pdf`).
 */
module Extraction {
  import opened Wrappers
  import opened Strings
  import opened Paths
  import opened Registry

  // ----- What the PDF libraries return ---------------------------------------------

  /** One page: what `page.get_text()` returns, and what OCR of the page returns ("" when OCR fails). */
  datatype Page = Page(text: string, ocr: string)

  /**
   * A PDF file as the libraries see it: `Unreadable` when opening it or
   * reading a page raises; otherwise its pages, and the text `pdfminer`
   * returns for the whole file (`None` when `pdfminer` raises).
   */
  datatype Pdf = Unreadable | Readable(pages: seq<Page>, miner: Option<string>)

  /** What `extract_from_pdf` returns when it does not fail. */
  datatype PdfText = PdfText(text: string, ocrUsed: bool)

  /** The length below which page text is thought missing, and above which `pdfminer` text is accepted. */
  const MinText: nat := 50

  const PageSeparator: string := "\n\n"

  // ----- extract_from_pdf ----------------------------------------------------------------

  /** `s.strip()` is not empty: `s` has a character that is not whitespace. */
  predicate HasText(s: string) {
    s != [] && (!IsSpace(s[0]) || HasText(s[1..]))
  }

  /** A page without text of its own whose OCR gives something. */
  predicate ScannedWithText(p: Page) {
    !HasText(p.text) && p.ocr != []
  }

  /** What the page loop keeps of one page: its text when not blank, else its OCR text when not empty. */
  function Kept(p: Page): seq<string> {
    if HasText(p.text) then [p.text] else if p.ocr != [] then [p.ocr] else []
  }

  /** `text_content` after the page loop. */
  function PageTexts(pages: seq<Page>): seq<string> {
    if pages == [] then [] else PageTexts(pages[..|pages| - 1]) + Kept(pages[|pages| - 1])
  }

  /** `ocr_used` after the page loop: some page was read by OCR. */
  predicate UsesOcr(pages: seq<Page>) {
    pages != [] && (UsesOcr(pages[..|pages| - 1]) || ScannedWithText(pages[|pages| - 1]))
  }

  /** The condition for trying `pdfminer`: no page text, or under 50 visible-span characters in all. */
  predicate TooShort(texts: seq<string>) {
    texts == [] || |Strip(Join(texts, ""))| < MinText
  }

  /** `extract_from_pdf` on a file; `None` is the `(None, False)` of the exception handler. */
  function Extract(pdf: Pdf): Option<PdfText> {
    match pdf
    case Unreadable => None
    case Readable(pages, miner) =>
      var texts := PageTexts(pages);
      if !TooShort(texts) then Some(PdfText(Join(texts, PageSeparator), UsesOcr(pages)))
      else match miner
        case None => None
        case Some(m) =>
          Some(PdfText(if m != [] && |Strip(m)| > MinText then m else Join(texts, PageSeparator), UsesOcr(pages)))
  }

  /** The page loop and the `pdfminer` fallback of `extract_from_pdf`. */
  method ExtractFromPdf(pdf: Pdf) returns (text: Option<string>, ocrUsed: bool)
    ensures text.None? ==> !ocrUsed
    ensures Extract(pdf) == if text.Some? then Some(PdfText(text.value, ocrUsed)) else None
  {
    if pdf.Unreadable? {
      return None, false;
    }
    var pages := pdf.pages;
    var textContent: seq<string> := [];
    ocrUsed := false;
    for n := 0 to |pages|
      invariant textContent == PageTexts(pages[..n])
      invariant ocrUsed == UsesOcr(pages[..n])
    {
      assert pages[..n + 1][..n] == pages[..n];
      var page := pages[n];
      if HasText(page.text) {
        textContent := textContent + [page.text];
      } else if page.ocr != [] {
        textContent := textContent + [page.ocr];
        ocrUsed := true;
      }
    }
    assert pages[..|pages|] == pages;
    if textContent == [] || |Strip(Join(textContent, ""))| < MinText {
      match pdf.miner
      case None =>
        return None, false;
      case Some(m) =>
        if m != [] && |Strip(m)| > MinText {
          textContent := [m];
        }
    }
    text := Some(Join(textContent, PageSeparator));
  }

  // ----- Files and paths -----------------------------------------------------------------

  /**
   * A file found under `data/raw`: the directories between `data/raw` and
   * the file, its name, and its content as the PDF libraries read it.
   */
  datatype RawFile = RawFile(dirs: seq<string>, name: string, pdf: Pdf)

  /** `Path(name).suffix`: from the last dot, when that dot is neither first nor last. */
  function Suffix(name: string): string {
    match LastIndexOf(name, '.')
    case None => []
    case Some(i) => if 0 < i < |name| - 1 then name[i..] else []
  }

  /** `str(file_path.relative_to(BASE_DIR))`: `data\raw\<dirs>\<name>`. */
  function OriginalFile(f: RawFile): string {
    Render(["data", "raw"] + f.dirs + [f.name])
  }

  /** The components of the path `save_text` writes to, relative to the project root. */
  function TextParts(f: RawFile): seq<string> {
    ["data", "text"] + f.dirs + [WithTxtSuffix(f.name)]
  }

  /** `str(output_path.relative_to(BASE_DIR))`. */
  function TextFile(f: RawFile): string {
    Render(TextParts(f))
  }

  /** `process_file`: a `.pdf` file (in any letter case) is read, any other file gives `(None, False)`. */
  function Processed(f: RawFile): (Option<string>, bool) {
    if LowerAll(Suffix(f.name)) == ".pdf" then
      match Extract(f.pdf)
      case None => (None, false)
      case Some(p) => (Some(p.text), p.ocrUsed)
    else (None, false)
  }

  /** `if text and text.strip()`: the file counts as extracted. */
  predicate Succeeds(f: RawFile) {
    Processed(f).0.Some? && HasText(Processed(f).0.value)
  }

  /** The two fields of an `extracted_documents` entry that `_update_metadata` reads. */
  datatype ExtractedDoc = ExtractedDoc(originalFile: string, textFile: string)

  /** A text file written by `save_text`. */
  datatype TextWrite = TextWrite(path: string, text: string)

  /** `extracted_documents` after processing `files`. */
  function ExtractedDocs(files: seq<RawFile>): seq<ExtractedDoc> {
    if files == [] then []
    else
      var f := files[|files| - 1];
      ExtractedDocs(files[..|files| - 1]) + (if Succeeds(f) then [ExtractedDoc(OriginalFile(f), TextFile(f))] else [])
  }

  /** The text files written while processing `files`, in order. */
  function Writes(files: seq<RawFile>): seq<TextWrite> {
    if files == [] then []
    else
      var f := files[|files| - 1];
      Writes(files[..|files| - 1]) + (if Succeeds(f) then [TextWrite(TextFile(f), Processed(f).0.value)] else [])
  }

  /** How many of `files` `process_file` reports as read with OCR. */
  function OcrCount(files: seq<RawFile>): nat {
    if files == [] then 0
    else OcrCount(files[..|files| - 1]) + (if Processed(files[|files| - 1]).1 then 1 else 0)
  }

  // ----- _update_metadata ----------------------------------------------------------------

  /**
   * The test of `_update_metadata`: with both paths in '/' form, the
   * document's `raw_path` (empty when absent) occurs in the file's path, or
   * that path ends with the name of `raw_path`.
   */
  predicate Matches(rawPath: Option<string>, originalFile: string) {
    var raw := Normalize(if rawPath.Some? then rawPath.value else []);
    var orig := Normalize(originalFile);
    IsSubstring(raw, orig) || EndsWith(orig, Name(raw))
  }

  /**
   * A test of a document's `raw_path` against an extracted file's path; the
   * registry update below is stated for any such test and used with `Matches`.
   */
  type Rule = (Option<string>, string) -> bool

  /** The index of the first document matching the file, where the inner loop `break`s. */
  function FirstMatching(docs: seq<Document>, originalFile: string, rule: Rule): (r: Option<nat>)
    ensures r.Some? ==> r.value < |docs| && rule(docs[r.value].rawPath, originalFile)
    ensures r.Some? ==> forall j :: 0 <= j < r.value ==> !rule(docs[j].rawPath, originalFile)
    ensures r.None? ==> forall j :: 0 <= j < |docs| ==> !rule(docs[j].rawPath, originalFile)
  {
    if docs == [] then None
    else if rule(docs[0].rawPath, originalFile) then Some(0)
    else match FirstMatching(docs[1..], originalFile, rule)
      case None => None
      case Some(i) => Some(i + 1)
  }

  /** Set `text_path` and `processing_status.text_extracted` of a matched document. */
  function MarkExtracted(d: Document, textFile: string): (r: Document)
    ensures r.textPath == Some(textFile) && Flag(r, "text_extracted")
    ensures forall g :: g != "text_extracted" ==> Flag(r, g) == Flag(d, g)
    ensures r.(textPath := d.textPath, processingStatus := d.processingStatus) == d
  {
    SetFlag(d.(textPath := Some(textFile)), "text_extracted", true)
  }

  /**
   * One pass of the inner loop for one extracted file. `None`: the matched
   * document has no `title`, and logging it raises `KeyError`.
   */
  function ApplyExtracted(docs: seq<Document>, e: ExtractedDoc, rule: Rule): (r: Option<seq<Document>>)
    ensures r.Some? ==> |r.value| == |docs|
  {
    match FirstMatching(docs, e.originalFile, rule)
    case None => Some(docs)
    case Some(i) =>
      if docs[i].title.Some? then Some(docs[i := MarkExtracted(docs[i], e.textFile)]) else None
  }

  /** The outer loop over `extracted_documents`; `None` once a `KeyError` is raised. */
  function ApplyAll(docs: seq<Document>, es: seq<ExtractedDoc>, rule: Rule): (r: Option<seq<Document>>)
    ensures r.Some? ==> |r.value| == |docs|
  {
    if es == [] then Some(docs)
    else match ApplyAll(docs, es[..|es| - 1], rule)
      case None => None
      case Some(prev) => ApplyExtracted(prev, es[|es| - 1], rule)
  }

  /**
   * What `_update_metadata` writes: nothing when the registry file is
   * missing (`metadata` is `None`) or an exception is raised; otherwise the
   * registry with the updated documents and a new `last_updated`.
   */
  function MetadataAfter(metadata: Option<Registry>, es: seq<ExtractedDoc>, stamp: string): Option<Registry> {
    match metadata
    case None => None
    case Some(m) =>
      if es != [] && !HasDocuments(m) then None
      else match ApplyAll(Documents(m), es, Matches)
        case None => None
        case Some(docs) =>
          Some(Assign(if HasDocuments(m) then WithDocuments(m, docs) else m, "last_updated", Text(stamp)))
  }

  /** The inner loop of `_update_metadata`: the first document matching the file, if any. */
  method FindDocument(docs: seq<Document>, originalFile: string) returns (found: Option<nat>)
    ensures found == FirstMatching(docs, originalFile, Matches)
  {
    var j := 0;
    while j < |docs| && !Matches(docs[j].rawPath, originalFile)
      invariant j <= |docs|
      invariant forall k :: 0 <= k < j ==> !Matches(docs[k].rawPath, originalFile)
    {
      j := j + 1;
    }
    FirstMatchingAt(docs, originalFile, Matches, j);
    found := if j < |docs| then Some(j) else None;
  }

  /** `_update_metadata`; `stamp` is the formatted current time. */
  method UpdateMetadata(metadata: Option<Registry>, es: seq<ExtractedDoc>, stamp: string)
    returns (saved: Option<Registry>)
    requires metadata.Some? ==> Valid(metadata.value)
    ensures saved == MetadataAfter(metadata, es, stamp)
  {
    if metadata.None? {
      return None;
    }
    var m := metadata.value;
    if es != [] && !HasDocuments(m) {
      return None;
    }
    var docs := Documents(m);
    for r := 0 to |es|
      invariant ApplyAll(Documents(m), es[..r], Matches) == Some(docs)
    {
      var e := es[r];
      var found := FindDocument(docs, e.originalFile);
      ApplyAllNext(Documents(m), es, r, docs, found, Matches);
      if found.Some? {
        var j := found.value;
        if docs[j].title.None? {
          ApplyAllStops(Documents(m), es, r + 1, Matches);
          return None;
        }
        docs := docs[j := MarkExtracted(docs[j], e.textFile)];
      }
    }
    assert es[..|es|] == es;
    var out := if HasDocuments(m) then WithDocuments(m, docs) else m;
    saved := Some(Assign(out, "last_updated", Text(stamp)));
  }
  // ----- The extractor and its counters --------------------------------------------------

  /** `TextExtractor` and its `stats`. */
  class TextExtractor {
    var totalFiles: nat
    var successful: nat
    var failed: nat
    var ocrUsed: nat

    constructor ()
      ensures totalFiles == 0 && successful == 0 && failed == 0 && ocrUsed == 0
    {
      totalFiles, successful, failed, ocrUsed := 0, 0, 0, 0;
    }

    /** `process_file`: read a `.pdf` file and count it when OCR was used. */
    method ProcessFile(f: RawFile) returns (text: Option<string>, usedOcr: bool)
      modifies this
      ensures (text, usedOcr) == Processed(f)
      ensures ocrUsed == old(ocrUsed) + (if usedOcr then 1 else 0)
      ensures totalFiles == old(totalFiles) && successful == old(successful) && failed == old(failed)
    {
      if LowerAll(Suffix(f.name)) == ".pdf" {
        text, usedOcr := ExtractFromPdf(f.pdf);
        if usedOcr {
          ocrUsed := ocrUsed + 1;
        }
      } else {
        text, usedOcr := None, false;
      }
    }

    /**
     * `extract_all` on the files found under `data/raw`; `writes` are the
     * text files `save_text` writes and `saved` the registry written back.
     */
    method ExtractAll(files: seq<RawFile>, metadata: Option<Registry>, stamp: string)
      returns (writes: seq<TextWrite>, saved: Option<Registry>)
      requires metadata.Some? ==> Valid(metadata.value)
      modifies this
      ensures totalFiles == |files|
      ensures successful == old(successful) + |ExtractedDocs(files)|
      ensures failed == old(failed) + (|files| - |ExtractedDocs(files)|)
      ensures ocrUsed == old(ocrUsed) + OcrCount(files)
      ensures writes == Writes(files)
      ensures saved == MetadataAfter(metadata, ExtractedDocs(files), stamp)
    {
      totalFiles := |files|;
      var extracted: seq<ExtractedDoc> := [];
      writes := [];
      for i := 0 to |files|
        invariant totalFiles == |files|
        invariant extracted == ExtractedDocs(files[..i]) && writes == Writes(files[..i])
        invariant successful == old(successful) + |extracted|
        invariant failed == old(failed) + (i - |extracted|)
        invariant ocrUsed == old(ocrUsed) + OcrCount(files[..i])
      {
        ExtractedDocsStep(files, i);
        WritesStep(files, i);
        OcrCountStep(files, i);
        var f := files[i];
        var text, usedOcr := ProcessFile(f);
        if text.Some? && HasText(text.value) {
          writes := writes + [TextWrite(TextFile(f), text.value)];
          extracted := extracted + [ExtractedDoc(OriginalFile(f), TextFile(f))];
          successful := successful + 1;
        } else {
          failed := failed + 1;
        }
      }
      assert files[..|files|] == files;
      saved := UpdateMetadata(metadata, extracted, stamp);
    }
  }

  /** `main`: a fresh extractor runs `extract_all`. */
  method ExtractText(files: seq<RawFile>, metadata: Option<Registry>, stamp: string)
    returns (extractor: TextExtractor, writes: seq<TextWrite>, saved: Option<Registry>)
    requires metadata.Some? ==> Valid(metadata.value)
    ensures extractor.totalFiles == |files|
    ensures extractor.successful + extractor.failed == extractor.totalFiles
    ensures extractor.successful == |ExtractedDocs(files)| && extractor.ocrUsed == OcrCount(files)
    ensures writes == Writes(files) && saved == MetadataAfter(metadata, ExtractedDocs(files), stamp)
  {
    extractor := new TextExtractor();
    ExtractedDocsBound(files);
    writes, saved := extractor.ExtractAll(files, metadata, stamp);
  }

  // ----- Lemmas: reading a PDF -------------------------------------------------------------

  /** `ocr_used` is set exactly when some page without text of its own gave OCR text. */
  lemma {:induction false} UsesOcrMeaning(pages: seq<Page>)
    ensures UsesOcr(pages) <==> exists k :: 0 <= k < |pages| && ScannedWithText(pages[k])
    decreases |pages|
  {
    if pages != [] {
      var init := pages[..|pages| - 1];
      UsesOcrMeaning(init);
      if UsesOcr(init) {
        var k :| 0 <= k < |init| && ScannedWithText(init[k]);
        assert pages[k] == init[k];
      }
      if exists k :: 0 <= k < |pages| && ScannedWithText(pages[k]) {
        var k :| 0 <= k < |pages| && ScannedWithText(pages[k]);
        if k < |init| {
          assert init[k] == pages[k];
        }
      }
    }
  }

  /** A PDF whose every page has text keeps every page's text, in order, and uses no OCR. */
  lemma {:induction false} DigitalPagesKept(pages: seq<Page>)
    requires forall k :: 0 <= k < |pages| ==> HasText(pages[k].text)
    ensures |PageTexts(pages)| == |pages|
    ensures forall k :: 0 <= k < |pages| ==> PageTexts(pages)[k] == pages[k].text
    ensures !UsesOcr(pages)
    decreases |pages|
  {
    if pages != [] {
      var init := pages[..|pages| - 1];
      DigitalPagesKept(init);
    }
  }

  /** Whatever a page contributes is among the page texts. */
  lemma {:induction false} KeptInPageTexts(pages: seq<Page>, k: nat)
    requires k < |pages|
    ensures forall t :: t in Kept(pages[k]) ==> t in PageTexts(pages)
    decreases |pages|
  {
    var init := pages[..|pages| - 1];
    if k < |init| {
      KeptInPageTexts(init, k);
      assert init[k] == pages[k];
    }
  }

  /** A text has something left after `strip()` exactly when it has a visible character. */
  lemma StripVisible(s: string)
    ensures Strip(s) != [] <==> Erase(s, IsSpace) != []
  {
    StripKeepsVisible(s);
    var t := Strip(s);
    if t != [] {
      assert Erase(t, IsSpace) == [t[0]] + Erase(t[1..], IsSpace);
    }
  }

  lemma {:induction false} HasTextVisible(s: string)
    ensures HasText(s) <==> Erase(s, IsSpace) != []
    decreases |s|
  {
    if s != [] {
      HasTextVisible(s[1..]);
    }
  }

  /** `HasText` is the truth value of `s.strip()`. */
  lemma HasTextStrip(s: string)
    ensures HasText(s) <==> Strip(s) != []
  {
    HasTextVisible(s);
    StripVisible(s);
  }

  /** A visible character of one piece survives the join. */
  lemma {:induction false} VisibleJoin(parts: seq<string>, sep: string, t: string)
    requires t in parts && Erase(t, IsSpace) != []
    ensures Erase(Join(parts, sep), IsSpace) != []
    decreases |parts|
  {
    if |parts| > 1 {
      EraseAppend(parts[0] + sep, Join(parts[1..], sep), IsSpace);
      EraseAppend(parts[0], sep, IsSpace);
      if t != parts[0] {
        VisibleJoin(parts[1..], sep, t);
      }
    }
  }

  /** A page with visible text, of its own or from OCR. */
  predicate VisiblePage(p: Page) {
    HasText(p.text) || HasText(p.ocr)
  }

  /**
   * A readable PDF with one page of visible text never yields blank text:
   * either the joined page texts or a `pdfminer` text of over 50 characters.
   */
  lemma ExtractVisible(pages: seq<Page>, miner: Option<string>, k: nat)
    requires k < |pages| && VisiblePage(pages[k])
    ensures Extract(Readable(pages, miner)).Some? ==> HasText(Extract(Readable(pages, miner)).value.text)
  {
    var p := pages[k];
    var t := if HasText(p.text) then p.text else p.ocr;
    HasTextVisible(t);
    assert Kept(p) == [t];
    KeptInPageTexts(pages, k);
    var texts := PageTexts(pages);
    VisibleJoin(texts, PageSeparator, t);
    HasTextVisible(Join(texts, PageSeparator));
    if miner.Some? {
      HasTextStrip(miner.value);
    }
  }

  /**
   * `extract_from_pdf` fails only on an unreadable file, or when the page
   * text is too short and `pdfminer` raises.
   */
  lemma ExtractFails(pdf: Pdf)
    ensures Extract(pdf).None? <==>
      pdf.Unreadable? || (TooShort(PageTexts(pdf.pages)) && pdf.miner.None?)
  {
  }

  /**
   * The result is the page texts joined by blank lines, or else the
   * `pdfminer` text, and that only when the page text is too short and the
   * `pdfminer` text has over 50 characters after strip; when the page text
   * is long enough `pdfminer` is never consulted.
   */
  lemma FallbackRule(pages: seq<Page>, miner: Option<string>, other: Option<string>)
    ensures var r := Extract(Readable(pages, miner));
      r.Some? ==>
        r.value.ocrUsed == UsesOcr(pages) &&
        (r.value.text == Join(PageTexts(pages), PageSeparator) ||
         (TooShort(PageTexts(pages)) && miner == Some(r.value.text) && |Strip(r.value.text)| > MinText))
    ensures TooShort(PageTexts(pages)) && miner.Some? && |Strip(miner.value)| > MinText ==>
      Extract(Readable(pages, miner)) == Some(PdfText(miner.value, UsesOcr(pages)))
    ensures !TooShort(PageTexts(pages)) ==> Extract(Readable(pages, miner)) == Extract(Readable(pages, other))
  {
  }

  // ----- Lemmas: paths --------------------------------------------------------------------

  /** A `.pdf` file (in any letter case) `name.pdf` gets the text file `name.txt`. */
  lemma PdfNameBecomesTxt(name: string)
    requires LowerAll(Suffix(name)) == ".pdf"
    ensures |name| > 4 && name == name[..|name| - 4] + Suffix(name)
    ensures WithTxtSuffix(name) == name[..|name| - 4] + ".txt"
  {
    var i := LastIndexOf(name, '.').value;
    assert 0 < i < |name| - 1 && Suffix(name) == name[i..];
    assert i == |name| - 4;
  }

  /** Giving a proper file name the `.txt` suffix keeps it a proper file name. */
  lemma TxtNameProper(name: string)
    requires ProperComponent(name)
    ensures ProperComponent(WithTxtSuffix(name))
  {
    match LastIndexOf(name, '.')
    case None =>
    case Some(i) =>
      if 0 < i < |name| - 1 {
        assert forall c :: c in name[..i] ==> c in name;
      }
  }

  /**
   * The text file keeps the file's directories under `data/text` in place of
   * `data/raw`; only the name's suffix changes.
   */
  lemma TextFileMirrorsRaw(f: RawFile)
    requires forall k :: 0 <= k < |f.dirs| ==> ProperComponent(f.dirs[k])
    requires ProperComponent(f.name)
    ensures Components(OriginalFile(f)) == ["data", "raw"] + f.dirs + [f.name]
    ensures Components(TextFile(f)) == ["data", "text"] + f.dirs + [WithTxtSuffix(f.name)]
  {
    TxtNameProper(f.name);
    assert ProperComponent("data") && ProperComponent("raw") && ProperComponent("text");
    ComponentsRender(["data", "raw"] + f.dirs + [f.name]);
    ComponentsRender(["data", "text"] + f.dirs + [WithTxtSuffix(f.name)]);
  }

  // ----- Lemmas: matching --------------------------------------------------------------------

  /** A document with an empty or missing `raw_path` matches every file. */
  lemma EmptyRawPathMatches(rawPath: Option<string>, originalFile: string)
    requires !Truthy(rawPath)
    ensures Matches(rawPath, originalFile)
  {
    assert Normalize(if rawPath.Some? then rawPath.value else []) == [];
  }

  /** Such a document captures every file unless an earlier document matches it first. */
  lemma EmptyRawPathShadows(docs: seq<Document>, k: nat, originalFile: string)
    requires k < |docs| && !Truthy(docs[k].rawPath)
    ensures FirstMatching(docs, originalFile, Matches).Some?
    ensures FirstMatching(docs, originalFile, Matches).value <= k
  {
    EmptyRawPathMatches(docs[k].rawPath, originalFile);
  }

  /**
   * A document matches a file whenever the name in its `raw_path` ends the
   * file's name: its own file, but also `tax.pdf` for a `raw_path` naming
   * `x.pdf`.
   */
  lemma NameSuffixMatches(rawPath: Option<string>, f: RawFile)
    requires forall k :: 0 <= k < |f.dirs| ==> WinSep !in f.dirs[k]
    requires WinSep !in f.name
    requires EndsWith(f.name, Name(Normalize(if rawPath.Some? then rawPath.value else [])))
    ensures Matches(rawPath, OriginalFile(f))
  {
    var parts := ["data", "raw"] + f.dirs + [f.name];
    assert forall k :: 0 <= k < |parts| ==> WinSep !in parts[k] by {
      forall k | 0 <= k < |parts|
        ensures WinSep !in parts[k]
      {
        if 2 <= k < |parts| - 1 {
          assert parts[k] == f.dirs[k - 2];
        }
      }
    }
    NormalizeRender(parts);
    JoinEndsWithLast(parts, "/");
    EndsWithTrans(Join(parts, "/"), f.name, Name(Normalize(if rawPath.Some? then rawPath.value else [])));
  }

  lemma EndsWithTrans(a: string, b: string, c: string)
    requires EndsWith(a, b) && EndsWith(b, c)
    ensures EndsWith(a, c)
  {
    assert a[|a| - |c|..] == a[|a| - |b|..][|b| - |c|..];
  }

  /** `raw_path` `x.pdf` matches the file `data\raw\tax.pdf`. */
  lemma LooseNameMatch()
    ensures Matches(Some("x.pdf"), "data\\raw\\tax.pdf")
  {
    NameOfX();
    var f := RawFile([], "tax.pdf", Unreadable);
    PathOfTax(f);
    assert "tax.pdf"[2..] == "x.pdf";
    NameSuffixMatches(Some("x.pdf"), f);
  }

  lemma NameOfX()
    ensures Name(Normalize("x.pdf")) == "x.pdf"
  {
    ReplaceCharAbsent("x.pdf", WinSep, '/');
    assert Render(["x.pdf"]) == "x.pdf";
    NameRender(["x.pdf"]);
  }

  lemma PathOfTax(f: RawFile)
    requires f.dirs == [] && f.name == "tax.pdf"
    ensures OriginalFile(f) == "data\\raw\\tax.pdf"
  {
    var parts := ["data", "raw"] + f.dirs + [f.name];
    assert parts == ["data", "raw", "tax.pdf"];
    assert parts[1..][1..] == ["tax.pdf"];
    assert Join(parts[1..], [WinSep]) == "raw\\tax.pdf";
  }

  /** The first match, as the inner loop finds it by stepping past documents that do not match. */
  lemma FirstMatchingAt(docs: seq<Document>, originalFile: string, rule: Rule, j: nat)
    requires j <= |docs|
    requires forall k :: 0 <= k < j ==> !rule(docs[k].rawPath, originalFile)
    requires j < |docs| ==> rule(docs[j].rawPath, originalFile)
    ensures FirstMatching(docs, originalFile, rule) == if j < |docs| then Some(j) else None
  {
  }

  // ----- Lemmas: the registry update ---------------------------------------------------------

  /** One pass of the outer loop of `UpdateMetadata`. */
  lemma ApplyAllNext(docs0: seq<Document>, es: seq<ExtractedDoc>, r: nat, docs: seq<Document>,
                      found: Option<nat>, rule: Rule)
    requires r < |es| && ApplyAll(docs0, es[..r], rule) == Some(docs)
    requires found == FirstMatching(docs, es[r].originalFile, rule)
    ensures ApplyAll(docs0, es[..r + 1], rule) ==
      if found.None? then Some(docs)
      else if docs[found.value].title.None? then None
      else Some(docs[found.value := MarkExtracted(docs[found.value], es[r].textFile)])
  {
    assert es[..r + 1][..r] == es[..r];
  }

  /** Once the update stops it stays stopped. */
  lemma {:induction false} ApplyAllStops(docs: seq<Document>, es: seq<ExtractedDoc>, n: nat, rule: Rule)
    requires n <= |es| && ApplyAll(docs, es[..n], rule).None?
    ensures ApplyAll(docs, es, rule).None?
    decreases |es|
  {
    if n < |es| {
      assert es[..|es| - 1][..n] == es[..n];
      ApplyAllStops(docs, es[..|es| - 1], n, rule);
    } else {
      assert es[..n] == es;
    }
  }

  /** Updating changes only `text_path` and `processing_status`. */
  lemma {:induction false} ApplyAllKeeps(docs: seq<Document>, es: seq<ExtractedDoc>, rule: Rule)
    ensures var r := ApplyAll(docs, es, rule);
      r.Some? ==> forall i :: 0 <= i < |docs| ==>
        r.value[i].(textPath := docs[i].textPath, processingStatus := docs[i].processingStatus) == docs[i]
    decreases |es|
  {
    if es != [] {
      ApplyAllKeeps(docs, es[..|es| - 1], rule);
    }
  }

  /** Documents with the same `raw_path`s match the same files. */
  lemma {:induction false} FirstMatchingSameRaw(a: seq<Document>, b: seq<Document>, file: string, rule: Rule)
    requires |a| == |b| && forall i :: 0 <= i < |a| ==> a[i].rawPath == b[i].rawPath
    ensures FirstMatching(a, file, rule) == FirstMatching(b, file, rule)
    decreases |a|
  {
    if a != [] {
      FirstMatchingSameRaw(a[1..], b[1..], file, rule);
    }
  }

  /** Every earlier update succeeded when the whole update did. */
  lemma ApplyAllPrefix(docs: seq<Document>, es: seq<ExtractedDoc>, n: nat, rule: Rule)
    requires n <= |es| && ApplyAll(docs, es, rule).Some?
    ensures ApplyAll(docs, es[..n], rule).Some?
  {
    if ApplyAll(docs, es[..n], rule).None? {
      ApplyAllStops(docs, es, n, rule);
    }
  }

  /** A document that is no extracted file's first match is left as it was. */
  lemma {:induction false} ApplyAllTouches(docs: seq<Document>, es: seq<ExtractedDoc>, i: nat, rule: Rule)
    requires i < |docs|
    requires forall k :: 0 <= k < |es| ==> FirstMatching(docs, es[k].originalFile, rule) != Some(i)
    ensures ApplyAll(docs, es, rule).Some? ==> ApplyAll(docs, es, rule).value[i] == docs[i]
    decreases |es|
  {
    if es != [] {
      var init := es[..|es| - 1];
      ApplyAllTouches(docs, init, i, rule);
      match ApplyAll(docs, init, rule)
      case None =>
      case Some(prev) =>
        ApplyAllKeeps(docs, init, rule);
        FirstMatchingSameRaw(prev, docs, es[|es| - 1].originalFile, rule);
    }
  }

  /**
   * The first document matching an extracted file ends up with a `text_path`
   * and `text_extracted` set.
   */
  lemma {:induction false} ApplyAllMarks(docs: seq<Document>, es: seq<ExtractedDoc>, k: nat, rule: Rule)
    requires k < |es| && FirstMatching(docs, es[k].originalFile, rule).Some?
    requires ApplyAll(docs, es, rule).Some?
    ensures var i := FirstMatching(docs, es[k].originalFile, rule).value;
      Flag(ApplyAll(docs, es, rule).value[i], "text_extracted") &&
      ApplyAll(docs, es, rule).value[i].textPath.Some?
    decreases |es|
  {
    var i := FirstMatching(docs, es[k].originalFile, rule).value;
    var init := es[..|es| - 1];
    ApplyAllPrefix(docs, es, |es| - 1, rule);
    var prev := ApplyAll(docs, init, rule).value;
    ApplyAllKeeps(docs, init, rule);
    var e := es[|es| - 1];
    FirstMatchingSameRaw(prev, docs, e.originalFile, rule);
    if k < |es| - 1 {
      assert init[k] == es[k];
      ApplyAllMarks(docs, init, k, rule);
    }
    MarksStep(prev, e, i, rule, k == |es| - 1);
  }

  /** The step of `ApplyAllMarks`: one more extracted file keeps or sets the mark of document `i`. */
  lemma MarksStep(prev: seq<Document>, e: ExtractedDoc, i: nat, rule: Rule, isFirst: bool)
    requires i < |prev|
    requires isFirst ==> FirstMatching(prev, e.originalFile, rule) == Some(i)
    requires !isFirst ==> Flag(prev[i], "text_extracted") && prev[i].textPath.Some?
    requires ApplyExtracted(prev, e, rule).Some?
    ensures Flag(ApplyExtracted(prev, e, rule).value[i], "text_extracted")
    ensures ApplyExtracted(prev, e, rule).value[i].textPath.Some?
  {
  }

  /** The first document matching `e` has no `title`. */
  predicate Untitled(docs: seq<Document>, e: ExtractedDoc, rule: Rule) {
    var m := FirstMatching(docs, e.originalFile, rule);
    m.Some? && docs[m.value].title.None?
  }

  /**
   * The update stops on a `KeyError` exactly when some extracted file's first
   * match has no `title`.
   */
  lemma {:induction false} ApplyAllFails(docs: seq<Document>, es: seq<ExtractedDoc>, rule: Rule)
    ensures ApplyAll(docs, es, rule).None? <==> exists k :: 0 <= k < |es| && Untitled(docs, es[k], rule)
    decreases |es|
  {
    if es != [] {
      var init := es[..|es| - 1];
      var e := es[|es| - 1];
      ApplyAllFails(docs, init, rule);
      if exists k :: 0 <= k < |init| && Untitled(docs, init[k], rule) {
        var k :| 0 <= k < |init| && Untitled(docs, init[k], rule);
        assert es[k] == init[k];
      }
      if exists k :: 0 <= k < |es| && Untitled(docs, es[k], rule) {
        var k :| 0 <= k < |es| && Untitled(docs, es[k], rule);
        if k < |init| {
          assert init[k] == es[k];
        }
      }
      match ApplyAll(docs, init, rule)
      case None =>
      case Some(prev) =>
        ApplyAllKeeps(docs, init, rule);
        FirstMatchingSameRaw(prev, docs, e.originalFile, rule);
        UntitledStep(docs, prev, e, rule);
    }
  }

  /** The step of `ApplyAllFails`: after earlier updates the last file fails as it would on the input. */
  lemma UntitledStep(docs: seq<Document>, prev: seq<Document>, e: ExtractedDoc, rule: Rule)
    requires |prev| == |docs|
    requires forall i :: 0 <= i < |docs| ==> prev[i].(textPath := docs[i].textPath, processingStatus := docs[i].processingStatus) == docs[i]
    requires FirstMatching(prev, e.originalFile, rule) == FirstMatching(docs, e.originalFile, rule)
    ensures ApplyExtracted(prev, e, rule).None? <==> Untitled(docs, e, rule)
  {
    match FirstMatching(docs, e.originalFile, rule)
    case None =>
    case Some(i) =>
      assert prev[i].title == docs[i].title;
  }

  /**
   * The registry `_update_metadata` writes: nothing when it is missing, when
   * there are extracted files but no `documents`, or on a `KeyError`;
   * otherwise the updated documents and `last_updated`, every other key and
   * the key order as they were.  These facts follow from unfolding
   * `MetadataAfter` and the contracts of `Assign` and `WithDocuments`.
   */
  lemma MetadataAfterShape(metadata: Option<Registry>, es: seq<ExtractedDoc>, stamp: string)
    requires metadata.Some? ==> Valid(metadata.value)
    ensures var saved := MetadataAfter(metadata, es, stamp);
      saved.None? <==> metadata.None? || (es != [] && !HasDocuments(metadata.value)) ||
                       ApplyAll(Documents(metadata.value), es, Matches).None?
    ensures var saved := MetadataAfter(metadata, es, stamp);
      saved.Some? ==>
        Valid(saved.value) &&
        Documents(saved.value) == ApplyAll(Documents(metadata.value), es, Matches).value &&
        Get(saved.value, "last_updated") == Some(Text(stamp)) &&
        (forall k :: k != "documents" && k != "last_updated" ==> Get(saved.value, k) == Get(metadata.value, k)) &&
        saved.value.keys[..|metadata.value.keys|] == metadata.value.keys
  {
    if metadata.Some? && !(es != [] && !HasDocuments(metadata.value)) {
      var m := metadata.value;
      match ApplyAll(Documents(m), es, Matches)
      case None =>
      case Some(docs) =>
        var w := if HasDocuments(m) then WithDocuments(m, docs) else m;
        var a := Assign(w, "last_updated", Text(stamp));
        assert Get(a, "documents") == Get(w, "documents");
        assert w.keys == m.keys;
        assert a.keys[..|m.keys|] == m.keys;
    }
  }

  // ----- Lemmas: the run ---------------------------------------------------------------------

  /** One more file in the prefix: the step the loop of `ExtractAll` takes. */
  lemma ExtractedDocsStep(files: seq<RawFile>, i: nat)
    requires i < |files|
    ensures var f := files[i];
      ExtractedDocs(files[..i + 1]) == ExtractedDocs(files[..i]) + (if Succeeds(f) then [ExtractedDoc(OriginalFile(f), TextFile(f))] else [])
  {
    assert files[..i + 1][..i] == files[..i];
  }

  lemma WritesStep(files: seq<RawFile>, i: nat)
    requires i < |files|
    ensures var f := files[i];
      Writes(files[..i + 1]) == Writes(files[..i]) + (if Succeeds(f) then [TextWrite(TextFile(f), Processed(f).0.value)] else [])
  {
    assert files[..i + 1][..i] == files[..i];
  }

  lemma OcrCountStep(files: seq<RawFile>, i: nat)
    requires i < |files|
    ensures OcrCount(files[..i + 1]) == OcrCount(files[..i]) + (if Processed(files[i]).1 then 1 else 0)
  {
    assert files[..i + 1][..i] == files[..i];
  }

  /** There are no more extracted documents than files. */
  lemma {:induction false} ExtractedDocsBound(files: seq<RawFile>)
    ensures |ExtractedDocs(files)| <= |files|
    ensures OcrCount(files) <= |files|
    decreases |files|
  {
    if files != [] {
      ExtractedDocsBound(files[..|files| - 1]);
    }
  }

  /**
   * `extracted_documents` holds one entry per file that was extracted, in
   * order, and nothing else.
   */
  lemma {:induction false} ExtractedDocsMembers(files: seq<RawFile>)
    ensures forall f :: f in files && Succeeds(f) ==> ExtractedDoc(OriginalFile(f), TextFile(f)) in ExtractedDocs(files)
    ensures forall e :: e in ExtractedDocs(files) ==>
      exists f :: f in files && Succeeds(f) && e == ExtractedDoc(OriginalFile(f), TextFile(f))
    decreases |files|
  {
    if files != [] {
      var init := files[..|files| - 1];
      ExtractedDocsMembers(init);
      assert files == init + [files[|files| - 1]];
    }
  }

  /**
   * A `.pdf` file with one page of visible text is extracted, unless its page
   * text is too short and `pdfminer` raises.
   */
  lemma VisiblePdfSucceeds(f: RawFile, k: nat)
    requires LowerAll(Suffix(f.name)) == ".pdf"
    requires f.pdf.Readable? && k < |f.pdf.pages| && VisiblePage(f.pdf.pages[k])
    requires f.pdf.miner.Some? || !TooShort(PageTexts(f.pdf.pages))
    ensures Succeeds(f)
  {
    ExtractVisible(f.pdf.pages, f.pdf.miner, k);
    ExtractFails(f.pdf);
  }
}
