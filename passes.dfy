/**
 * The text passes of the four cleaners, each a composition of substitutions
 * from `Substitution`, and the properties each pass promises.
 *
 * The passes that are not modelled concretely (the section counter, the act
 * title search, the administrative date stamps and the table of contents of
 * the Pakistan Code cleaner) are carried as functions in an `Oracles` value,
 * so that everything around them is verified for every possible behaviour.
 */
module Passes {
  import opened Wrappers
  import opened Strings
  import opened Substitution

  /** The passes left uninterpreted. */
  datatype Oracles = Oracles(
    /** `len(re.findall(r'\n\s*\d+\.\s+[A-Z]', t))` */
    sections: string -> nat,
    /** Group 1 of the act-title search, if it matches. */
    actTitle: string -> Option<string>,
    /** `_remove_admin_dates` */
    adminDates: string -> string,
    /** `_clean_table_of_contents` */
    tableOfContents: string -> string)

  const DashMarks: set<char> := {'_', '-'}
  const StarMarks: set<char> := {'_', '-', '*'}

  /** `This (?:Act|Ordinance) was (?:passed|enacted|promulgated)` */
  const LegislativeHeads: seq<string> := [
    "This Act was passed", "This Act was enacted", "This Act was promulgated",
    "This Ordinance was passed", "This Ordinance was enacted", "This Ordinance was promulgated"]

  /** `Substituted|Inserted|Omitted|Added|Amended` */
  const AmendmentHeads: seq<string> := ["Substituted", "Inserted", "Omitted", "Added", "Amended"]

  const LegislativeFootnote: Matcher := Footnote(LegislativeHeads, 50, "Legislative Note")
  const AmendmentFootnote: Matcher := Footnote(AmendmentHeads, 30, "Amendment")

  // ----- Supreme Court judgments and Balochistan Code -----------------------

  /** `_normalize_whitespace` of the Supreme Court and Balochistan cleaners. */
  function CollapseAndTrim(s: string): string {
    Sub(TrailingBlanks(), Sub(NewlineRun(4), s))
  }

  /** `_remove_separators` of the Balochistan cleaner. */
  function BalochistanSeparators(s: string): string {
    Sub(RuleLine(DashMarks), s)
  }

  /** `_format_footnotes` of the Balochistan cleaner. */
  function BalochistanFootnotes(s: string): string {
    Sub(LegislativeFootnote, s)
  }

  /** The text flow of `SupremeCourtCleaner.clean_text` before validation. */
  function SupremePipeline(s: string): string {
    Strip(CollapseAndTrim(s))
  }

  /** The text flow of `BalochistanCodeCleaner.clean_text` before validation. */
  function BalochistanPipeline(s: string): string {
    Strip(BalochistanFootnotes(BalochistanSeparators(CollapseAndTrim(s))))
  }

  // ----- KP Code ---------------------------------------------------------------

  /** Pattern 3 of `_remove_page_markers`: a marker line at the very start of the text. */
  function DropLeadingMarker(s: string): string {
    match PageMarkerLength(s, true)
    case None => s
    case Some(n) => s[n..]
  }

  /** `_remove_page_markers` of the KP cleaner. */
  function KpPageMarkers(s: string): string {
    DropLeadingMarker(Sub(PageMarker(false), Sub(PageMarker(true), s)))
  }

  /** The two newline substitutions of the KP `_normalize_whitespace`. */
  function KpCollapse(s: string): string {
    Sub(NewlineTriple(), Sub(NewlineRun(4), s))
  }

  /** `_normalize_whitespace` of the KP cleaner. */
  function KpNormalize(s: string): string {
    Sub(DeepIndent(), Sub(TrailingBlanks(), KpCollapse(s)))
  }

  /** `_remove_separators` of the KP cleaner. */
  function KpSeparators(s: string): string {
    Sub(BlankRuleLine(StarMarks), Sub(RuleLine(DashMarks), s))
  }

  /** `_format_footnotes` of the KP cleaner. */
  function KpFootnotes(s: string): string {
    Sub(AmendmentFootnote, s)
  }

  /** The text flow of `KPCodeCleaner.clean_text` before validation. */
  function KpPipeline(s: string): string {
    Strip(KpFootnotes(KpSeparators(KpNormalize(KpPageMarkers(s)))))
  }

  // ----- Pakistan Code ---------------------------------------------------------

  /** `_remove_page_numbers` */
  function PakistanPageNumbers(s: string): string {
    Sub(PageOfPages(), s)
  }

  /**
   * `_remove_repetitive_headers`, given group 1 of the title search: the text
   * up to and including the first occurrence of the stripped title is kept,
   * later occurrences on a line of their own become a blank line.  The title
   * pattern needs ten characters and ACT, ORDINANCE or CODE, so the stripped
   * title is never empty; an empty one is read as no title.
   */
  function RemoveRepeatedTitle(s: string, found: Option<string>): string {
    match found
    case None => s
    case Some(g) =>
      var title := Strip(g);
      if title == [] then s
      else match FindFirst(s, title)
        case None => s
        case Some(i) => s[..i + |title|] + Sub(HeaderLine(title), s[i + |title|..])
  }

  /** `_remove_separators` of the Pakistan cleaner. */
  function PakistanSeparators(s: string): string {
    Sub(BlankRuleLine(StarMarks), Sub(RuleLine(StarMarks), s))
  }

  /**
   * `re.sub(r'(?<!^) {2,}', ' ', s, flags=re.MULTILINE)`: a run of two or more
   * spaces becomes one, except that a run may not start at the start of a
   * line, so there the first space stays and the rest of the run is collapsed.
   */
  function CollapseInnerBlanks(s: string, lineStart: bool): string
    decreases |s|
  {
    if s == [] then []
    else if s[0] == ' ' && !lineStart then
      var b := Span(s, IsBlank);
      if b >= 2 then " " + CollapseInnerBlanks(s[b..], false)
      else " " + CollapseInnerBlanks(s[1..], false)
    else [s[0]] + CollapseInnerBlanks(s[1..], s[0] == '\n')
  }

  /** The three newline and blank substitutions of the Pakistan `_normalize_whitespace`. */
  function PakistanCollapse(s: string): string {
    Sub(NewlineRun(3), CollapseInnerBlanks(s, true))
  }

  /** `_normalize_whitespace` of the Pakistan cleaner. */
  function PakistanNormalize(s: string): string {
    Sub(BlankBeforePunct(), Sub(TrailingBlanks(), PakistanCollapse(s)))
  }

  /** `_clean_footnotes` */
  function PakistanFootnotes(s: string): string {
    Sub(AmendmentNote(), Sub(BareNoteNumber(), s))
  }

  /** The text flow of `LegalTextCleaner.clean_text` before validation. */
  function PakistanPipeline(o: Oracles, s: string): string {
    var t1 := PakistanPageNumbers(s);
    var t2 := RemoveRepeatedTitle(t1, o.actTitle(t1));
    var t3 := o.adminDates(t2);
    var t4 := PakistanSeparators(t3);
    var t5 := o.tableOfContents(t4);
    Strip(PakistanFootnotes(PakistanNormalize(t5)))
  }

  // ----- Newline runs ----------------------------------------------------------

  /** No `k` newlines in a row anywhere in `s`. */
  predicate NoNewlineRun(s: string, k: nat) {
    forall i :: 0 <= i < |s| ==> Lead(s[i..]) < k
  }

  lemma NewlineRunCons(c: char, t: string, k: nat)
    requires NoNewlineRun(t, k) && k >= 1
    requires c == '\n' ==> Lead(t) + 1 < k
    ensures NoNewlineRun([c] + t, k)
    ensures Lead([c] + t) == if c == '\n' then 1 + Lead(t) else 0
  {
    var s := [c] + t;
    assert s[1..] == t;
    forall i | 0 <= i < |s| ensures Lead(s[i..]) < k {
      if i > 0 {
        assert s[i..] == t[i - 1..];
      } else {
        assert s[0..] == s;
      }
    }
  }

  lemma NewlineRunSuffix(s: string, k: nat)
    requires NoNewlineRun(s, k) && s != []
    ensures NoNewlineRun(s[1..], k) && Lead(s) < k
  {
    assert s[0..] == s;
    forall i | 0 <= i < |s[1..]| ensures Lead(s[1..][i..]) < k {
      assert s[1..][i..] == s[i + 1..];
    }
  }

  lemma LeadAfterRun(s: string)
    ensures Lead(s[Lead(s)..]) == 0
  {
  }

  lemma RunTail(s: string, k: nat, n: nat)
    requires NoNewlineRun(s, k) && n <= |s|
    ensures NoNewlineRun(s[n..], k)
  {
    forall i | 0 <= i < |s[n..]| ensures Lead(s[n..][i..]) < k {
      assert s[n..][i..] == s[i + n..];
    }
  }

  /** What collapsing `\n{m,}` leaves of `s` in `r`. */
  predicate Collapsed(m: nat, s: string, r: string) {
    NoNewlineRun(r, if m > 3 then m else 3) && Lead(r) == if Lead(s) >= m then 2 else Lead(s)
  }

  lemma CollapseHitStep(m: nat, s: string, t: string)
    requires m >= 1 && Lead(s) >= m
    requires Collapsed(m, s[Lead(s)..], t)
    ensures Collapsed(m, s, "\n\n" + t)
  {
    var k := if m > 3 then m else 3;
    LeadAfterRun(s);
    NewlineRunCons('\n', t, k);
    NewlineRunCons('\n', ['\n'] + t, k);
    assert "\n\n" + t == ['\n'] + (['\n'] + t);
  }

  lemma CollapseMissStep(m: nat, s: string, t: string)
    requires m >= 1 && s != [] && Lead(s) < m
    requires Collapsed(m, s[1..], t)
    ensures Collapsed(m, s, [s[0]] + t)
  {
    NewlineRunCons(s[0], t, if m > 3 then m else 3);
  }

  /**
   * After `\n{m,}` becomes two newlines, no run of `max(m, 3)` newlines is
   * left, and the text starts with two newlines exactly when it started with
   * at least `m`.
   */
  lemma {:induction false} CollapseBound(m: nat, s: string)
    requires m >= 1
    ensures NoNewlineRun(Sub(NewlineRun(m), s), if m > 3 then m else 3)
    ensures Lead(Sub(NewlineRun(m), s)) == if Lead(s) >= m then 2 else Lead(s)
    decreases |s|
  {
    if s != [] {
      if NewlineRun(m)(s).Some? {
        SubHit(NewlineRun(m), s);
        CollapseBound(m, s[Lead(s)..]);
        CollapseHitStep(m, s, Sub(NewlineRun(m), s[Lead(s)..]));
      } else {
        SubMiss(NewlineRun(m), s);
        CollapseBound(m, s[1..]);
        CollapseMissStep(m, s, Sub(NewlineRun(m), s[1..]));
      }
    }
  }

  /** What replacing `\n{3}` leaves of `s` in `r`. */
  predicate TripleDone(s: string, r: string) {
    NoNewlineRun(r, 3) && Lead(r) == if Lead(s) == 3 then 2 else Lead(s)
  }

  lemma TripleHitStep(s: string, t: string)
    requires NoNewlineRun(s, 4) && "\n\n\n" <= s
    requires TripleDone(s[3..], t)
    ensures TripleDone(s, "\n\n" + t)
  {
    var rest := s[3..];
    NewlineRunSuffix(s, 4);
    assert s == "\n\n\n" + rest;
    assert Lead(s) == 3 + Lead(rest) by {
      assert s[1..] == "\n\n" + rest && s[2..] == "\n" + rest && s[3..] == rest;
    }
    NewlineRunCons('\n', t, 3);
    NewlineRunCons('\n', ['\n'] + t, 3);
    assert "\n\n" + t == ['\n'] + (['\n'] + t);
  }

  lemma TripleMissStep(s: string, t: string)
    requires NoNewlineRun(s, 4) && s != [] && !("\n\n\n" <= s)
    requires TripleDone(s[1..], t)
    ensures TripleDone(s, [s[0]] + t)
  {
    NewlineRunSuffix(s, 4);
    if Lead(s) >= 3 {
      assert false;
    }
    NewlineRunCons(s[0], t, 3);
  }

  /** `\n{3}` turns text without four newlines in a row into text without three. */
  lemma {:induction false} TripleBound(s: string)
    requires NoNewlineRun(s, 4)
    ensures NoNewlineRun(Sub(NewlineTriple(), s), 3)
    ensures Lead(Sub(NewlineTriple(), s)) == if Lead(s) == 3 then 2 else Lead(s)
    decreases |s|
  {
    if s != [] {
      if NewlineTriple()(s).Some? {
        SubHit(NewlineTriple(), s);
        RunTail(s, 4, 3);
        TripleBound(s[3..]);
        TripleHitStep(s, Sub(NewlineTriple(), s[3..]));
      } else {
        SubMiss(NewlineTriple(), s);
        RunTail(s, 4, 1);
        TripleBound(s[1..]);
        TripleMissStep(s, Sub(NewlineTriple(), s[1..]));
      }
    }
  }

  /** After the two newline substitutions of the KP cleaner no three newlines in a row remain. */
  lemma KpCollapseBound(s: string)
    ensures NoNewlineRun(KpCollapse(s), 3)
  {
    CollapseBound(4, s);
    TripleBound(Sub(NewlineRun(4), s));
  }

  /** Right after `\n{3,}` is collapsed, no three newlines in a row remain. */
  lemma PakistanCollapseBound(s: string)
    ensures NoNewlineRun(PakistanCollapse(s), 3)
  {
    CollapseBound(3, CollapseInnerBlanks(s, true));
  }

  // ----- Trailing blanks and indentation ----------------------------------------

  /** No space stands right before a newline. */
  predicate NoBlankBeforeNewline(r: string) {
    forall i :: 0 <= i < |r| - 1 ==> !(r[i] == ' ' && r[i + 1] == '\n')
  }

  /** What removing ` +\n` leaves of `s` in `r`: a newline first only where one stood after the blanks. */
  predicate Trimmed(s: string, r: string) {
    NoBlankBeforeNewline(r) &&
    (r != [] && r[0] == '\n' ==> Span(s, IsBlank) < |s| && s[Span(s, IsBlank)] == '\n')
  }

  lemma TrimHitStep(s: string, t: string)
    requires TrailingBlanksHit(s).Some?
    requires NoBlankBeforeNewline(t)
    ensures Trimmed(s, "\n" + t)
  {
    forall i | 0 <= i < |t| ensures ("\n" + t)[i + 1] == t[i] { }
  }

  lemma TrimMissStep(s: string, t: string)
    requires s != [] && TrailingBlanksHit(s).None?
    requires Trimmed(s[1..], t)
    ensures Trimmed(s, [s[0]] + t)
  {
    var r := [s[0]] + t;
    if s[0] == ' ' && t != [] && t[0] == '\n' {
      assert false;
    }
    forall i | 0 <= i < |r| - 1 ensures !(r[i] == ' ' && r[i + 1] == '\n') {
      if i > 0 {
        assert r[i] == t[i - 1] && r[i + 1] == t[i];
      }
    }
  }

  lemma {:induction false} TrailingBlanksGone(s: string)
    ensures NoBlankBeforeNewline(Sub(TrailingBlanks(), s))
    ensures Sub(TrailingBlanks(), s) != [] && Sub(TrailingBlanks(), s)[0] == '\n' ==>
      Span(s, IsBlank) < |s| && s[Span(s, IsBlank)] == '\n'
    decreases |s|
  {
    if s != [] {
      if TrailingBlanks()(s).Some? {
        var n := TrailingBlanks()(s).value.len;
        SubHit(TrailingBlanks(), s);
        TrailingBlanksGone(s[n..]);
        TrimHitStep(s, Sub(TrailingBlanks(), s[n..]));
      } else {
        SubMiss(TrailingBlanks(), s);
        TrailingBlanksGone(s[1..]);
        TrimMissStep(s, Sub(TrailingBlanks(), s[1..]));
      }
    }
  }

  /** After ` +\n` is removed no line ends in a space. */
  lemma CollapseAndTrimNoTrailingBlank(s: string)
    ensures NoBlankBeforeNewline(CollapseAndTrim(s))
  {
    TrailingBlanksGone(Sub(NewlineRun(4), s));
  }

  /** No newline is followed by three or more spaces. */
  predicate NoDeepIndent(r: string) {
    forall i :: 0 <= i < |r| && r[i] == '\n' ==> Span(r[i + 1..], IsBlank) < 3
  }

  /** What replacing `\n {3,}` leaves of `s` in `r`: no deep indent, the same leading blanks. */
  predicate Dedented(s: string, r: string) {
    NoDeepIndent(r) && Span(r, IsBlank) == Span(s, IsBlank)
  }

  lemma DedentHitStep(s: string, t: string)
    requires DeepIndentHit(s).Some?
    requires Dedented(s[DeepIndentHit(s).value.len..], t)
    ensures Dedented(s, "\n " + t)
  {
    var n := DeepIndentHit(s).value.len;
    assert Span(s[n..], IsBlank) == 0 by {
      assert s[n..] == s[1..][n - 1..];
    }
    var r := "\n " + t;
    assert r[1..] == " " + t && (" " + t)[1..] == t;
    forall i | 0 <= i < |r| && r[i] == '\n' ensures Span(r[i + 1..], IsBlank) < 3 {
      if i >= 2 {
        assert r[i] == t[i - 2] && r[i + 1..] == t[i - 1..];
      }
    }
  }

  lemma DedentMissStep(s: string, t: string)
    requires s != [] && DeepIndentHit(s).None?
    requires Dedented(s[1..], t)
    ensures Dedented(s, [s[0]] + t)
  {
    var r := [s[0]] + t;
    assert r[1..] == t;
    forall i | 0 <= i < |r| && r[i] == '\n' ensures Span(r[i + 1..], IsBlank) < 3 {
      if i > 0 {
        assert r[i] == t[i - 1] && r[i + 1..] == t[i..];
      }
    }
  }

  lemma {:induction false} DeepIndentGone(s: string)
    ensures NoDeepIndent(Sub(DeepIndent(), s))
    ensures Span(Sub(DeepIndent(), s), IsBlank) == Span(s, IsBlank)
    decreases |s|
  {
    if s != [] {
      if DeepIndent()(s).Some? {
        var n := DeepIndent()(s).value.len;
        SubHit(DeepIndent(), s);
        DeepIndentGone(s[n..]);
        DedentHitStep(s, Sub(DeepIndent(), s[n..]));
      } else {
        SubMiss(DeepIndent(), s);
        DeepIndentGone(s[1..]);
        DedentMissStep(s, Sub(DeepIndent(), s[1..]));
      }
    }
  }

  /** The KP `_normalize_whitespace` leaves no newline followed by three spaces. */
  lemma KpNormalizeNoDeepIndent(s: string)
    ensures NoDeepIndent(KpNormalize(s))
  {
    DeepIndentGone(Sub(TrailingBlanks(), KpCollapse(s)));
  }

  // ----- Length and content -------------------------------------------------------

  /** What a whitespace pass promises: the text gets no longer and keeps its visible characters. */
  predicate Tidied(s: string, r: string) {
    |r| <= |s| && Erase(r, IsSpace) == Erase(s, IsSpace)
  }

  lemma TidiedTrans(a: string, b: string, c: string)
    requires Tidied(a, b) && Tidied(b, c)
    ensures Tidied(a, c)
  {
  }

  /** A whitespace-only, shrinking substitution. */
  lemma SubTidies(m: Matcher, s: string)
    requires Shrinks(m) && KeepsVisible(m)
    ensures Tidied(s, Sub(m, s))
  {
    SubNoLonger(m, s);
    SubKeepsVisible(m, s);
  }

  lemma NewlineRunTidies(min: nat, s: string)
    requires min >= 2
    ensures Tidied(s, Sub(NewlineRun(min), s))
  {
    NewlineRunShrinks(min);
    NewlineRunKeepsVisible(min);
    SubTidies(NewlineRun(min), s);
  }

  lemma NewlineTripleTidies(s: string)
    ensures Tidied(s, Sub(NewlineTriple(), s))
  {
    NewlineTripleShrinks();
    NewlineTripleKeepsVisible();
    SubTidies(NewlineTriple(), s);
  }

  lemma TrailingBlanksTidies(s: string)
    ensures Tidied(s, Sub(TrailingBlanks(), s))
  {
    TrailingBlanksShrinks();
    TrailingBlanksKeepsVisible();
    SubTidies(TrailingBlanks(), s);
  }

  lemma DeepIndentTidies(s: string)
    ensures Tidied(s, Sub(DeepIndent(), s))
  {
    DeepIndentShrinks();
    DeepIndentKeepsVisible();
    SubTidies(DeepIndent(), s);
  }

  lemma BlankBeforePunctTidies(s: string)
    ensures Tidied(s, Sub(BlankBeforePunct(), s))
  {
    BlankBeforePunctShrinks();
    BlankBeforePunctKeepsVisible();
    SubTidies(BlankBeforePunct(), s);
  }

  /** The Supreme Court and Balochistan `_normalize_whitespace` only touches whitespace and never lengthens. */
  lemma CollapseAndTrimTidies(s: string)
    ensures Tidied(s, CollapseAndTrim(s))
  {
    NewlineRunTidies(4, s);
    TrailingBlanksTidies(Sub(NewlineRun(4), s));
    TidiedTrans(s, Sub(NewlineRun(4), s), CollapseAndTrim(s));
  }

  /** The Supreme Court pipeline only removes whitespace: the visible characters stay, in order. */
  lemma SupremeKeepsVisible(s: string)
    ensures Erase(SupremePipeline(s), IsSpace) == Erase(s, IsSpace)
    ensures |SupremePipeline(s)| <= |s|
  {
    CollapseAndTrimTidies(s);
    StripKeepsVisible(CollapseAndTrim(s));
  }

  lemma RuleLineNoLonger(marks: set<char>, s: string)
    ensures |Sub(RuleLine(marks), s)| <= |s|
  {
    RuleLineShrinks(marks);
    SubNoLonger(RuleLine(marks), s);
  }

  /** The Balochistan whitespace and separator passes never lengthen the text. */
  lemma BalochistanSeparatorsNoLonger(s: string)
    ensures |BalochistanSeparators(CollapseAndTrim(s))| <= |s|
  {
    CollapseAndTrimTidies(s);
    RuleLineNoLonger(DashMarks, CollapseAndTrim(s));
  }

  /** The KP `_normalize_whitespace` only touches whitespace and never lengthens. */
  lemma KpNormalizeTidies(s: string)
    ensures Tidied(s, KpNormalize(s))
  {
    var a := Sub(NewlineRun(4), s);
    var b := Sub(NewlineTriple(), a);
    var c := Sub(TrailingBlanks(), b);
    NewlineRunTidies(4, s);
    NewlineTripleTidies(a);
    TrailingBlanksTidies(b);
    DeepIndentTidies(c);
    TidiedTrans(s, a, b);
    TidiedTrans(s, b, c);
    TidiedTrans(s, c, KpNormalize(s));
  }

  lemma DropLeadingMarkerNoLonger(s: string)
    ensures |DropLeadingMarker(s)| <= |s|
  {
  }

  lemma PageMarkerNoLonger(spaced: bool, s: string)
    ensures |Sub(PageMarker(spaced), s)| <= |s|
  {
    PageMarkerShrinks(spaced);
    SubNoLonger(PageMarker(spaced), s);
  }

  /** `_remove_page_markers` never lengthens the text. */
  lemma KpPageMarkersNoLonger(s: string)
    ensures |KpPageMarkers(s)| <= |s|
  {
    PageMarkerNoLonger(true, s);
    PageMarkerNoLonger(false, Sub(PageMarker(true), s));
    DropLeadingMarkerNoLonger(Sub(PageMarker(false), Sub(PageMarker(true), s)));
  }

  /** `_remove_page_numbers` never lengthens the text. */
  lemma PakistanPageNumbersNoLonger(s: string)
    ensures |PakistanPageNumbers(s)| <= |s|
  {
    PageOfPagesShrinks();
    SubNoLonger(PageOfPages(), s);
  }

  lemma {:induction false} CollapseInnerBlanksKeeps(s: string, lineStart: bool)
    ensures Tidied(s, CollapseInnerBlanks(s, lineStart))
    decreases |s|
  {
    if s != [] {
      if s[0] == ' ' && !lineStart {
        var b := Span(s, IsBlank);
        var n := if b >= 2 then b else 1;
        CollapseInnerBlanksKeeps(s[n..], false);
        assert s == s[..n] + s[n..];
        EraseAppend(s[..n], s[n..], IsSpace);
        EraseAll(s[..n], IsSpace);
        EraseAppend(" ", CollapseInnerBlanks(s[n..], false), IsSpace);
      } else {
        CollapseInnerBlanksKeeps(s[1..], s[0] == '\n');
        assert s == [s[0]] + s[1..];
        EraseAppend([s[0]], s[1..], IsSpace);
        EraseAppend([s[0]], CollapseInnerBlanks(s[1..], s[0] == '\n'), IsSpace);
      }
    }
  }

  /** The Pakistan `_normalize_whitespace` never lengthens and only touches whitespace. */
  lemma PakistanNormalizeTidies(s: string)
    ensures Tidied(s, PakistanNormalize(s))
  {
    var a := CollapseInnerBlanks(s, true);
    var b := Sub(NewlineRun(3), a);
    var c := Sub(TrailingBlanks(), b);
    CollapseInnerBlanksKeeps(s, true);
    NewlineRunTidies(3, a);
    TrailingBlanksTidies(b);
    BlankBeforePunctTidies(c);
    TidiedTrans(s, a, b);
    TidiedTrans(s, b, c);
    TidiedTrans(s, c, PakistanNormalize(s));
  }

  lemma HeaderLineNoLonger(title: string, s: string)
    ensures |Sub(HeaderLine(title), s)| <= |s|
  {
    HeaderLineShrinks(title);
    SubNoLonger(HeaderLine(title), s);
  }

  /**
   * `_remove_repetitive_headers` keeps everything up to and including the
   * first occurrence of the title and never lengthens the text.
   */
  lemma RemoveRepeatedTitleKeepsFirst(s: string, g: string)
    ensures |RemoveRepeatedTitle(s, Some(g))| <= |s|
    ensures Strip(g) != [] && FindFirst(s, Strip(g)).Some? ==>
      var e := FindFirst(s, Strip(g)).value + |Strip(g)|;
      RemoveRepeatedTitle(s, Some(g))[..e] == s[..e]
  {
    var title := Strip(g);
    if title != [] && FindFirst(s, title).Some? {
      var e := FindFirst(s, title).value + |title|;
      HeaderLineNoLonger(title, s[e..]);
    }
  }

  // ----- What the rewriting passes produce ------------------------------------------

  predicate AllDigits(s: string) {
    forall i :: 0 <= i < |s| ==> IsDigit(s[i])
  }

  predicate AllSpace(s: string) {
    forall i :: 0 <= i < |s| ==> IsSpace(s[i])
  }

  lemma SpanOfAppend(a: string, b: string, p: char -> bool)
    requires forall i :: 0 <= i < |a| ==> p(a[i])
    requires b == [] || !p(b[0])
    ensures Span(a + b, p) == |a|
    decreases |a|
  {
    if a != [] {
      assert (a + b)[1..] == a[1..] + b;
      SpanOfAppend(a[1..], b, p);
    } else {
      assert a + b == b;
    }
  }

  lemma LineLengthOfAppend(a: string, b: string)
    requires '\n' !in a
    requires b == [] || b[0] == '\n'
    ensures LineLength(a + b) == |a|
    decreases |a|
  {
    if a != [] {
      assert (a + b)[1..] == a[1..] + b;
      LineLengthOfAppend(a[1..], b);
    } else {
      assert a + b == b;
    }
  }

  lemma PrefixOfAppend(a: string, t: string, m: string)
    ensures a <= t ==> a <= t + m
    ensures a <= t + m && |a| <= |t| ==> a <= t
    ensures a <= t + m && |a| > |t| ==> a[|t|] == m[0]
  {
    if a <= t + m && |a| > |t| {
      assert a[|t|] == (t + m)[|t|];
    }
  }

  /** The head found at a line of text is also found when the next line follows. */
  lemma {:induction false} HeadAtPrefix(heads: seq<string>, text: string, more: string)
    requires forall k :: 0 <= k < |heads| ==> '\n' !in heads[k]
    requires more == [] || more[0] == '\n'
    requires HeadAt(heads, text).Some?
    ensures HeadAt(heads, text + more) == HeadAt(heads, text)
  {
    PrefixOfAppend(heads[0], text, more);
    if !(heads[0] <= text) {
      HeadAtPrefix(heads[1..], text, more);
    }
  }

  /** `FootnoteAfterNumber` read off the length of the gap and of the line. */
  lemma FootnoteAfterNumberAt(heads: seq<string>, minTail: nat, caption: string,
                              number: string, u: string, w: nat, n: nat)
    requires w >= 1 && Span(u, IsSpace) == w && w + n < |u|
    requires HeadAt(heads, u[w..]).Some? && n >= HeadAt(heads, u[w..]).value + minTail
    requires LineLength(u[w..]) == n
    ensures FootnoteAfterNumber(heads, minTail, caption, number, u).Some?
    ensures FootnoteAfterNumber(heads, minTail, caption, number, u).value.len == 1 + |number| + w + n + 1
    ensures FootnoteAfterNumber(heads, minTail, caption, number, u).value.out
         == FootnoteText(caption, number, u[w..][..n])
  {
  }

  /** The footnote body after the number: the gap, a head, the text and its newline. */
  lemma FootnoteBody(heads: seq<string>, minTail: nat, caption: string,
                     number: string, gap: string, text: string, rest: string)
    requires forall k :: 0 <= k < |heads| ==> '\n' !in heads[k]
    requires gap != [] && AllSpace(gap)
    requires text != [] && !IsSpace(text[0]) && '\n' !in text
    requires HeadAt(heads, text).Some? && |text| >= HeadAt(heads, text).value + minTail
    ensures FootnoteAfterNumber(heads, minTail, caption, number, gap + (text + ("\n" + rest))).Some?
    ensures FootnoteAfterNumber(heads, minTail, caption, number, gap + (text + ("\n" + rest))).value.len
         == |number| + |gap| + |text| + 2
    ensures FootnoteAfterNumber(heads, minTail, caption, number, gap + (text + ("\n" + rest))).value.out
         == FootnoteText(caption, number, text)
  {
    var a := text + ("\n" + rest);
    var u := gap + a;
    SpanOfAppend(gap, a, IsSpace);
    assert u[|gap|..] == a;
    HeadAtPrefix(heads, text, "\n" + rest);
    LineLengthOfAppend(text, "\n" + rest);
    assert u[|gap|..][..|text|] == text;
    FootnoteAfterNumberAt(heads, minTail, caption, number, u, |gap|, |text|);
  }

  /** A footnote match is read off the digits after the leading newline. */
  lemma FootnoteAt(heads: seq<string>, minTail: nat, caption: string, s: string, d: nat)
    requires 1 <= d < |s| && s[0] == '\n' && Span(s[1..], IsDigit) == d
    ensures FootnoteHit(heads, minTail, caption, s)
         == FootnoteAfterNumber(heads, minTail, caption, s[1..][..d], s[1..][d..])
  {
  }

  /**
   * A footnote line `\n<number><gap><text>\n` whose text starts with one of the
   * heads and runs long enough is replaced by `\n\n[<caption> <number>: <text>]\n`
   * with the text stripped: the number and the text are kept.
   */
  lemma FootnoteRewrite(heads: seq<string>, minTail: nat, caption: string,
                        number: string, gap: string, text: string, rest: string)
    requires forall k :: 0 <= k < |heads| ==> '\n' !in heads[k]
    requires number != [] && AllDigits(number)
    requires gap != [] && AllSpace(gap)
    requires text != [] && !IsSpace(text[0]) && '\n' !in text
    requires HeadAt(heads, text).Some? && |text| >= HeadAt(heads, text).value + minTail
    ensures var s := "\n" + (number + (gap + (text + ("\n" + rest))));
      FootnoteHit(heads, minTail, caption, s).Some? &&
      FootnoteHit(heads, minTail, caption, s).value.len == |number| + |gap| + |text| + 2 &&
      FootnoteHit(heads, minTail, caption, s).value.out == FootnoteText(caption, number, text)
  {
    var b := gap + (text + ("\n" + rest));
    var c := number + b;
    var s := "\n" + c;
    assert s[1..] == c;
    SpanOfAppend(number, b, IsDigit);
    assert c[..|number|] == number && c[|number|..] == b;
    FootnoteAt(heads, minTail, caption, s, |number|);
    FootnoteBody(heads, minTail, caption, number, gap, text, rest);
  }

  // The amendment note, layer by layer.

  lemma NoteLengthOf(gap: string, note: string, rest: string)
    requires gap != [] && AllSpace(gap)
    requires note != [] && !IsSpace(note[0]) && '\n' !in note
    requires rest == [] || rest[0] == '\n'
    ensures NoteLength(gap + (note + rest)).Some?
    ensures NoteLength(gap + (note + rest)).value == |gap| + |note|
  {
    var y := gap + (note + rest);
    SpanOfAppend(gap, note + rest, IsSpace);
    assert y[|gap|..] == note + rest;
    LineLengthOfAppend(note, rest);
  }

  lemma ByNoteOf(gap: string, gap2: string, note: string, rest: string)
    requires gap != [] && AllSpace(gap) && gap2 != [] && AllSpace(gap2)
    requires note != [] && !IsSpace(note[0]) && '\n' !in note
    requires rest == [] || rest[0] == '\n'
    ensures ByNote(gap + ("by" + (gap2 + (note + rest)))).Some?
    ensures ByNote(gap + ("by" + (gap2 + (note + rest)))).value == |gap| + 2 + |gap2| + |note|
  {
    var y := gap2 + (note + rest);
    var x := gap + ("by" + y);
    SpanOfAppend(gap, "by" + y, IsSpace);
    assert x[|gap|..] == "by" + y;
    assert x[|gap| + 2..] == y;
    NoteLengthOf(gap2, note, rest);
  }

  lemma AmendmentAfterWordOf(dot: string, gap: string, gap2: string, note: string, rest: string)
    requires dot == "" || dot == "."
    requires gap != [] && AllSpace(gap) && gap2 != [] && AllSpace(gap2)
    requires note != [] && !IsSpace(note[0]) && '\n' !in note
    requires rest == [] || rest[0] == '\n'
    ensures AmendmentAfterWord(dot + (gap + ("by" + (gap2 + (note + rest))))).Some?
    ensures AmendmentAfterWord(dot + (gap + ("by" + (gap2 + (note + rest))))).value
         == |dot| + |gap| + 2 + |gap2| + |note|
  {
    var x := gap + ("by" + (gap2 + (note + rest)));
    ByNoteOf(gap, gap2, note, rest);
    if dot == "" {
      assert dot + x == x && x[0] == gap[0];
    } else {
      assert (dot + x)[1..] == x;
    }
  }

  lemma AmendmentLengthOf(word: string, dot: string, gap: string, gap2: string, note: string, rest: string)
    requires word != [] && forall i :: 0 <= i < |word| ==> IsLetter(word[i])
    requires dot == "" || dot == "."
    requires gap != [] && AllSpace(gap) && gap2 != [] && AllSpace(gap2)
    requires note != [] && !IsSpace(note[0]) && '\n' !in note
    requires rest == [] || rest[0] == '\n'
    ensures AmendmentLength(word + (dot + (gap + ("by" + (gap2 + (note + rest)))))).Some?
    ensures AmendmentLength(word + (dot + (gap + ("by" + (gap2 + (note + rest)))))).value
         == |word| + |dot| + |gap| + 2 + |gap2| + |note|
  {
    var v := dot + (gap + ("by" + (gap2 + (note + rest))));
    assert v[0] == '.' || IsSpace(v[0]);
    SpanOfAppend(word, v, IsLetter);
    assert (word + v)[|word|..] == v;
    AmendmentAfterWordOf(dot, gap, gap2, note, rest);
  }

  /** An amendment match is read off the digits after the leading newline. */
  lemma AmendmentAt(s: string, d: nat, m: nat)
    requires 1 <= d < |s| && s[0] == '\n' && Span(s[1..], IsDigit) == d
    requires AmendmentLength(s[1..][d..]).Some? && AmendmentLength(s[1..][d..]).value == m
    ensures AmendmentNoteHit(s).Some?
    ensures AmendmentNoteHit(s).value.len == 1 + d + m
    ensures AmendmentNoteHit(s).value.out == "\n(" + s[1..][d..][..m] + ")"
  {
  }

  lemma AmendmentSplit(word: string, dot: string, gap: string, gap2: string, note: string, rest: string)
    ensures (word + (dot + (gap + ("by" + (gap2 + note))))) + rest
         == word + (dot + (gap + ("by" + (gap2 + (note + rest)))))
  {
  }

  /**
   * `\n<number><word><dot><gap>by<gap'><note>` becomes `\n(<word><dot><gap>by<gap'><note>)`:
   * the footnote number is dropped and the amendment text kept.
   */
  lemma AmendmentRewrite(number: string, word: string, dot: string, gap: string,
                         gap2: string, note: string, rest: string)
    requires number != [] && AllDigits(number)
    requires word != [] && forall i :: 0 <= i < |word| ==> IsLetter(word[i])
    requires dot == "" || dot == "."
    requires gap != [] && AllSpace(gap) && gap2 != [] && AllSpace(gap2)
    requires note != [] && !IsSpace(note[0]) && '\n' !in note
    requires rest == [] || rest[0] == '\n'
    ensures var amendment := word + (dot + (gap + ("by" + (gap2 + note))));
      var s := "\n" + (number + (amendment + rest));
      AmendmentNoteHit(s).Some? &&
      AmendmentNoteHit(s).value.len == 1 + |number| + |amendment| &&
      AmendmentNoteHit(s).value.out == "\n(" + amendment + ")"
  {
    var amendment := word + (dot + (gap + ("by" + (gap2 + note))));
    var u := amendment + rest;
    var s := "\n" + (number + u);
    AmendmentSplit(word, dot, gap, gap2, note, rest);
    AmendmentLengthOf(word, dot, gap, gap2, note, rest);
    assert s[1..] == number + u;
    SpanOfAppend(number, u, IsDigit);
    assert s[1..][|number|..] == u;
    assert u[..|amendment|] == amendment;
    AmendmentAt(s, |number|, |amendment|);
  }

  // The KP page marker, layer by layer.

  lemma PageWordOf(g2: string, word: string, g3: string, rest: string)
    requires AllSpace(g2) && AllSpace(g3) && '\n' !in g3
    requires |word| == 4 && LowerAll(word) == "page"
    requires rest == [] || !IsSpace(rest[0])
    ensures PageWord(g2 + (word + (g3 + ("\n" + rest))), false).Some?
    ensures PageWord(g2 + (word + (g3 + ("\n" + rest))), false).value == |g2| + 4 + |g3| + 1
  {
    var m6 := g3 + ("\n" + rest);
    var m5 := word + m6;
    SpanOfAppend(g2, m5, IsSpace);
    assert (g2 + m5)[|g2|..] == m5;
    assert CiPrefix("page", m5) by {
      forall q | 0 <= q < 4 ensures Lower(m5[q]) == "page"[q] {
        assert m5[q] == word[q];
        assert LowerAll(word)[q] == Lower(word[q]);
      }
    }
    assert m5[4..] == m6;
    WsThroughNewlineOf(g3, rest);
  }

  lemma WsThroughNewlineOf(g3: string, rest: string)
    requires AllSpace(g3) && '\n' !in g3
    requires rest == [] || !IsSpace(rest[0])
    ensures WsThroughNewline(g3 + ("\n" + rest)).Some?
    ensures WsThroughNewline(g3 + ("\n" + rest)).value == |g3| + 1
  {
    var t := g3 + ("\n" + rest);
    assert t == (g3 + "\n") + rest;
    SpanOfAppend(g3 + "\n", rest, IsSpace);
    assert t[..|g3| + 1] == g3 + "\n";
    assert LastIndexOf(g3 + "\n", '\n') == Some(|g3|);
  }

  lemma PageBarOf(g1: string, v: string, spaced: bool)
    requires AllSpace(g1)
    ensures PageBar(g1 + ("|" + v), spaced) == Shift(|g1| + 1, PageWord(v, spaced))
  {
    var u := g1 + ("|" + v);
    SpanOfAppend(g1, "|" + v, IsSpace);
    assert u[|g1|..] == "|" + v;
    assert u[|g1| + 1..] == v;
  }

  lemma PageMarkerLengthOf(number: string, u: string, spaced: bool)
    requires number != [] && AllDigits(number)
    requires u == [] || !IsDigit(u[0])
    ensures PageMarkerLength(number + u, spaced) == Shift(|number|, PageBar(u, spaced))
  {
    SpanOfAppend(number, u, IsDigit);
    assert (number + u)[|number|..] == u;
  }

  /** A page-marker match is read off the marker after the leading newline. */
  lemma PageMarkerAt(s: string, spaced: bool)
    requires s != [] && s[0] == '\n' && PageMarkerLength(s[1..], spaced).Some?
    ensures PageMarkerHit(spaced, s).Some?
    ensures PageMarkerHit(spaced, s).value.len == 1 + PageMarkerLength(s[1..], spaced).value
    ensures PageMarkerHit(spaced, s).value.out == "\n"
  {
  }

  /**
   * A KP page-marker line `\n<number><gap>|<gap>Page<gap>\n` (any case of
   * `Page`) is replaced by a single newline.
   */
  lemma PageMarkerRemoved(number: string, g1: string, g2: string, word: string, g3: string, rest: string)
    requires number != [] && AllDigits(number)
    requires AllSpace(g1) && AllSpace(g2) && AllSpace(g3) && '\n' !in g3
    requires |word| == 4 && LowerAll(word) == "page"
    requires rest == [] || !IsSpace(rest[0])
    ensures var s := "\n" + (number + (g1 + ("|" + (g2 + (word + (g3 + ("\n" + rest)))))));
      PageMarkerHit(false, s).Some? &&
      PageMarkerHit(false, s).value.len == |number| + |g1| + |g2| + |g3| + 7 &&
      PageMarkerHit(false, s).value.out == "\n"
  {
    var v := g2 + (word + (g3 + ("\n" + rest)));
    var u := g1 + ("|" + v);
    var s := "\n" + (number + u);
    PageWordOf(g2, word, g3, rest);
    PageBarOf(g1, v, false);
    assert u[0] == '|' || IsSpace(u[0]);
    PageMarkerLengthOf(number, u, false);
    assert s[1..] == number + u;
    PageMarkerAt(s, false);
  }
}
