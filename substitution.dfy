/**
 * The regular-expression substitutions of the four cleaners, as `re.sub` runs
 * them: scan from the left, replace each match, resume after it.  A pattern
 * is a `Matcher`: the match (if any) that Python's backtracking engine finds
 * starting at the first character of a text.  Every pattern used here
 * matches at least one character, so the scan always moves forward.
 *
 * `\s` is Python's whitespace (`IsSpace`) and `\d` the ASCII digits;
 * `re.IGNORECASE` is ASCII case folding (the folded letters, p, a, g, e, o,
 * f, have no other case variants).
 */
module Substitution {
  import opened Wrappers
  import opened Strings

  /** A match at the start of the text: its length and its replacement text. */
  datatype Hit = Hit(len: nat, out: string)

  /** A compiled pattern together with its replacement. */
  type Matcher = string -> Option<Hit>

  /** Every match is non-empty and lies inside the text. */
  ghost predicate Advances(m: Matcher) {
    forall t :: m(t).Some? ==> 1 <= m(t).value.len <= |t|
  }

  /** The replacement is never longer than what it replaces. */
  ghost predicate Shrinks(m: Matcher) {
    forall t :: m(t).Some? ==> |m(t).value.out| <= m(t).value.len
  }

  /** The replacement has the same visible characters as what it replaces. */
  ghost predicate KeepsVisible(m: Matcher) {
    forall t :: m(t).Some? && m(t).value.len <= |t| ==>
      Erase(m(t).value.out, IsSpace) == Erase(t[..m(t).value.len], IsSpace)
  }

  // ----- Pieces of patterns -----------------------------------------------

  function Lead(s: string): nat {
    Span(s, IsNewline)
  }

  /** `\s*\n` at the start of `t`: the whitespace run, backtracked to its last newline. */
  function WsThroughNewline(t: string): (r: Option<nat>)
    ensures r.Some? ==> 1 <= r.value <= |t| && t[r.value - 1] == '\n'
    ensures r.Some? ==> forall i :: 0 <= i < r.value ==> IsSpace(t[i])
  {
    var w := Span(t, IsSpace);
    match LastIndexOf(t[..w], '\n')
    case None => None
    case Some(j) => assert t[..w][j] == t[j]; Some(j + 1)
  }

  /** `t` starts with `lit` ignoring case (`lit` is lower case). */
  predicate CiPrefix(lit: string, t: string) {
    |lit| <= |t| && forall i :: 0 <= i < |lit| ==> Lower(t[i]) == lit[i]
  }

  /** The letters of `word` ignoring case with `\s*` between them: `P\s*a\s*g\s*e`. */
  function SpacedLetters(word: string, t: string): (r: Option<nat>)
    requires word != []
    ensures r.Some? ==> |word| <= r.value <= |t|
    decreases |word|
  {
    if t == [] || Lower(t[0]) != word[0] then None
    else if |word| == 1 then Some(1)
    else
      var w := Span(t[1..], IsSpace);
      match SpacedLetters(word[1..], t[1 + w..])
      case None => None
      case Some(n) => Some(1 + w + n)
  }

  /** `k` more than a length, if there is one. */
  function Shift(k: nat, o: Option<nat>): (r: Option<nat>)
    ensures r.Some? <==> o.Some?
    ensures r.Some? ==> r.value == k + o.value
  {
    match o
    case None => None
    case Some(n) => Some(k + n)
  }

  /** `\d+\s*\|\s*P\s*a\s*g\s*e\s*\n` (or with `Page`), ignoring case, at the start of `t`. */
  function PageMarkerLength(t: string, spaced: bool): (r: Option<nat>)
    ensures r.Some? ==> 7 <= r.value <= |t|
  {
    var d := Span(t, IsDigit);
    if d == 0 then None else Shift(d, PageBar(t[d..], spaced))
  }

  /** `\s*\|` and the rest of a page marker. */
  function PageBar(u: string, spaced: bool): (r: Option<nat>)
    ensures r.Some? ==> 6 <= r.value <= |u|
  {
    var i := Span(u, IsSpace);
    if i == |u| || u[i] != '|' then None else Shift(i + 1, PageWord(u[i + 1..], spaced))
  }

  /** `\s*P\s*a\s*g\s*e\s*\n` (or `\s*Page\s*\n`), ignoring case. */
  function PageWord(v: string, spaced: bool): (r: Option<nat>)
    ensures r.Some? ==> 5 <= r.value <= |v|
  {
    var j := Span(v, IsSpace);
    var x := v[j..];
    var word := if spaced then SpacedLetters("page", x)
                else if CiPrefix("page", x) then Some(4) else None;
    match word
    case None => None
    case Some(n) => Shift(j + n, WsThroughNewline(x[n..]))
  }

  /** The length of the first of `heads` that `t` starts with. */
  function HeadAt(heads: seq<string>, t: string): (r: Option<nat>)
    ensures r.Some? ==> exists k :: 0 <= k < |heads| && heads[k] <= t && r.value == |heads[k]|
  {
    if heads == [] then None
    else if heads[0] <= t then Some(|heads[0]|)
    else
      var r := HeadAt(heads[1..], t);
      assert r.Some? ==> exists k :: 1 <= k < |heads| && heads[k] <= t && r.value == |heads[k]| by {
        if r.Some? {
          var k :| 0 <= k < |heads[1..]| && heads[1..][k] <= t && r.value == |heads[1..][k]|;
          assert heads[k + 1] == heads[1..][k];
        }
      }
      r
  }

  /** Largest index of a character other than a newline. */
  function LastNonNewline(u: string): (r: Option<nat>)
    ensures r.Some? ==> r.value < |u| && u[r.value] != '\n'
    ensures r.Some? ==> forall i :: r.value < i < |u| ==> u[i] == '\n'
    ensures r.None? ==> forall i :: 0 <= i < |u| ==> u[i] == '\n'
  {
    if u == [] then None
    else if u[|u| - 1] != '\n' then Some(|u| - 1)
    else LastNonNewline(u[..|u| - 1])
  }

  // ----- Matches of each pattern ------------------------------------------

  function NewlineRunHit(min: nat, s: string): (r: Option<Hit>)
    ensures r.Some? ==> 1 <= r.value.len <= |s|
    ensures r.Some? && min >= 2 ==> |r.value.out| <= r.value.len
  {
    var n := Lead(s);
    if n >= min && n >= 1 then Some(Hit(n, "\n\n")) else None
  }

  function NewlineTripleHit(s: string): (r: Option<Hit>)
    ensures r.Some? ==> 1 <= r.value.len <= |s|
    ensures r.Some? ==> |r.value.out| <= r.value.len
  {
    if "\n\n\n" <= s then Some(Hit(3, "\n\n")) else None
  }

  function TrailingBlanksHit(s: string): (r: Option<Hit>)
    ensures r.Some? ==> 1 <= r.value.len <= |s|
    ensures r.Some? ==> |r.value.out| <= r.value.len
  {
    var b := Span(s, IsBlank);
    if b >= 1 && b < |s| && s[b] == '\n' then Some(Hit(b + 1, "\n")) else None
  }

  function DeepIndentHit(s: string): (r: Option<Hit>)
    ensures r.Some? ==> 1 <= r.value.len <= |s|
    ensures r.Some? ==> |r.value.out| <= r.value.len
  {
    if s == [] || s[0] != '\n' then None
    else
      var b := Span(s[1..], IsBlank);
      if b >= 3 then Some(Hit(1 + b, "\n ")) else None
  }

  function RuleLineHit(marks: set<char>, s: string): (r: Option<Hit>)
    ensures r.Some? ==> 1 <= r.value.len <= |s|
    ensures r.Some? ==> |r.value.out| <= r.value.len
  {
    if s == [] || s[0] != '\n' then None
    else
      var i := 1 + Span(s[1..], IsSpace);
      var k := Span(s[i..], c => c in marks);
      if k < 10 then None
      else match WsThroughNewline(s[i + k..])
        case None => None
        case Some(n) => Some(Hit(i + k + n, "\n\n"))
  }

  function BlankRuleLineHit(marks: set<char>, s: string): (r: Option<Hit>)
    ensures r.Some? ==> 1 <= r.value.len <= |s|
    ensures r.Some? ==> |r.value.out| <= r.value.len
  {
    if s == [] || s[0] != '\n' then None
    else
      var run := Span(s[1..], c => c in marks || IsSpace(c));
      match LastIndexOf(s[1..][..run], '\n')
      case None => None
      case Some(e) => if e >= 15 then Some(Hit(e + 2, "\n\n")) else None
  }

  function PageMarkerHit(spaced: bool, s: string): (r: Option<Hit>)
    ensures r.Some? ==> 1 <= r.value.len <= |s|
    ensures r.Some? ==> |r.value.out| <= r.value.len
  {
    if s == [] || s[0] != '\n' then None
    else match PageMarkerLength(s[1..], spaced)
      case None => None
      case Some(n) => Some(Hit(1 + n, "\n"))
  }

  function PageOfPagesHit(s: string): (r: Option<Hit>)
    ensures r.Some? ==> 1 <= r.value.len <= |s|
    ensures r.Some? ==> |r.value.out| <= r.value.len
  {
    if !CiPrefix("page", s) then None
    else
      var b := 4 + Span(s[4..], IsSpace);
      var c := b + Span(s[b..], IsDigit);
      var e := c + Span(s[c..], IsSpace);
      if b == 4 || c == b || e == c || !CiPrefix("of", s[e..]) then None
      else
        var g := e + 2 + Span(s[e + 2..], IsSpace);
        var h := g + Span(s[g..], IsDigit);
        if g == e + 2 || h == g then None
        else Some(Hit(h + Span(s[h..], IsSpace), ""))
  }

  function HeaderLineHit(title: string, s: string): (r: Option<Hit>)
    ensures r.Some? ==> 1 <= r.value.len <= |s|
    ensures r.Some? ==> |r.value.out| <= r.value.len
  {
    if title == [] || IsSpace(title[0]) || s == [] || s[0] != '\n' then None
    else
      var i := 1 + Span(s[1..], IsSpace);
      if !(title <= s[i..]) then None
      else match WsThroughNewline(s[i + |title|..])
        case None => None
        case Some(n) => Some(Hit(i + |title| + n, "\n\n"))
  }

  predicate IsClosingPunct(c: char) {
    c == '.' || c == ',' || c == ';' || c == ':' || c == ')'
  }

  function BlankBeforePunctHit(s: string): (r: Option<Hit>)
    ensures r.Some? ==> 1 <= r.value.len <= |s|
    ensures r.Some? ==> |r.value.out| <= r.value.len
  {
    var b := Span(s, IsBlank);
    if b >= 1 && b < |s| && IsClosingPunct(s[b]) then Some(Hit(b + 1, [s[b]])) else None
  }

  function BareNoteNumberHit(s: string): (r: Option<Hit>)
    ensures r.Some? ==> 1 <= r.value.len <= |s|
    ensures r.Some? ==> |r.value.out| <= r.value.len
  {
    if s == [] || s[0] != '\n' then None
    else
      var d := Span(s[1..], IsDigit);
      if d == 0 then None
      else match WsThroughNewline(s[1 + d..])
        case None => None
        case Some(n) => Some(Hit(1 + d + n, "\n"))
  }

  /** Length of `[A-Za-z]+\.?\s+by\s+[^\n]+` at the start of `u`, or none. */
  function AmendmentLength(u: string): (r: Option<nat>)
    ensures r.Some? ==> 1 <= r.value <= |u|
  {
    var a := Span(u, IsLetter);
    if a == 0 then None else Shift(a, AmendmentAfterWord(u[a..]))
  }

  /** `\.?\s+by\s+[^\n]+`: the optional dot can only be taken when spaces follow it. */
  function AmendmentAfterWord(v: string): (r: Option<nat>)
    ensures r.Some? ==> r.value <= |v|
  {
    if v != [] && v[0] == '.' then Shift(1, ByNote(v[1..])) else ByNote(v)
  }

  /** `\s+by\s+[^\n]+` */
  function ByNote(x: string): (r: Option<nat>)
    ensures r.Some? ==> r.value <= |x|
  {
    var w := Span(x, IsSpace);
    if w == 0 || !("by" <= x[w..]) then None
    else Shift(w + 2, NoteLength(x[w + 2..]))
  }

  /**
   * `\s+[^\n]+`: the spaces run greedily; when they reach the end of the
   * text they give back characters until one that is not a newline can
   * start the note.
   */
  function NoteLength(y: string): (r: Option<nat>)
    ensures r.Some? ==> 2 <= r.value <= |y|
  {
    var ws := Span(y, IsSpace);
    if ws == 0 then None
    else if ws < |y| then Some(ws + LineLength(y[ws..]))
    else match LastNonNewline(y[1..])
      case None => None
      case Some(q) => Some(1 + q + LineLength(y[1 + q..]))
  }

  function AmendmentNoteHit(s: string): (r: Option<Hit>)
    ensures r.Some? ==> 1 <= r.value.len <= |s|
  {
    if s == [] || s[0] != '\n' then None
    else
      var d := Span(s[1..], IsDigit);
      var u := s[1..][d..];
      if d == 0 then None
      else match AmendmentLength(u)
        case None => None
        case Some(m) => Some(Hit(1 + d + m, AmendmentText(u[..m])))
  }

  /** The replacement of an amendment note: `\n(<group 1>)`. */
  function AmendmentText(amendment: string): string {
    "\n(" + amendment + ")"
  }

  function FootnoteHit(heads: seq<string>, minTail: nat, caption: string, s: string): (r: Option<Hit>)
    ensures r.Some? ==> 1 <= r.value.len <= |s|
  {
    if s == [] || s[0] != '\n' then None
    else
      var d := Span(s[1..], IsDigit);
      if d == 0 then None
      else FootnoteAfterNumber(heads, minTail, caption, s[1..][..d], s[1..][d..])
  }

  /** The rest of a footnote match once `\n(\d+)` has matched `number`; `u` is what follows. */
  function FootnoteAfterNumber(heads: seq<string>, minTail: nat, caption: string,
                               number: string, u: string): (r: Option<Hit>)
    ensures r.Some? ==> 1 + |number| < r.value.len <= 1 + |number| + |u|
  {
    var w := Span(u, IsSpace);
    var v := u[w..];
    if w == 0 then None
    else match HeadAt(heads, v)
      case None => None
      case Some(h) =>
        var n := LineLength(v);
        if n < h + minTail || n == |v| then None
        else Some(Hit(1 + |number| + w + n + 1, FootnoteText(caption, number, v[..n])))
  }

  /** The replacement of a footnote: `\n\n[<caption> <number>: <text stripped>]\n`. */
  function FootnoteText(caption: string, number: string, text: string): string {
    "\n\n[" + caption + " " + number + ": " + Strip(text) + "]\n"
  }


  // ----- The patterns ------------------------------------------------------

  /** `\n{min,}` replaced by two newlines. */
  function NewlineRun(min: nat): (m: Matcher)
  {
    t => NewlineRunHit(min, t)
  }

  /** `\n{3}` replaced by two newlines. */
  function NewlineTriple(): (m: Matcher)
  {
    t => NewlineTripleHit(t)
  }

  /** ` +\n` replaced by a newline. */
  function TrailingBlanks(): (m: Matcher)
  {
    t => TrailingBlanksHit(t)
  }

  /** `\n {3,}` replaced by a newline and one space. */
  function DeepIndent(): (m: Matcher)
  {
    t => DeepIndentHit(t)
  }

  /** `\n\s*[marks]{10,}\s*\n` replaced by two newlines. */
  function RuleLine(marks: set<char>): (m: Matcher)
  {
    t => RuleLineHit(marks, t)
  }

  /** `\n\s*[marks\s]{15,}\s*\n` replaced by two newlines. */
  function BlankRuleLine(marks: set<char>): (m: Matcher)
  {
    t => BlankRuleLineHit(marks, t)
  }

  /** `\n\d+\s*\|\s*P\s*a\s*g\s*e\s*\n` (spaced) or `\n\d+\s*\|\s*Page\s*\n`, ignoring case, replaced by a newline. */
  function PageMarker(spaced: bool): (m: Matcher)
  {
    t => PageMarkerHit(spaced, t)
  }

  /** `Page\s+\d+\s+of\s+\d+\s*\n?`, ignoring case, removed. */
  function PageOfPages(): (m: Matcher)
  {
    t => PageOfPagesHit(t)
  }

  /** `\n\s*<title>\s*\n` for a stripped, non-empty title, replaced by two newlines. */
  function HeaderLine(title: string): (m: Matcher)
  {
    t => HeaderLineHit(title, t)
  }

  /** ` +([.,;:)])` replaced by the punctuation mark. */
  function BlankBeforePunct(): (m: Matcher)
  {
    t => BlankBeforePunctHit(t)
  }

  /** `\n\d+\s*\n` replaced by a newline. */
  function BareNoteNumber(): (m: Matcher)
  {
    t => BareNoteNumberHit(t)
  }

  /** `\n\d+([A-Za-z]+\.?\s+by\s+[^\n]+)` replaced by `\n(` group 1 `)`. */
  function AmendmentNote(): (m: Matcher)
  {
    t => AmendmentNoteHit(t)
  }

  /**
   * `\n(\d+)\s+((?:heads)[^\n]{minTail,})\n` replaced by
   * `\n\n[<caption> <group 1>: <group 2 stripped>]\n`.
   */
  function Footnote(heads: seq<string>, minTail: nat, caption: string): (m: Matcher)
  {
    t => FootnoteHit(heads, minTail, caption, t)
  }

  // ----- Every pattern advances; all but the note rewrites shrink ---------
  //
  // Each lemma below only unfolds one matcher into its hit function; the
  // facts follow from the matcher's definition, with no induction behind them.

  lemma NewlineRunShrinks(min: nat)
    ensures Advances(NewlineRun(min))
    ensures min >= 2 ==> Shrinks(NewlineRun(min))
  {
    assert forall t :: NewlineRun(min)(t) == NewlineRunHit(min, t);
  }

  lemma NewlineTripleShrinks()
    ensures Advances(NewlineTriple())
    ensures Shrinks(NewlineTriple())
  {
    assert forall t :: NewlineTriple()(t) == NewlineTripleHit(t);
  }

  lemma TrailingBlanksShrinks()
    ensures Advances(TrailingBlanks())
    ensures Shrinks(TrailingBlanks())
  {
    assert forall t :: TrailingBlanks()(t) == TrailingBlanksHit(t);
  }

  lemma DeepIndentShrinks()
    ensures Advances(DeepIndent())
    ensures Shrinks(DeepIndent())
  {
    assert forall t :: DeepIndent()(t) == DeepIndentHit(t);
  }

  lemma RuleLineShrinks(marks: set<char>)
    ensures Advances(RuleLine(marks))
    ensures Shrinks(RuleLine(marks))
  {
    assert forall t :: RuleLine(marks)(t) == RuleLineHit(marks, t);
  }

  lemma BlankRuleLineShrinks(marks: set<char>)
    ensures Advances(BlankRuleLine(marks))
    ensures Shrinks(BlankRuleLine(marks))
  {
    assert forall t :: BlankRuleLine(marks)(t) == BlankRuleLineHit(marks, t);
  }

  lemma PageMarkerShrinks(spaced: bool)
    ensures Advances(PageMarker(spaced))
    ensures Shrinks(PageMarker(spaced))
  {
    assert forall t :: PageMarker(spaced)(t) == PageMarkerHit(spaced, t);
  }

  lemma PageOfPagesShrinks()
    ensures Advances(PageOfPages())
    ensures Shrinks(PageOfPages())
  {
    assert forall t :: PageOfPages()(t) == PageOfPagesHit(t);
  }

  lemma HeaderLineShrinks(title: string)
    ensures Advances(HeaderLine(title))
    ensures Shrinks(HeaderLine(title))
  {
    assert forall t :: HeaderLine(title)(t) == HeaderLineHit(title, t);
  }

  lemma BlankBeforePunctShrinks()
    ensures Advances(BlankBeforePunct())
    ensures Shrinks(BlankBeforePunct())
  {
    assert forall t :: BlankBeforePunct()(t) == BlankBeforePunctHit(t);
  }

  lemma BareNoteNumberShrinks()
    ensures Advances(BareNoteNumber())
    ensures Shrinks(BareNoteNumber())
  {
    assert forall t :: BareNoteNumber()(t) == BareNoteNumberHit(t);
  }

  lemma AmendmentNoteAdvances()
    ensures Advances(AmendmentNote())
  {
    assert forall t :: AmendmentNote()(t) == AmendmentNoteHit(t);
  }

  lemma FootnoteAdvances(heads: seq<string>, minTail: nat, caption: string)
    ensures Advances(Footnote(heads, minTail, caption))
  {
    assert forall t :: Footnote(heads, minTail, caption)(t) == FootnoteHit(heads, minTail, caption, t);
  }

  // ----- Substitution ------------------------------------------------------

  /**
   * `re.sub(pattern, repl, s)`: leftmost, non-overlapping replacement of every
   * match.  Every pattern here `Advances`, so the scan always takes the whole
   * match; the guard only makes the scan total for any matcher.
   */
  function Sub(m: Matcher, s: string): string
    decreases |s|
  {
    if s == [] then []
    else match m(s)
      case Some(h) =>
        if 1 <= h.len <= |s| then h.out + Sub(m, s[h.len..])
        else [s[0]] + Sub(m, s[1..])
      case None => [s[0]] + Sub(m, s[1..])
  }

  // ----- Patterns that only shorten or only touch whitespace ----------------

  lemma BlanksOnly(s: string, n: nat)
    requires n <= |s| && forall i :: 0 <= i < n ==> IsSpace(s[i])
    ensures Erase(s[..n], IsSpace) == []
  {
    EraseAll(s[..n], IsSpace);
  }

  /** A run of newlines becomes two newlines. The visible characters of each match survive. */
  lemma NewlineRunHitKeepsVisible(min: nat)
    ensures forall t :: NewlineRunHit(min, t).Some? ==>
      Erase(NewlineRunHit(min, t).value.out, IsSpace) == Erase(t[..NewlineRunHit(min, t).value.len], IsSpace)
  {
    forall t | NewlineRunHit(min, t).Some?
      ensures Erase(NewlineRunHit(min, t).value.out, IsSpace) == Erase(t[..NewlineRunHit(min, t).value.len], IsSpace)
    {
      EraseAll("\n\n", IsSpace);
      BlanksOnly(t, Lead(t));
    }
  }

  lemma NewlineRunKeepsVisible(min: nat)
    ensures KeepsVisible(NewlineRun(min))
  {
    NewlineRunHitKeepsVisible(min);
    assert forall t :: NewlineRun(min)(t) == NewlineRunHit(min, t);
  }

  /** Three newlines become two. The visible characters of each match survive. */
  lemma NewlineTripleHitKeepsVisible()
    ensures forall t :: NewlineTripleHit(t).Some? ==>
      Erase(NewlineTripleHit(t).value.out, IsSpace) == Erase(t[..NewlineTripleHit(t).value.len], IsSpace)
  {
    forall t | NewlineTripleHit(t).Some?
      ensures Erase(NewlineTripleHit(t).value.out, IsSpace) == Erase(t[..NewlineTripleHit(t).value.len], IsSpace)
    {
      EraseAll("\n\n", IsSpace);
      BlanksOnly(t, 3);
    }
  }

  lemma NewlineTripleKeepsVisible()
    ensures KeepsVisible(NewlineTriple())
  {
    NewlineTripleHitKeepsVisible();
    assert forall t :: NewlineTriple()(t) == NewlineTripleHit(t);
  }

  /** Blanks before a newline are dropped. The visible characters of each match survive. */
  lemma TrailingBlanksHitKeepsVisible()
    ensures forall t :: TrailingBlanksHit(t).Some? ==>
      Erase(TrailingBlanksHit(t).value.out, IsSpace) == Erase(t[..TrailingBlanksHit(t).value.len], IsSpace)
  {
    forall t | TrailingBlanksHit(t).Some?
      ensures Erase(TrailingBlanksHit(t).value.out, IsSpace) == Erase(t[..TrailingBlanksHit(t).value.len], IsSpace)
    {
      EraseAll("\n", IsSpace);
      BlanksOnly(t, Span(t, IsBlank) + 1);
    }
  }

  lemma TrailingBlanksKeepsVisible()
    ensures KeepsVisible(TrailingBlanks())
  {
    TrailingBlanksHitKeepsVisible();
    assert forall t :: TrailingBlanks()(t) == TrailingBlanksHit(t);
  }

  /** A deep indent becomes one space. The visible characters of each match survive. */
  lemma DeepIndentHitKeepsVisible()
    ensures forall t :: DeepIndentHit(t).Some? ==>
      Erase(DeepIndentHit(t).value.out, IsSpace) == Erase(t[..DeepIndentHit(t).value.len], IsSpace)
  {
    forall t | DeepIndentHit(t).Some?
      ensures Erase(DeepIndentHit(t).value.out, IsSpace) == Erase(t[..DeepIndentHit(t).value.len], IsSpace)
    {
      EraseAll("\n ", IsSpace);
      BlanksOnly(t, 1 + Span(t[1..], IsBlank));
    }
  }

  lemma DeepIndentKeepsVisible()
    ensures KeepsVisible(DeepIndent())
  {
    DeepIndentHitKeepsVisible();
    assert forall t :: DeepIndent()(t) == DeepIndentHit(t);
  }

  /** Blanks before a closing mark are dropped. The visible characters of each match survive. */
  lemma BlankBeforePunctHitKeepsVisible()
    ensures forall t :: BlankBeforePunctHit(t).Some? ==>
      Erase(BlankBeforePunctHit(t).value.out, IsSpace) == Erase(t[..BlankBeforePunctHit(t).value.len], IsSpace)
  {
    forall t | BlankBeforePunctHit(t).Some?
      ensures Erase(BlankBeforePunctHit(t).value.out, IsSpace) == Erase(t[..BlankBeforePunctHit(t).value.len], IsSpace)
    {
      var b := Span(t, IsBlank);
      assert t[..b + 1] == t[..b] + [t[b]];
      EraseAppend(t[..b], [t[b]], IsSpace);
      BlanksOnly(t, b);
    }
  }

  lemma BlankBeforePunctKeepsVisible()
    ensures KeepsVisible(BlankBeforePunct())
  {
    BlankBeforePunctHitKeepsVisible();
    assert forall t :: BlankBeforePunct()(t) == BlankBeforePunctHit(t);
  }

  /** One step of the scan when the pattern matches at the start. */
  lemma SubHit(m: Matcher, s: string)
    requires m(s).Some? && 1 <= m(s).value.len <= |s|
    ensures Sub(m, s) == m(s).value.out + Sub(m, s[m(s).value.len..])
  {
  }

  /** One step of the scan when it does not: the first character is kept. */
  lemma SubMiss(m: Matcher, s: string)
    requires s != [] && m(s).None?
    ensures Sub(m, s) == [s[0]] + Sub(m, s[1..])
  {
  }

  /** A shrinking substitution never lengthens the text. */
  lemma {:induction false} SubNoLonger(m: Matcher, s: string)
    requires Shrinks(m)
    ensures |Sub(m, s)| <= |s|
    decreases |s|
  {
    if s != [] {
      if m(s).Some? && 1 <= m(s).value.len <= |s| {
        SubNoLonger(m, s[m(s).value.len..]);
      } else {
        SubNoLonger(m, s[1..]);
      }
    }
  }

  /** Replacing a prefix and a suffix by text with the same visible characters keeps them all. */
  lemma EraseJoin(s: string, n: nat, a: string, b: string)
    requires n <= |s|
    requires Erase(a, IsSpace) == Erase(s[..n], IsSpace)
    requires Erase(b, IsSpace) == Erase(s[n..], IsSpace)
    ensures Erase(a + b, IsSpace) == Erase(s, IsSpace)
  {
    EraseAppend(a, b, IsSpace);
    assert s == s[..n] + s[n..];
    EraseAppend(s[..n], s[n..], IsSpace);
  }

  /** A whitespace-only substitution keeps every visible character, in order. */
  lemma {:induction false} SubKeepsVisible(m: Matcher, s: string)
    requires KeepsVisible(m)
    ensures Erase(Sub(m, s), IsSpace) == Erase(s, IsSpace)
    decreases |s|
  {
    if s != [] {
      if m(s).Some? && 1 <= m(s).value.len <= |s| {
        var h := m(s).value;
        SubKeepsVisible(m, s[h.len..]);
        EraseJoin(s, h.len, h.out, Sub(m, s[h.len..]));
      } else {
        SubKeepsVisible(m, s[1..]);
        EraseJoin(s, 1, [s[0]], Sub(m, s[1..]));
      }
    }
  }

  /** Text without any match comes out unchanged. */
  lemma {:induction false} SubNoMatch(m: Matcher, s: string)
    requires forall i :: 0 <= i < |s| ==> m(s[i..]).None?
    ensures Sub(m, s) == s
    decreases |s|
  {
    if s != [] {
      assert m(s[0..]).None?;
      assert s[0..] == s;
      forall i | 0 <= i < |s[1..]| ensures m(s[1..][i..]).None? {
        assert s[1..][i..] == s[i + 1..];
      }
      SubNoMatch(m, s[1..]);
    }
  }
}
