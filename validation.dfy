/**
 * The four cleaners: which province each one serves, its text flow, and the
 * content-preservation check (`_validate_cleaning`) that decides whether the
 * cleaned text or the original is kept.
 *
 * The checks are written with the source's own fractions as exact reals; the
 * lemmas below give each of them as an integer inequality.
 */
module Validation {
  import opened Wrappers
  import opened Strings
  import opened Passes

  /** The four cleaners, one per source website. */
  datatype Province = SupremeCourt | Balochistan | Kp | Pakistan

  /** The `source_website` value a cleaner selects. */
  function SourceTag(p: Province): string {
    match p
    case SupremeCourt => "supremecourt"
    case Balochistan => "balochistan-code"
    case Kp => "kp-code"
    case Pakistan => "pakistan-code"
  }

  /** The folder under `data/text` and `data/cleaned` a cleaner works in. */
  function Folder(p: Province): string {
    match p
    case SupremeCourt => "supremecourt-judgments"
    case Balochistan => "balochistan-code"
    case Kp => "kp-code"
    case Pakistan => "pakistan-code"
  }

  /** The text flow of each `clean_text` before validation. */
  function Pipeline(p: Province, o: Oracles, s: string): string {
    match p
    case SupremeCourt => SupremePipeline(s)
    case Balochistan => BalochistanPipeline(s)
    case Kp => KpPipeline(s)
    case Pakistan => PakistanPipeline(o, s)
  }

  /** The `reason` of the entry a failing check appends to `validation_errors`. */
  datatype Reason =
    | ExcessiveReduction   // Supreme Court: more than 5% shorter
    | CaseTitleLost
    | JudgmentLost
    | SectionMismatch
    | ContentReduction
    | TooShort

  /** The phrases of the Supreme Court case-title check. */
  const CaseTitles: seq<string> := [
    "IN THE SUPREME COURT OF PAKISTAN", "SUPREME COURT OF PAKISTAN",
    "Civil Petition", "Criminal Appeal", "Constitutional Petition"]

  const JudgmentWords: seq<string> := ["JUDGMENT", "ORDER", "OPINION"]

  /** Some case-title phrase occurs in `t`, ignoring case. */
  predicate HasCaseTitle(t: string) {
    exists i :: 0 <= i < |CaseTitles| && IsSubstring(LowerAll(CaseTitles[i]), LowerAll(t))
  }

  /** Some judgment keyword occurs in the upper-cased `t`. */
  predicate HasJudgmentWord(t: string) {
    exists i :: 0 <= i < |JudgmentWords| && IsSubstring(JudgmentWords[i], UpperAll(t))
  }

  function Abs(x: int): nat {
    if x < 0 then -x else x
  }

  /** The Supreme Court `reduction` percentage. */
  function Reduction(originalLen: nat, cleanedLen: nat): real {
    if originalLen > 0 then (originalLen - cleanedLen) as real / originalLen as real * 100.0 else 0.0
  }

  /** The relative section difference of the Balochistan and KP checks. */
  function SectionDiff(originalSections: nat, cleanedSections: nat): real
    requires originalSections > 0
  {
    Abs(originalSections - cleanedSections) as real / originalSections as real
  }

  /** The largest section difference each of the Balochistan and KP checks allows. */
  function SectionTolerance(p: Province): real {
    if p == Balochistan then 0.02 else 0.05
  }

  /** The share of the original length a cleaned text must keep. */
  function KeptShare(p: Province): real {
    match p
    case Balochistan => 0.80
    case Kp => 0.75
    case _ => 0.5
  }

  /**
   * `_validate_cleaning`: the first check that fails, or `None` when all pass.
   * `sections` is the section counter of the three code cleaners.
   */
  function Verdict(p: Province, sections: string -> nat, original: string, cleaned: string): Option<Reason> {
    var ol, cl := |original|, |cleaned|;
    var os, cs := sections(original), sections(cleaned);
    match p
    case SupremeCourt =>
      if Reduction(ol, cl) > 5.0 then Some(ExcessiveReduction)
      else if HasCaseTitle(original) && !HasCaseTitle(cleaned) then Some(CaseTitleLost)
      else if HasJudgmentWord(original) && !HasJudgmentWord(cleaned) then Some(JudgmentLost)
      else None
    case Pakistan =>
      if os > 0 && (cs as real) < os as real * 0.9 then Some(SectionMismatch)
      else if (cl as real) < ol as real * KeptShare(p) then Some(ContentReduction)
      else if cl < 100 then Some(TooShort)
      else None
    case _ =>
      if os > 0 && SectionDiff(os, cs) > SectionTolerance(p) then Some(SectionMismatch)
      else if (cl as real) < ol as real * KeptShare(p) then Some(ContentReduction)
      else if cl < 100 then Some(TooShort)
      else None
  }

  /** `clean_text`: the cleaned text when it passes validation, else the original. */
  function CleanedText(p: Province, o: Oracles, text: string): string {
    var cleaned := Pipeline(p, o, text);
    if Verdict(p, o.sections, text, cleaned).None? then cleaned else text
  }

  // ----- The checks as integer inequalities -------------------------------------

  /** Comparing a quotient with a positive divisor is comparing the product. */
  lemma QuotientAbove(x: real, y: real, t: real)
    requires y > 0.0
    ensures x / y > t <==> x > t * y
  {
    var q := x / y;
    assert q * y == x;
    ProductAbove(q, t, y);
  }

  lemma ProductAbove(a: real, b: real, c: real)
    requires c > 0.0
    ensures a > b <==> a * c > b * c
  {
    assert a * c - b * c == (a - b) * c;
  }

  /** The Supreme Court length check: more than 5% of a non-empty original removed. */
  lemma ReductionExact(ol: nat, cl: nat)
    ensures Reduction(ol, cl) > 5.0 <==> ol > 0 && (ol - cl) * 100 > 5 * ol
  {
    if ol > 0 {
      var x, y := (ol - cl) as real, ol as real;
      assert Reduction(ol, cl) == x / y * 100.0;
      ProductAbove(x / y, 0.05, 100.0);
      QuotientAbove(x, y, 0.05);
    }
  }

  /** The Balochistan and KP section check: more than 2% (or 5%) of the sections differ. */
  lemma SectionDiffExact(p: Province, os: nat, cs: nat)
    requires os > 0 && (p == Balochistan || p == Kp)
    ensures SectionDiff(os, cs) > SectionTolerance(p) <==>
      Abs(os - cs) * (if p == Balochistan then 50 else 20) > os
  {
    QuotientAbove(Abs(os - cs) as real, os as real, SectionTolerance(p));
  }

  /** The length check of the three code cleaners. */
  lemma KeptShareExact(p: Province, ol: nat, cl: nat)
    requires p != SupremeCourt
    ensures (cl as real) < ol as real * KeptShare(p) <==>
      match p
      case Balochistan => cl * 5 < ol * 4
      case Kp => cl * 4 < ol * 3
      case _ => cl * 2 < ol
  {
  }

  /** The Pakistan section check: fewer than 90% of the sections remain. */
  lemma PakistanSectionsExact(os: nat, cs: nat)
    ensures (cs as real) < os as real * 0.9 <==> cs * 10 < os * 9
  {
  }

  /** An empty original never fails the Supreme Court length check. */
  lemma EmptyNeverReduced(cl: nat)
    ensures !(Reduction(0, cl) > 5.0)
  {
  }

  /** The Pakistan check never rejects a text because it gained sections. */
  lemma MoreSectionsPass(sections: string -> nat, original: string, cleaned: string)
    requires sections(cleaned) >= sections(original)
    ensures Verdict(Pakistan, sections, original, cleaned) != Some(SectionMismatch)
  {
  }

  /**
   * What a cleaned text that the code cleaners keep satisfies: at least 100
   * characters, the share of the original length and, for Balochistan and KP,
   * the section tolerance.
   */
  lemma CodeVerdictAccepts(p: Province, sections: string -> nat, original: string, cleaned: string)
    requires p != SupremeCourt && Verdict(p, sections, original, cleaned).None?
    ensures |cleaned| >= 100
    ensures match p
      case Balochistan => |cleaned| * 5 >= |original| * 4
      case Kp => |cleaned| * 4 >= |original| * 3
      case _ => |cleaned| * 2 >= |original|
    ensures p == Pakistan && sections(original) > 0 ==> sections(cleaned) * 10 >= sections(original) * 9
    ensures p == Balochistan && sections(original) > 0 ==>
      Abs(sections(original) - sections(cleaned)) * 50 <= sections(original)
    ensures p == Kp && sections(original) > 0 ==>
      Abs(sections(original) - sections(cleaned)) * 20 <= sections(original)
  {
    KeptShareExact(p, |original|, |cleaned|);
    if p == Pakistan {
      PakistanSectionsExact(sections(original), sections(cleaned));
    } else if sections(original) > 0 {
      SectionDiffExact(p, sections(original), sections(cleaned));
    }
  }

  /** What a cleaned judgment that the Supreme Court cleaner keeps satisfies. */
  lemma SupremeVerdictAccepts(sections: string -> nat, original: string, cleaned: string)
    requires Verdict(SupremeCourt, sections, original, cleaned).None?
    ensures (|original| - |cleaned|) * 100 <= 5 * |original|
    ensures HasCaseTitle(original) ==> HasCaseTitle(cleaned)
    ensures HasJudgmentWord(original) ==> HasJudgmentWord(cleaned)
  {
    ReductionExact(|original|, |cleaned|);
  }

  /** `clean_text` returns the cleaned text or the original, and a changed text passed the check. */
  lemma CleanedTextChoice(p: Province, o: Oracles, text: string)
    ensures CleanedText(p, o, text) == Pipeline(p, o, text) || CleanedText(p, o, text) == text
    ensures CleanedText(p, o, text) != text ==>
      Verdict(p, o.sections, text, CleanedText(p, o, text)).None?
  {
  }

  /**
   * A text the code cleaners change keeps at least half of its length (80%
   * for Balochistan, 75% for KP) and 100 characters.
   */
  lemma CleanedTextKeepsLength(p: Province, o: Oracles, text: string)
    requires p != SupremeCourt
    ensures var r := CleanedText(p, o, text);
      r == text || (|r| >= 100 && |r| * 2 >= |text|)
  {
    var r := CleanedText(p, o, text);
    if r != text {
      CodeVerdictAccepts(p, o.sections, text, r);
    }
  }

  /** The Supreme Court cleaner removes at most 5% of a judgment, and only whitespace. */
  lemma SupremeCleanedTextKeeps(o: Oracles, text: string)
    ensures var r := CleanedText(SupremeCourt, o, text);
      (|text| - |r|) * 100 <= 5 * |text| &&
      Erase(r, IsSpace) == Erase(text, IsSpace)
  {
    var r := CleanedText(SupremeCourt, o, text);
    if r != text {
      SupremeVerdictAccepts(o.sections, text, r);
      SupremeKeepsVisible(text);
    }
  }
}
