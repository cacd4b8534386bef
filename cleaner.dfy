/**
 * What the four cleaner classes share: choosing the documents of their source
 * that need cleaning, cleaning each text file into `data/cleaned/<folder>`,
 * and recording the result in the registry (`_update_metadata`).
 *
 * The file system is a map from a path's components (relative to the project
 * root) to its contents, `None` when the file exists but cannot be read as
 * text.  Cleaned files are not written into it; `ProcessAllFiles` returns the
 * writes it makes, in order.
 */
module Cleaning {
  import opened Wrappers
  import opened Strings
  import opened Paths
  import opened Registry
  import opened Passes
  import opened Validation

  type FileSystem = map<seq<string>, Option<string>>

  /** The entry `clean_file` hands on to `_update_metadata` for a cleaned file. */
  datatype CleanedRecord = CleanedRecord(
    sourceUrl: Option<string>, cleanedPath: string, cleanedAt: string, originalSize: nat, cleanedSize: nat)

  datatype ValidationError = ValidationError(file: string, reason: Reason)

  /** A file written by a cleaner: its path components and its text. */
  datatype Write = Write(path: seq<string>, text: string)

  // ----- Selection ---------------------------------------------------------------

  /** What the selection loop of `process_all_files` does with one document. */
  datatype Choice = Ignored | Skipped | Selected

  /** The `needs_cleaning` rule, for a document whose text file exists. */
  predicate NeedsCleaning(d: Document, fs: FileSystem) {
    !Truthy(d.cleanedPath) || d.cleanedPath == Some("null") || !Flag(d, "text_cleaned") ||
    Components(d.cleanedPath.value) !in fs
  }

  function Choose(p: Province, d: Document, fs: FileSystem): (c: Choice)
    ensures c != Ignored <==>
      d.sourceWebsite == Some(SourceTag(p)) && Truthy(d.textPath) && Components(d.textPath.value) in fs
    ensures c == Selected ==> NeedsCleaning(d, fs)
    ensures c == Skipped ==>
      d.cleanedPath.Some? && d.cleanedPath.value != [] && d.cleanedPath.value != "null" &&
      Flag(d, "text_cleaned") && Components(d.cleanedPath.value) in fs
  {
    if d.sourceWebsite != Some(SourceTag(p)) then Ignored
    else if !Truthy(d.textPath) then Ignored
    else if Components(d.textPath.value) !in fs then Ignored
    else if NeedsCleaning(d, fs) then Selected
    else Skipped
  }

  /** `files_to_clean`, in registry order. */
  function Selection(p: Province, docs: seq<Document>, fs: FileSystem): (sel: seq<Document>)
    ensures |sel| <= |docs|
    ensures forall i :: 0 <= i < |sel| ==> Choose(p, sel[i], fs) == Selected && HasTextFile(sel[i], fs)
  {
    if docs == [] then []
    else
      var last := docs[|docs| - 1];
      Selection(p, docs[..|docs| - 1], fs) + (if Choose(p, last, fs) == Selected then [last] else [])
  }

  /** How many documents get choice `c`. */
  function CountChoice(p: Province, docs: seq<Document>, fs: FileSystem, c: Choice): (n: nat)
    ensures n <= |docs|
  {
    if docs == [] then 0
    else CountChoice(p, docs[..|docs| - 1], fs, c) + (if Choose(p, docs[|docs| - 1], fs) == c then 1 else 0)
  }

  // ----- Cleaning one file -------------------------------------------------------

  /**
   * `CLEANED_DIR / text_file.relative_to(TEXT_DIR)`: `None` where the text file
   * is not under `data/text/<folder>` and `relative_to` raises.
   */
  function OutputPath(p: Province, textPath: string): (r: Option<seq<string>>)
    ensures r.Some? ==> |r.value| >= 3 && r.value[..3] == ["data", "cleaned", Folder(p)]
  {
    var cs := Components(textPath);
    if |cs| >= 3 && cs[..3] == ["data", "text", Folder(p)] then Some(["data", "cleaned", Folder(p)] + cs[3..])
    else None
  }

  /** The text file of a selected document exists. */
  predicate HasTextFile(d: Document, fs: FileSystem) {
    d.textPath.Some? && Components(d.textPath.value) in fs
  }

  /** What happens to one selected document. */
  datatype FileResult =
    | Crash     // `relative_to` raised: the run stops
    | Failed    // `clean_file` caught an error reading the text
    | Done(record: CleanedRecord, output: Write, error: Option<ValidationError>)

  /** The entry `_validate_cleaning` appends for `text` read from `filename`, if any. */
  function ErrorOf(p: Province, o: Oracles, text: string, filename: string): (e: Option<ValidationError>)
    ensures e.Some? ==> e.value.file == filename && Some(e.value.reason) == Verdict(p, o.sections, text, Pipeline(p, o, text))
    ensures e.None? ==> Verdict(p, o.sections, text, Pipeline(p, o, text)).None?
  {
    var verdict := Verdict(p, o.sections, text, Pipeline(p, o, text));
    if verdict.None? then None else Some(ValidationError(filename, verdict.value))
  }

  function Listed(e: Option<ValidationError>): seq<ValidationError> {
    if e.Some? then [e.value] else []
  }

  /** The result of cleaning one selected document; `now` stands for `datetime.now()`. */
  function FileOutcome(p: Province, o: Oracles, d: Document, fs: FileSystem, now: string): (r: FileResult)
    requires HasTextFile(d, fs)
    ensures r.Done? ==> fs[Components(d.textPath.value)].Some?
    ensures r.Done? ==>
      var text := fs[Components(d.textPath.value)].value;
      r.output.text == CleanedText(p, o, text) &&
      r.record.originalSize == |text| && r.record.cleanedSize == |r.output.text| &&
      r.record.sourceUrl == d.sourceUrl && r.record.cleanedPath == Render(r.output.path) &&
      r.error == ErrorOf(p, o, text, Name(d.textPath.value))
    ensures r.Crash? <==> OutputPath(p, d.textPath.value).None?
    ensures r.Failed? <==> OutputPath(p, d.textPath.value).Some? && fs[Components(d.textPath.value)].None?
  {
    match OutputPath(p, d.textPath.value)
    case None => Crash
    case Some(out) =>
      match fs[Components(d.textPath.value)]
      case None => Failed
      case Some(text) =>
        var r := CleanedText(p, o, text);
        Done(CleanedRecord(d.sourceUrl, Render(out), now, |text|, |r|), Write(out, r), ErrorOf(p, o, text, Name(d.textPath.value)))
  }

  /** What the cleaning loop has produced so far; `complete` is false once it stopped on a crash. */
  datatype Run = Run(
    complete: bool, records: seq<CleanedRecord>, writes: seq<Write>, errors: seq<ValidationError>,
    failed: nat, sizeBefore: nat, sizeAfter: nat)

  /** One file's result added to a run. */
  function RunStep(run: Run, res: FileResult): Run {
    match res
    case Crash => run.(complete := false)
    case Failed => run.(failed := run.failed + 1)
    case Done(rec, w, e) =>
      run.(records := run.records + [rec], writes := run.writes + [w],
           errors := run.errors + Listed(e),
           sizeBefore := run.sizeBefore + rec.originalSize, sizeAfter := run.sizeAfter + rec.cleanedSize)
  }

  /** `clock(k)` is what `datetime.now()` reads while the `k`-th selected file is cleaned. */
  type Clock = nat -> string

  /** The cleaning loop of `process_all_files` over the selected documents. */
  function CleanAll(p: Province, o: Oracles, sel: seq<Document>, fs: FileSystem, clock: Clock): Run
    requires forall i :: 0 <= i < |sel| ==> HasTextFile(sel[i], fs)
  {
    if sel == [] then Run(true, [], [], [], 0, 0, 0)
    else
      var prev := CleanAll(p, o, sel[..|sel| - 1], fs, clock);
      if !prev.complete then prev else RunStep(prev, FileOutcome(p, o, sel[|sel| - 1], fs, clock(|sel| - 1)))
  }

  // ----- Recording the cleaned files ---------------------------------------------

  /** The index of the first document whose `source_url` equals `url` (both may be absent). */
  function FirstWithUrl(docs: seq<Document>, url: Option<string>): (r: Option<nat>)
    ensures r.Some? ==> r.value < |docs| && docs[r.value].sourceUrl == url
    ensures r.Some? ==> forall j :: 0 <= j < r.value ==> docs[j].sourceUrl != url
    ensures r.None? ==> forall j :: 0 <= j < |docs| ==> docs[j].sourceUrl != url
  {
    if docs == [] then None
    else if docs[0].sourceUrl == url then Some(0)
    else match FirstWithUrl(docs[1..], url)
      case None => None
      case Some(i) => Some(i + 1)
  }

  /** The fields `_update_metadata` sets on the matching document. */
  function MarkCleaned(d: Document, rec: CleanedRecord): (r: Document)
    ensures r.cleanedPath == Some(rec.cleanedPath) && r.status == Some("text_cleaned")
    ensures Flag(r, "text_cleaned")
    ensures r.cleaningInfo == Some(CleaningInfo(rec.cleanedAt, rec.originalSize, rec.cleanedSize))
    ensures forall g :: g != "text_cleaned" ==> Flag(r, g) == Flag(d, g)
    ensures r.(cleanedPath := d.cleanedPath, status := d.status, processingStatus := d.processingStatus,
               cleaningInfo := d.cleaningInfo) == d
  {
    SetFlag(d.(cleanedPath := Some(rec.cleanedPath), status := Some("text_cleaned"),
               cleaningInfo := Some(CleaningInfo(rec.cleanedAt, rec.originalSize, rec.cleanedSize))),
            "text_cleaned", true)
  }

  /** One record applied: the first document with its `source_url` is marked. */
  function ApplyRecord(docs: seq<Document>, rec: CleanedRecord): (r: seq<Document>)
    ensures |r| == |docs|
  {
    match FirstWithUrl(docs, rec.sourceUrl)
    case None => docs
    case Some(i) => docs[i := MarkCleaned(docs[i], rec)]
  }

  function ApplyRecords(docs: seq<Document>, recs: seq<CleanedRecord>): (r: seq<Document>)
    ensures |r| == |docs|
  {
    if recs == [] then docs
    else ApplyRecord(ApplyRecords(docs, recs[..|recs| - 1]), recs[|recs| - 1])
  }

  /** How many records find a document. */
  function CountMatched(docs: seq<Document>, recs: seq<CleanedRecord>): (n: nat)
    ensures n <= |recs|
  {
    if recs == [] then 0
    else CountMatched(docs, recs[..|recs| - 1]) + (if FirstWithUrl(docs, recs[|recs| - 1].sourceUrl).Some? then 1 else 0)
  }

  /**
   * The registry `_update_metadata` writes: nothing for an empty list or when
   * reading `documents` raises, otherwise the marked documents, a new
   * `last_updated` and `total_cleaned` counted over all sources.
   */
  function MetadataAfter(metadata: Registry, recs: seq<CleanedRecord>, stamp: string): Option<Registry> {
    if recs == [] || !HasDocuments(metadata) then None
    else
      var docs := ApplyRecords(Documents(metadata), recs);
      var withDocs := WithDocuments(metadata, docs);
      Some(Assign(Assign(withDocs, "last_updated", Text(stamp)), "total_cleaned", Count(CountFlag(docs, "text_cleaned"))))
  }

  /**
   * `_update_metadata`, with `metadata` the registry it reads back and
   * `stamp` the formatted `datetime.now()`; `saved` is what it writes.
   */
  method UpdateMetadata(metadata: Registry, recs: seq<CleanedRecord>, stamp: string)
    returns (saved: Option<Registry>, updatedCount: nat)
    requires Valid(metadata)
    ensures saved == MetadataAfter(metadata, recs, stamp)
    ensures saved.Some? ==> updatedCount == CountMatched(Documents(metadata), recs)
  {
    updatedCount := 0;
    if recs == [] || !HasDocuments(metadata) {
      return None, 0;
    }
    var docs := Documents(metadata);
    for r := 0 to |recs|
      invariant docs == ApplyRecords(Documents(metadata), recs[..r])
      invariant updatedCount == CountMatched(Documents(metadata), recs[..r])
    {
      var rec := recs[r];
      assert recs[..r + 1][..r] == recs[..r];
      ApplyRecordsUrls(Documents(metadata), recs[..r]);
      var j := 0;
      while j < |docs| && docs[j].sourceUrl != rec.sourceUrl
        invariant j <= |docs|
        invariant forall k :: 0 <= k < j ==> docs[k].sourceUrl != rec.sourceUrl
      {
        j := j + 1;
      }
      if j < |docs| {
        assert FirstWithUrl(docs, rec.sourceUrl) == Some(j);
        docs := docs[j := MarkCleaned(docs[j], rec)];
        updatedCount := updatedCount + 1;
      } else {
        assert FirstWithUrl(docs, rec.sourceUrl).None?;
      }
    }
    assert recs[..|recs|] == recs;
    var out := WithDocuments(metadata, docs);
    out := Assign(out, "last_updated", Text(stamp));
    out := Assign(out, "total_cleaned", Count(CountFlag(docs, "text_cleaned")));
    saved := Some(out);
  }

  // ----- The cleaner object ------------------------------------------------------

  /**
   * One of `SupremeCourtCleaner`, `BalochistanCodeCleaner`, `KPCodeCleaner`
   * and `LegalTextCleaner`: its `stats` counters and `validation_errors` list.
   */
  class Cleaner {
    const province: Province
    const oracles: Oracles
    var totalFiles: nat
    var successfullyCleaned: nat
    var failed: nat
    var skippedAlreadyCleaned: nat
    var totalSizeBefore: nat
    var totalSizeAfter: nat
    var validationErrors: seq<ValidationError>

    constructor(p: Province, o: Oracles)
      ensures province == p && oracles == o
      ensures totalFiles == successfullyCleaned == failed == skippedAlreadyCleaned == 0
      ensures totalSizeBefore == totalSizeAfter == 0 && validationErrors == []
    {
      province, oracles := p, o;
      totalFiles, successfullyCleaned, failed, skippedAlreadyCleaned := 0, 0, 0, 0;
      totalSizeBefore, totalSizeAfter := 0, 0;
      validationErrors := [];
    }

    /** `_validate_cleaning`: each failing check appends one error and ends the checks. */
    method ValidateCleaning(original: string, cleaned: string, filename: string) returns (ok: bool)
      modifies this`validationErrors
      ensures ok <==> Verdict(province, oracles.sections, original, cleaned).None?
      ensures validationErrors == old(validationErrors) +
        (if ok then [] else [ValidationError(filename, Verdict(province, oracles.sections, original, cleaned).value)])
    {
      var verdict := Verdict(province, oracles.sections, original, cleaned);
      if verdict.Some? {
        validationErrors := validationErrors + [ValidationError(filename, verdict.value)];
        return false;
      }
      return true;
    }

    /** `clean_text`: the passes, then the original back when validation fails. */
    method CleanText(text: string, filename: string) returns (r: string)
      modifies this`validationErrors
      ensures r == CleanedText(province, oracles, text)
      ensures validationErrors == old(validationErrors) + Listed(ErrorOf(province, oracles, text, filename))
    {
      var cleaned := Pipeline(province, oracles, text);
      var ok := ValidateCleaning(text, cleaned, filename);
      if !ok {
        return text;
      }
      return cleaned;
    }

    /** The selection loop of `process_all_files`. */
    method SelectFiles(docs: seq<Document>, fs: FileSystem) returns (sel: seq<Document>)
      modifies this`skippedAlreadyCleaned, this`totalFiles
      ensures sel == Selection(province, docs, fs)
      ensures skippedAlreadyCleaned == old(skippedAlreadyCleaned) + CountChoice(province, docs, fs, Skipped)
      ensures totalFiles == |sel|
    {
      sel := [];
      for i := 0 to |docs|
        invariant sel == Selection(province, docs[..i], fs)
        invariant skippedAlreadyCleaned == old(skippedAlreadyCleaned) + CountChoice(province, docs[..i], fs, Skipped)
      {
        assert docs[..i + 1][..i] == docs[..i];
        var d := docs[i];
        if d.sourceWebsite != Some(SourceTag(province)) {
          continue;
        }
        if !Truthy(d.textPath) {
          continue;
        }
        if Components(d.textPath.value) !in fs {
          continue;
        }
        if NeedsCleaning(d, fs) {
          sel := sel + [d];
        } else {
          skippedAlreadyCleaned := skippedAlreadyCleaned + 1;
        }
      }
      assert docs[..|docs|] == docs;
      totalFiles := |sel|;
    }

    /**
     * `clean_file`: read the text, clean it and write it to `out`; the sizes
     * are added to the stats when it succeeds.
     */
    method CleanFile(d: Document, out: seq<string>, fs: FileSystem, now: string) returns (res: FileResult)
      requires HasTextFile(d, fs) && OutputPath(province, d.textPath.value) == Some(out)
      modifies this`totalSizeBefore, this`totalSizeAfter, this`validationErrors
      ensures res == FileOutcome(province, oracles, d, fs, now)
      ensures totalSizeBefore == old(totalSizeBefore) + (if res.Done? then res.record.originalSize else 0)
      ensures totalSizeAfter == old(totalSizeAfter) + (if res.Done? then res.record.cleanedSize else 0)
      ensures validationErrors == old(validationErrors) + (if res.Done? then Listed(res.error) else [])
    {
      var contents := fs[Components(d.textPath.value)];
      if contents.None? {
        return Failed;
      }
      var text := contents.value;
      var filename := Name(d.textPath.value);
      var cleaned := CleanText(text, filename);
      totalSizeBefore := totalSizeBefore + |text|;
      totalSizeAfter := totalSizeAfter + |cleaned|;
      res := Done(CleanedRecord(d.sourceUrl, Render(out), now, |text|, |cleaned|), Write(out, cleaned),
                  ErrorOf(province, oracles, text, filename));
    }

    /** The cleaning loop of `process_all_files`, with `clean_file` for each selected document. */
    method CleanFiles(sel: seq<Document>, fs: FileSystem, clock: Clock) returns (run: Run)
      requires forall i :: 0 <= i < |sel| ==> HasTextFile(sel[i], fs)
      modifies this`successfullyCleaned, this`failed, this`totalSizeBefore, this`totalSizeAfter, this`validationErrors
      ensures run == CleanAll(province, oracles, sel, fs, clock)
      ensures successfullyCleaned == old(successfullyCleaned) + |run.records|
      ensures failed == old(failed) + run.failed
      ensures totalSizeBefore == old(totalSizeBefore) + run.sizeBefore
      ensures totalSizeAfter == old(totalSizeAfter) + run.sizeAfter
      ensures validationErrors == old(validationErrors) + run.errors
    {
      run := Run(true, [], [], [], 0, 0, 0);
      for i := 0 to |sel|
        invariant run.complete && run == CleanAll(province, oracles, sel[..i], fs, clock)
        invariant successfullyCleaned == old(successfullyCleaned) + |run.records|
        invariant failed == old(failed) + run.failed
        invariant totalSizeBefore == old(totalSizeBefore) + run.sizeBefore
        invariant totalSizeAfter == old(totalSizeAfter) + run.sizeAfter
        invariant validationErrors == old(validationErrors) + run.errors
      {
        CleanAllStep(province, oracles, sel, fs, clock, i);
        var d := sel[i];
        var out := OutputPath(province, d.textPath.value);
        if out.None? {
          assert FileOutcome(province, oracles, d, fs, clock(i)) == Crash;
          run := run.(complete := false);
          CleanAllStops(province, oracles, sel, fs, clock, i + 1);
          return;
        }
        var res := CleanFile(d, out.value, fs, clock(i));
        if res.Failed? {
          failed := failed + 1;
        } else {
          successfullyCleaned := successfullyCleaned + 1;
        }
        run := RunStep(run, res);
      }
      assert sel[..|sel|] == sel;
    }

    /**
     * `process_all_files` on the registry it loads (`None` when the file is
     * missing or does not parse).  `saved` is the registry written back by
     * `_update_metadata`, `writes` the cleaned files in the order written.
     */
    method ProcessAllFiles(metadata: Option<Registry>, fs: FileSystem, clock: Clock, stamp: string)
      returns (saved: Option<Registry>, writes: seq<Write>)
      requires metadata.Some? ==> Valid(metadata.value)
      modifies this
      ensures metadata.None? ==> saved.None? && writes == [] && unchanged(this)
      ensures metadata.Some? ==>
        var docs := Documents(metadata.value);
        var sel := Selection(province, docs, fs);
        skippedAlreadyCleaned == old(skippedAlreadyCleaned) + CountChoice(province, docs, fs, Skipped) &&
        totalFiles == |sel| &&
        if !HasDocuments(metadata.value) || sel == [] then
          saved.None? && writes == [] &&
          successfullyCleaned == old(successfullyCleaned) && failed == old(failed) &&
          totalSizeBefore == old(totalSizeBefore) && totalSizeAfter == old(totalSizeAfter) &&
          validationErrors == old(validationErrors)
        else
          var run := CleanAll(province, oracles, sel, fs, clock);
          writes == run.writes &&
          successfullyCleaned == old(successfullyCleaned) + |run.records| &&
          failed == old(failed) + run.failed &&
          totalSizeBefore == old(totalSizeBefore) + run.sizeBefore &&
          totalSizeAfter == old(totalSizeAfter) + run.sizeAfter &&
          validationErrors == old(validationErrors) + run.errors &&
          saved == (if run.complete then MetadataAfter(metadata.value, run.records, stamp) else None)
    {
      if metadata.None? {
        return None, [];
      }
      var docs := Documents(metadata.value);
      var sel := SelectFiles(docs, fs);
      if !HasDocuments(metadata.value) || totalFiles == 0 {
        return None, [];
      }
      var run := CleanFiles(sel, fs, clock);
      writes := run.writes;
      if !run.complete {
        return None, writes;
      }
      var count;
      saved, count := UpdateMetadata(metadata.value, run.records, stamp);
    }
  }

  // ----- Lemmas ----------------------------------------------------------------------

  /** One more document in the cleaning loop. */
  lemma CleanAllStep(p: Province, o: Oracles, sel: seq<Document>, fs: FileSystem, clock: Clock, i: nat)
    requires forall i :: 0 <= i < |sel| ==> HasTextFile(sel[i], fs)
    requires i < |sel|
    ensures var prev := CleanAll(p, o, sel[..i], fs, clock);
      CleanAll(p, o, sel[..i + 1], fs, clock) ==
        if prev.complete then RunStep(prev, FileOutcome(p, o, sel[i], fs, clock(i))) else prev
  {
    assert sel[..i + 1][..i] == sel[..i];
  }

  /** Once the loop has stopped, later documents change nothing. */
  lemma {:induction false} CleanAllStops(p: Province, o: Oracles, sel: seq<Document>, fs: FileSystem, clock: Clock, n: nat)
    requires forall i :: 0 <= i < |sel| ==> HasTextFile(sel[i], fs)
    requires n <= |sel| && !CleanAll(p, o, sel[..n], fs, clock).complete
    ensures CleanAll(p, o, sel, fs, clock) == CleanAll(p, o, sel[..n], fs, clock)
    decreases |sel| - n
  {
    if n < |sel| {
      assert sel[..n + 1][..n] == sel[..n];
      CleanAllStops(p, o, sel, fs, clock, n + 1);
    } else {
      assert sel[..n] == sel;
    }
  }

  /** Applying records changes no `source_url`, so every record matches as it would on the input. */
  lemma {:induction false} ApplyRecordsUrls(docs: seq<Document>, recs: seq<CleanedRecord>)
    ensures forall i :: 0 <= i < |docs| ==> ApplyRecords(docs, recs)[i].sourceUrl == docs[i].sourceUrl
    decreases |recs|
  {
    if recs != [] {
      ApplyRecordsUrls(docs, recs[..|recs| - 1]);
    }
  }

  /** Every document falls in exactly one of the three choices. */
  lemma {:induction false} ChoicesPartition(p: Province, docs: seq<Document>, fs: FileSystem)
    ensures CountChoice(p, docs, fs, Ignored) + CountChoice(p, docs, fs, Skipped) +
            CountChoice(p, docs, fs, Selected) == |docs|
    ensures |Selection(p, docs, fs)| == CountChoice(p, docs, fs, Selected)
    decreases |docs|
  {
    if docs != [] {
      ChoicesPartition(p, docs[..|docs| - 1], fs);
    }
  }

  /** A document is selected exactly when it occurs in the registry and the rule selects it. */
  lemma {:induction false} SelectionMembers(p: Province, docs: seq<Document>, fs: FileSystem)
    ensures forall d :: d in Selection(p, docs, fs) <==> d in docs && Choose(p, d, fs) == Selected
    decreases |docs|
  {
    if docs != [] {
      var init := docs[..|docs| - 1];
      SelectionMembers(p, init, fs);
      assert docs == init + [docs[|docs| - 1]];
    }
  }

  /** Marking a document never lowers `total_cleaned`. */
  lemma {:induction false} ApplyRecordsCount(docs: seq<Document>, recs: seq<CleanedRecord>)
    ensures CountFlag(ApplyRecords(docs, recs), "text_cleaned") >= CountFlag(docs, "text_cleaned")
    decreases |recs|
  {
    if recs != [] {
      var prev := ApplyRecords(docs, recs[..|recs| - 1]);
      ApplyRecordsCount(docs, recs[..|recs| - 1]);
      var rec := recs[|recs| - 1];
      match FirstWithUrl(prev, rec.sourceUrl)
      case None =>
      case Some(i) =>
        CountFlagUpdate(prev, i, MarkCleaned(prev[i], rec), "text_cleaned");
    }
  }

  /**
   * Only the first document with a given `source_url` can change, and only
   * when some record carries that `source_url`.
   */
  lemma {:induction false} ApplyRecordsTouches(docs: seq<Document>, recs: seq<CleanedRecord>, i: nat)
    requires i < |docs|
    requires (exists j :: 0 <= j < i && docs[j].sourceUrl == docs[i].sourceUrl) ||
             (forall k :: 0 <= k < |recs| ==> recs[k].sourceUrl != docs[i].sourceUrl)
    ensures ApplyRecords(docs, recs)[i] == docs[i]
    decreases |recs|
  {
    if recs != [] {
      var init := recs[..|recs| - 1];
      ApplyRecordsTouches(docs, init, i);
      ApplyRecordsUrls(docs, init);
      var prev := ApplyRecords(docs, init);
      var rec := recs[|recs| - 1];
      match FirstWithUrl(prev, rec.sourceUrl)
      case None =>
      case Some(m) =>
        assert m != i;
    }
  }

  /**
   * After the update, the first document with the `source_url` of any
   * record is marked `text_cleaned`.
   */
  lemma {:induction false} ApplyRecordsMarks(docs: seq<Document>, recs: seq<CleanedRecord>, k: nat)
    requires k < |recs| && FirstWithUrl(docs, recs[k].sourceUrl).Some?
    ensures var i := FirstWithUrl(docs, recs[k].sourceUrl).value;
      Flag(ApplyRecords(docs, recs)[i], "text_cleaned") &&
      ApplyRecords(docs, recs)[i].status == Some("text_cleaned")
    decreases |recs|
  {
    var i := FirstWithUrl(docs, recs[k].sourceUrl).value;
    var init := recs[..|recs| - 1];
    var prev := ApplyRecords(docs, init);
    var rec := recs[|recs| - 1];
    ApplyRecordsUrls(docs, init);
    if k < |recs| - 1 {
      assert init[k] == recs[k];
      ApplyRecordsMarks(docs, init, k);
    }
    match FirstWithUrl(prev, rec.sourceUrl)
    case None =>
      assert k < |recs| - 1;
    case Some(m) =>
      if m == i {
        assert ApplyRecords(docs, recs)[i] == MarkCleaned(prev[i], rec);
      } else {
        assert k < |recs| - 1;
      }
  }

  /**
   * The registry `_update_metadata` writes keeps every other key and its
   * order, and its `total_cleaned` counts the marked documents.  These facts
   * follow from unfolding `MetadataAfter` and the contracts of `Assign` and
   * `WithDocuments`.
   */
  lemma MetadataAfterShape(metadata: Registry, recs: seq<CleanedRecord>, stamp: string)
    requires Valid(metadata)
    ensures var saved := MetadataAfter(metadata, recs, stamp);
      saved.Some? <==> recs != [] && HasDocuments(metadata)
    ensures var saved := MetadataAfter(metadata, recs, stamp);
      saved.Some? ==>
        Valid(saved.value) &&
        Documents(saved.value) == ApplyRecords(Documents(metadata), recs) &&
        Get(saved.value, "total_cleaned") == Some(Count(CountFlag(Documents(saved.value), "text_cleaned"))) &&
        Get(saved.value, "last_updated") == Some(Text(stamp)) &&
        (forall k :: k != "documents" && k != "total_cleaned" && k != "last_updated" ==>
          Get(saved.value, k) == Get(metadata, k)) &&
        saved.value.keys[..|metadata.keys|] == metadata.keys
  {
    if recs != [] && HasDocuments(metadata) {
      var docs := ApplyRecords(Documents(metadata), recs);
      var w := WithDocuments(metadata, docs);
      var a := Assign(w, "last_updated", Text(stamp));
      var b := Assign(a, "total_cleaned", Count(CountFlag(docs, "text_cleaned")));
      assert Get(b, "documents") == Get(w, "documents");
      assert w.keys == metadata.keys;
      assert a.keys[..|metadata.keys|] == metadata.keys;
      assert b.keys[..|metadata.keys|] == metadata.keys;
    }
  }
}
