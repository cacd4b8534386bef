# Preprocessing stages of the legal-document corpus, in Dafny

The preprocessing scripts share one JSON registry, `documents_metadata.json`.
It is an ordered dictionary of top-level keys; its `documents` entry is the
list of document records. Each stage reads the registry, does some work on
files, edits the records and writes the registry back. This project models
five of those stages and proves what each promises:

- **Deduplication** (`dedup.dfy`, module `Dedup`): keep the first document
  of each `raw_path` and recount `total_documents`.
- **Text extraction** (`extraction.dfy`, module `Extraction`): build one text
  per PDF from the page texts, OCR and the `pdfminer` fallback. Write it
  under `data/text` with a `.txt` suffix. Count successes, failures and OCR
  use. Mark the first registry document whose `raw_path` matches each file.
- **Text cleaning** (`cleaner.dfy`, `validation.dfy`, `passes.dfy`,
  `substitution.dfy`): the Supreme Court, Balochistan Code, KP Code and
  Pakistan Code cleaners.
  - `Substitution` models `re.sub`: a leftmost, non-overlapping scan with
    one matcher per pattern.
  - `Passes` builds each cleaner's text passes from those matchers.
  - `Validation` holds the content-preservation checks and the fallback to
    the original text.
  - `Cleaning` holds the shared `Cleaner` class. It selects the documents
    to clean, cleans them, keeps the statistics and records the results in
    the registry. The four cleaner classes differ only in their source tag,
    folder, text passes and validator, so one class parameterised by
    `Province` stands for all four.
- **Chunk status** (`chunk_status.dfy`, module `ChunkStatus`): derive each
  cleaned document's chunk-file path, set its `chunked` flag, and insert
  `total_chunked` right after `total_cleaned`.
- **Embedding records** (`embeddings.dfy`, module `Embeddings`): for every
  chunked document, append one record per chunk to `embeddings.jsonl`, with
  ids that continue the file's numbering, and mark the document `embedded`.

Shared modules:

- `Registry`: the ordered top-level dictionary and the document records.
- `Paths`: Windows path handling (`os.path`, `pathlib`).
- `Strings`: string helpers.
- `Wrappers`: `Option`.

How the model represents the source:

- **Missing keys.** A record field is an `Option`; `None` means the key is
  absent.
- **Crashes.** When a script would stop on an uncaught exception before
  writing (a `KeyError`, say), the model returns `None` for the registry it
  would have saved.
- **Files, encoder, clock.** The file system, the PDF libraries, the sentence
  encoder and the clock are parameters.
- **Counters.** `remove_duplicates.py` deduplicates on `raw_path`. Each
  script writes only the counters it changes: `total_documents` after
  deduplication, `total_cleaned` after cleaning, `total_chunked` after
  chunking.

## Model

| member | source | states |
|---|---|---|
| Dedup.FirstOccurrences | preprocessing/src/data_collection/remove_duplicates.py:15-22 | the kept list is never longer than the input |
| Dedup.RemoveDuplicates | preprocessing/src/data_collection/remove_duplicates.py:15-22 | the loop with its `seen` set yields exactly the first occurrences; no two kept documents share a `raw_path`; the set of `raw_path` values is the input's |
| Dedup.RemoveDuplicatesByRawPath | preprocessing/src/data_collection/remove_duplicates.py:4-33 | `documents` becomes the first occurrences and `total_documents` their number; every other key keeps its value; existing keys keep their order (a missing `total_documents` is appended); the reported removed count is the length difference and is never negative |
| Dedup.PrefixStep | preprocessing/src/data_collection/remove_duplicates.py:18-22 | one pass of the loop: the seen set gains the document's `raw_path`, and the document is appended exactly when its `raw_path` was not yet seen |
| Dedup.FirstOccurrencesRawPaths | preprocessing/src/data_collection/remove_duplicates.py:19-22 | output and input have the same set of `raw_path` values; documents without one share the key `None` |
| Dedup.FirstOccurrencesDistinct | preprocessing/src/data_collection/remove_duplicates.py:15-22 | no two output documents share a `raw_path` |
| Dedup.FirstOccurrencesKept | preprocessing/src/data_collection/remove_duplicates.py:18-22 | the output is the input at strictly increasing positions; each kept document is the first with its `raw_path`, and every such first document is kept |
| Dedup.DistinctUnchanged | preprocessing/src/data_collection/remove_duplicates.py:18-22 | a list with distinct `raw_path` values is returned unchanged |
| Dedup.FirstOccurrencesIdempotent | preprocessing/src/data_collection/remove_duplicates.py:15-22 | deduplicating twice equals deduplicating once |
| Dedup.DeduplicatedIdempotent | preprocessing/src/data_collection/remove_duplicates.py:15-26 | running the whole registry update twice gives the registry of one run |
| ChunkStatus.FindChunkFile | preprocessing/src/chunking/update_chunk_status.py:36-45 | a returned path exists; the result is none unless the `/`-normalised path has at least three parts starting `data`, `cleaned` |
| ChunkStatus.FindChunkFileOfCleaned | preprocessing/src/chunking/update_chunk_status.py:39-44 | for `data\cleaned\<source>\...\<stem>.txt` the result is `CHUNKS_DIR\<source>\<stem>.json` when that file exists and none otherwise |
| ChunkStatus.ChunkPathNormalized | preprocessing/src/chunking/update_chunk_status.py:64 | the stored `chunked_path` is `../data/chunks/<source>/<stem>.json` |
| ChunkStatus.ValidChunkFor | preprocessing/src/chunking/update_chunk_status.py:57-62 | a chunk file is found only for a truthy `cleaned_path`, and only if it exists, has at least 5 bytes, parses, is truthy and has a non-empty `chunks` list |
| ChunkStatus.ChunkDoc | preprocessing/src/chunking/update_chunk_status.py:56-71 | a document without a truthy `cleaned_path` is unchanged; otherwise the run crashes exactly when `processing_status` is missing; `chunked` becomes whether a valid file was found, and nothing else changes but `chunked_path` (the `/` form) and `status` = `chunked` on success; on failure only `chunked := false` |
| ChunkStatus.ChunkAll | preprocessing/src/chunking/update_chunk_status.py:56-71 | a run that does not crash yields one document per input document |
| ChunkStatus.ChunkAllMeaning | preprocessing/src/chunking/update_chunk_status.py:56-71 | the loop crashes iff some document with a truthy `cleaned_path` has no `processing_status`; otherwise each output document is the single-document update of the input one at the same position |
| ChunkStatus.CountValid | preprocessing/src/chunking/update_chunk_status.py:66-68 | the number of documents set to chunked never exceeds the number of documents |
| ChunkStatus.ChunkDocuments | preprocessing/src/chunking/update_chunk_status.py:53-71 | the loop produces `ChunkAll` of the documents, and `updated_count == total_valid ==` the number of documents set to chunked |
| ChunkStatus.ChunkAllNext | preprocessing/src/chunking/update_chunk_status.py:56-71 | one pass of the loop extends the result by the updated document and the count by one iff a valid chunk file was found |
| ChunkStatus.ChunkAllStops | preprocessing/src/chunking/update_chunk_status.py:56-71 | once a document crashes the loop, the whole run crashes |
| ChunkStatus.RebuildKeys | preprocessing/src/chunking/update_chunk_status.py:75-80 | (corrected key loop) every key other than `total_chunked` keeps its value and order; with `total_cleaned` present, `total_chunked` holds this run's count and sits right after `total_cleaned`; without it the registry is unchanged |
| ChunkStatus.FreshKeysAdjacent | preprocessing/src/chunking/update_chunk_status.py:75-80 | in the rebuilt key order `total_chunked` directly follows `total_cleaned` |
| ChunkStatus.FreshKeysWithout | preprocessing/src/chunking/update_chunk_status.py:75-80 | apart from `total_chunked`, the rebuilt key order is the old one |
| ChunkStatus.FreshKeysNoCleaned | preprocessing/src/chunking/update_chunk_status.py:78 | without `total_cleaned` no key is added |
| ChunkStatus.FreshCopyValues | preprocessing/src/chunking/update_chunk_status.py:75-80 | the rebuilt registry keeps every value but `total_chunked`, which becomes the count when `total_cleaned` is present |
| ChunkStatus.FreshCopyKeys | preprocessing/src/chunking/update_chunk_status.py:75-80 | with `total_cleaned` present: adjacency and otherwise unchanged order |
| ChunkStatus.FreshCopyNoCleaned | preprocessing/src/chunking/update_chunk_status.py:75-80 | without `total_cleaned` the rebuilt registry is the old one |
| ChunkStatus.FirstRunAgrees | preprocessing/src/chunking/update_chunk_status.py:75-80 | when no `total_chunked` exists yet, the loop as written and the corrected loop give the same registry |
| ChunkStatus.StaleTotalChunked | preprocessing/src/chunking/update_chunk_status.py:75-80 | a counterexample: with `total_chunked` already after `total_cleaned`, the loop as written keeps the stale value while the corrected loop stores the new count |
| ChunkStatus.AsWrittenKeepsStale | preprocessing/src/chunking/update_chunk_status.py:75-80 | the loop as written, on any registry where `total_chunked` comes after `total_cleaned` (every run after the first): the saved `total_chunked` is the old value, not this run's count |
| ChunkStatus.AsWrittenFreshBeforeCleaned | preprocessing/src/chunking/update_chunk_status.py:75-80 | the loop as written, when `total_chunked` comes before `total_cleaned`: the saved `total_chunked` is this run's count and every key keeps its place |
| ChunkStatus.AsWrittenFreshValue | preprocessing/src/chunking/update_chunk_status.py:75-80 | the loop as written stores this run's count whenever no `total_chunked` follows `total_cleaned` |
| ChunkStatus.AsWrittenChunkedUntouched | preprocessing/src/chunking/update_chunk_status.py:75-80 | copying keys other than `total_cleaned` and `total_chunked` leaves `total_chunked` as it was |
| ChunkStatus.AsWrittenKeys | preprocessing/src/chunking/update_chunk_status.py:75-80 | when `total_chunked` comes before every `total_cleaned`, the loop as written copies the keys in their order |
| ChunkStatus.SaveStatus | preprocessing/src/chunking/update_chunk_status.py:75-84 | with the corrected key loop (see ## Findings): the saved registry holds the updated documents, `total_chunked` (when `total_cleaned` exists) and the new `last_updated`; all other keys keep their values. Key order: `total_chunked` sits right after `total_cleaned`; apart from `total_chunked` the old keys keep their order, and `last_updated` is appended only when it is new; without `total_cleaned` the key order is the old one plus a new `last_updated` |
| ChunkStatus.SavedKeys | preprocessing/src/chunking/update_chunk_status.py:74-81 | the key order of the saved registry follows from the rebuilt one: adjacency, the old order of the other keys, and `last_updated` appended only when new |
| ChunkStatus.StampKeys | preprocessing/src/chunking/update_chunk_status.py:81 | stamping `last_updated` keeps the key order, appends the key when it is new, and keeps `total_chunked` right after `total_cleaned` |
| ChunkStatus.UpdateChunkStatus | preprocessing/src/chunking/update_chunk_status.py:48-84 | nothing is saved iff the document loop crashes; otherwise the saved documents are `ChunkAll` of the old ones, both counters equal the valid count, `total_chunked` holds it when `total_cleaned` exists (with the corrected key loop, see ## Findings), `last_updated` is the new stamp, and every other key is untouched; the saved key order has `total_chunked` right after `total_cleaned`, the other old keys in their order, and `last_updated` appended only when new |
| Registry.SetFlag | preprocessing/src/text_cleaning/clean_pakistan_code.py:415-417 | setting a flag creates `processing_status` if absent, sets that flag, and leaves the other flags and fields alone |
| Registry.Assign | preprocessing/src/chunking/update_chunk_status.py:81 | dictionary assignment: the key gets the value, other keys keep theirs; an existing key keeps its place and a new one is appended |
| Registry.WithDocuments | preprocessing/src/data_collection/remove_duplicates.py:25 | replacing `documents` changes no other key |
| Registry.CountFlag | preprocessing/src/text_cleaning/clean_pakistan_code.py:434-435 | the flag count never exceeds the number of documents |
| Cleaning.Choose | preprocessing/src/text_cleaning/clean_pakistan_code.py:285-324 | a document is considered iff it has the cleaner's source tag and a truthy, existing `text_path`; it is selected only under the `needs_cleaning` rule and skipped only when its `cleaned_path` is set, not `"null"`, flagged `text_cleaned` and exists (the same loop is clean_supremecourt_judgments.py:190-228, clean_balochistan_code.py:220-259, clean_kp_code.py:249-288) |
| Cleaning.Selection | preprocessing/src/text_cleaning/clean_pakistan_code.py:285-324 | every selected document was chosen for cleaning and has a text file |
| Cleaning.SelectionMembers | preprocessing/src/text_cleaning/clean_pakistan_code.py:285-324 | a document is selected iff it is in the registry and chosen for cleaning |
| Cleaning.CountChoice | preprocessing/src/text_cleaning/clean_pakistan_code.py:324 | a choice count never exceeds the number of documents |
| Cleaning.ChoicesPartition | preprocessing/src/text_cleaning/clean_pakistan_code.py:285-326 | every document is ignored, skipped or selected, exactly once; `total_files` is the selected count |
| Cleaning.OutputPath | preprocessing/src/text_cleaning/clean_pakistan_code.py:347-348 | an output path lies under `data/cleaned/<folder>` |
| Cleaning.ErrorOf | preprocessing/src/text_cleaning/clean_pakistan_code.py:179-221 | an error is recorded iff the validator rejects the cleaned text, with the file name and the validator's reason |
| Cleaning.FileOutcome | preprocessing/src/text_cleaning/clean_pakistan_code.py:347-372 | a cleaned file holds the validated cleaned text, the record carries both sizes, the document's `source_url` and the output path, the error is the validator's; the run crashes iff the text file is not under the cleaner's text folder; a file under it fails iff it cannot be read, and is otherwise cleaned |
| Cleaning.FirstWithUrl | preprocessing/src/text_cleaning/clean_pakistan_code.py:405-407 | the first document with the record's `source_url`, or none if no document has it |
| Cleaning.MarkCleaned | preprocessing/src/text_cleaning/clean_pakistan_code.py:408-426 | sets `cleaned_path`, `status`, `text_cleaned` and `cleaning_info`, and nothing else |
| Cleaning.ApplyRecord | preprocessing/src/text_cleaning/clean_pakistan_code.py:403-428 | the document list keeps its length |
| Cleaning.ApplyRecords | preprocessing/src/text_cleaning/clean_pakistan_code.py:403-428 | the document list keeps its length |
| Cleaning.CountMatched | preprocessing/src/text_cleaning/clean_pakistan_code.py:427 | `updated_count` never exceeds the number of records |
| Cleaning.ApplyRecordsUrls | preprocessing/src/text_cleaning/clean_pakistan_code.py:403-428 | no document's `source_url` changes |
| Cleaning.ApplyRecordsTouches | preprocessing/src/text_cleaning/clean_pakistan_code.py:403-428 | a document that is not the first with its `source_url`, or whose url no record has, is left unchanged |
| Cleaning.ApplyRecordsMarks | preprocessing/src/text_cleaning/clean_pakistan_code.py:403-428 | the first document matching any record ends up flagged `text_cleaned` with status `text_cleaned` |
| Cleaning.ApplyRecordsCount | preprocessing/src/text_cleaning/clean_pakistan_code.py:403-436 | the number of documents flagged `text_cleaned` never decreases |
| Cleaning.MetadataAfterShape | preprocessing/src/text_cleaning/clean_pakistan_code.py:390-446 | something is written iff there are records and a `documents` list; the written registry holds the updated documents, `total_cleaned` counted over all sources, the new `last_updated`, and every other key unchanged and in order (the same method is clean_supremecourt_judgments.py:296-353, clean_balochistan_code.py:325-382, clean_kp_code.py:354-411) |
| Cleaning.UpdateMetadata | preprocessing/src/text_cleaning/clean_pakistan_code.py:390-446 | the nested loops write exactly `MetadataAfter`, and `updated_count` is the number of records that found a document |
| Cleaning.CleanAllStep | preprocessing/src/text_cleaning/clean_pakistan_code.py:340-372 | one pass of the cleaning loop adds one file's outcome unless the loop already stopped |
| Cleaning.CleanAllStops | preprocessing/src/text_cleaning/clean_pakistan_code.py:340-372 | once a file crashes the loop, nothing after it is processed |
| Cleaning.Cleaner.constructor | preprocessing/src/text_cleaning/clean_pakistan_code.py:33-42 | all statistics start at zero with no validation errors |
| Cleaning.Cleaner.ValidateCleaning | preprocessing/src/text_cleaning/clean_pakistan_code.py:179-221 | accepts iff the verdict is none, and appends exactly one error (the first failing check's) on rejection |
| Cleaning.Cleaner.CleanText | preprocessing/src/text_cleaning/clean_pakistan_code.py:44-79 | returns the cleaned text or the original, and appends the validator's error if any |
| Cleaning.Cleaner.SelectFiles | preprocessing/src/text_cleaning/clean_pakistan_code.py:283-326 | the selection loop yields `Selection`, adds the skipped count and sets `total_files` |
| Cleaning.Cleaner.CleanFile | preprocessing/src/text_cleaning/clean_pakistan_code.py:223-259 | one file's outcome; the size totals grow by its sizes only on success; its validation error is appended |
| Cleaning.Cleaner.CleanFiles | preprocessing/src/text_cleaning/clean_pakistan_code.py:340-372 | the loop's result is `CleanAll`; `successfully_cleaned`, `failed`, both size totals and the errors grow by what it produced |
| Cleaning.Cleaner.ProcessAllFiles | preprocessing/src/text_cleaning/clean_pakistan_code.py:261-374 | no registry: nothing changes; nothing selected: only the selection counters change; otherwise the writes, the success and failure counters, both size totals and the errors of the run, and the registry update only when no file crashed the run |
| Validation.ReductionExact | preprocessing/src/text_cleaning/clean_supremecourt_judgments.py:79-83 | the reduction exceeds 5% iff the original is non-empty and `(original - cleaned) * 100 > 5 * original` |
| Validation.EmptyNeverReduced | preprocessing/src/text_cleaning/clean_supremecourt_judgments.py:81 | an empty original never fails the reduction check |
| Validation.SectionDiffExact | preprocessing/src/text_cleaning/clean_balochistan_code.py:120-124 | the section difference exceeds 2% (Balochistan) or 5% (KP, clean_kp_code.py:149-153) iff `abs(diff) * 50` (resp. `* 20`) exceeds the original count |
| Validation.KeptShareExact | preprocessing/src/text_cleaning/clean_balochistan_code.py:137 | the length checks are `cleaned * 5 < original * 4` (Balochistan), `cleaned * 4 < original * 3` (KP, clean_kp_code.py:166) and `cleaned * 2 < original` (Pakistan, clean_pakistan_code.py:202) |
| Validation.PakistanSectionsExact | preprocessing/src/text_cleaning/clean_pakistan_code.py:189 | the section check is `cleaned * 10 < original * 9` |
| Validation.MoreSectionsPass | preprocessing/src/text_cleaning/clean_pakistan_code.py:185-196 | more sections after cleaning never fail the Pakistan section check |
| Validation.CodeVerdictAccepts | preprocessing/src/text_cleaning/clean_kp_code.py:141-185 | an accepted code text has at least 100 characters, keeps the required share of the length, and keeps the section count within the province's tolerance |
| Validation.SupremeVerdictAccepts | preprocessing/src/text_cleaning/clean_supremecourt_judgments.py:75-123 | an accepted judgment lost at most 5% of its length and keeps a case-title phrase and a judgment keyword whenever the original had one |
| Validation.CleanedTextChoice | preprocessing/src/text_cleaning/clean_pakistan_code.py:74-79 | `clean_text` returns the pipeline's text or the original, and a changed text passed validation (the same fallback is in all four cleaners) |
| Validation.CleanedTextKeepsLength | preprocessing/src/text_cleaning/clean_kp_code.py:161-185 | a code cleaner returns the original or a text of at least 100 characters and at least half the original length |
| Validation.SupremeCleanedTextKeeps | preprocessing/src/text_cleaning/clean_supremecourt_judgments.py:45-63 | the Supreme Court cleaner loses at most 5% of the length and keeps every non-whitespace character in order |
| Passes.SupremeKeepsVisible | preprocessing/src/text_cleaning/clean_supremecourt_judgments.py:50-56 | the Supreme Court passes never lengthen the text and only remove whitespace |
| Passes.CollapseAndTrimTidies | preprocessing/src/text_cleaning/clean_supremecourt_judgments.py:65-73 | `_normalize_whitespace` never lengthens the text and keeps its visible characters |
| Passes.CollapseAndTrimNoTrailingBlank | preprocessing/src/text_cleaning/clean_supremecourt_judgments.py:71 | after the second substitution no space directly precedes a newline (the same pass is clean_balochistan_code.py:80) |
| Passes.TrailingBlanksGone | preprocessing/src/text_cleaning/clean_kp_code.py:103 | the trailing-space substitution leaves no space directly before a newline |
| Passes.CollapseBound | preprocessing/src/text_cleaning/clean_balochistan_code.py:77 | after collapsing runs of `m` or more newlines, no run of `max(m, 3)` newlines remains |
| Passes.RuleLineNoLonger | preprocessing/src/text_cleaning/clean_balochistan_code.py:88 | the separator substitution never lengthens the text |
| Passes.BalochistanSeparatorsNoLonger | preprocessing/src/text_cleaning/clean_balochistan_code.py:71-90 | `_normalize_whitespace` then `_remove_separators` never lengthen the text |
| Passes.FootnoteRewrite | preprocessing/src/text_cleaning/clean_balochistan_code.py:101-108 | a line `<n> This Act was passed ...` with at least 50 more characters becomes `[Legislative Note <n>: ...]` on its own paragraph; the same lemma gives `[Amendment <n>: ...]` for the KP pattern at clean_kp_code.py:130-137 |
| Passes.KpPageMarkersNoLonger | preprocessing/src/text_cleaning/clean_kp_code.py:75-89 | `_remove_page_markers` never lengthens the text |
| Passes.PageMarkerNoLonger | preprocessing/src/text_cleaning/clean_kp_code.py:81-84 | each mid-text page-marker substitution never lengthens the text |
| Passes.PageMarkerRemoved | preprocessing/src/text_cleaning/clean_kp_code.py:84 | a line `<digits> \| Page` is matched whole and replaced by one newline |
| Passes.DropLeadingMarkerNoLonger | preprocessing/src/text_cleaning/clean_kp_code.py:87 | dropping a marker at the start never lengthens the text |
| Passes.TripleBound | preprocessing/src/text_cleaning/clean_kp_code.py:100 | on a text without four newlines in a row, replacing each three newlines by two leaves no three in a row |
| Passes.KpCollapseBound | preprocessing/src/text_cleaning/clean_kp_code.py:97-100 | after the two newline substitutions no three consecutive newlines remain |
| Passes.DeepIndentGone | preprocessing/src/text_cleaning/clean_kp_code.py:107 | after the indent substitution no newline is followed by three spaces, and the leading spaces of the text are unchanged |
| Passes.KpNormalizeNoDeepIndent | preprocessing/src/text_cleaning/clean_kp_code.py:91-109 | the KP `_normalize_whitespace` leaves no newline followed by three spaces |
| Passes.KpNormalizeTidies | preprocessing/src/text_cleaning/clean_kp_code.py:91-109 | the KP `_normalize_whitespace` never lengthens the text and keeps its visible characters |
| Passes.PakistanPageNumbersNoLonger | preprocessing/src/text_cleaning/clean_pakistan_code.py:81-85 | `_remove_page_numbers` never lengthens the text |
| Passes.RemoveRepeatedTitleKeepsFirst | preprocessing/src/text_cleaning/clean_pakistan_code.py:87-109 | the text up to and including the first occurrence of the title is unchanged, and the text never grows |
| Passes.HeaderLineNoLonger | preprocessing/src/text_cleaning/clean_pakistan_code.py:102-106 | replacing later title lines by a blank line never lengthens the text |
| Passes.CollapseInnerBlanksKeeps | preprocessing/src/text_cleaning/clean_pakistan_code.py:149 | collapsing inner space runs never lengthens the text and keeps its visible characters |
| Passes.PakistanCollapseBound | preprocessing/src/text_cleaning/clean_pakistan_code.py:149-152 | right after the collapse of three or more newlines, no three consecutive newlines remain |
| Passes.BlankBeforePunctTidies | preprocessing/src/text_cleaning/clean_pakistan_code.py:158 | removing spaces before `.,;:)` never lengthens the text and keeps its visible characters |
| Passes.PakistanNormalizeTidies | preprocessing/src/text_cleaning/clean_pakistan_code.py:146-160 | the Pakistan `_normalize_whitespace` never lengthens the text and keeps its visible characters |
| Passes.AmendmentRewrite | preprocessing/src/text_cleaning/clean_pakistan_code.py:175 | `\n<digits><Word>. by ...` becomes `\n(<Word>. by ...)`: the digits are dropped and the amendment text is kept |
| Substitution.SubNoLonger | preprocessing/src/text_cleaning/clean_supremecourt_judgments.py:68 | `re.sub` with a replacement never longer than its match never lengthens the text |
| Substitution.SubKeepsVisible | preprocessing/src/text_cleaning/clean_supremecourt_judgments.py:68 | `re.sub` whose replacements keep the visible characters of their matches keeps the text's visible characters |
| Substitution.SubNoMatch | preprocessing/src/text_cleaning/clean_supremecourt_judgments.py:68 | `re.sub` with no match anywhere returns the text unchanged |
| Substitution.NewlineRunShrinks | preprocessing/src/text_cleaning/clean_supremecourt_judgments.py:68 | `\n{m,}` matches are non-empty and lie inside the text, and each replacement is no longer than its match (for `min >= 2`) |
| Substitution.NewlineRunKeepsVisible | preprocessing/src/text_cleaning/clean_supremecourt_judgments.py:68 | the newline-run replacement only touches whitespace |
| Substitution.NewlineTripleShrinks | preprocessing/src/text_cleaning/clean_kp_code.py:100 | `\n{3}` matches are non-empty and lie inside the text, and each replacement is no longer than its match |
| Substitution.NewlineTripleKeepsVisible | preprocessing/src/text_cleaning/clean_kp_code.py:100 | the `\n{3}` replacement only touches whitespace |
| Substitution.TrailingBlanksShrinks | preprocessing/src/text_cleaning/clean_supremecourt_judgments.py:71 | ` +\n` matches are non-empty and lie inside the text, and each replacement is no longer than its match |
| Substitution.TrailingBlanksKeepsVisible | preprocessing/src/text_cleaning/clean_supremecourt_judgments.py:71 | the trailing-space replacement only touches whitespace |
| Substitution.DeepIndentShrinks | preprocessing/src/text_cleaning/clean_kp_code.py:107 | `\n {3,}` matches are non-empty and lie inside the text, and each replacement is no longer than its match |
| Substitution.DeepIndentKeepsVisible | preprocessing/src/text_cleaning/clean_kp_code.py:107 | the indent replacement only touches whitespace |
| Substitution.RuleLineShrinks | preprocessing/src/text_cleaning/clean_balochistan_code.py:88 | separator-line matches are non-empty and lie inside the text, and each replacement is no longer than its match |
| Substitution.BlankRuleLineShrinks | preprocessing/src/text_cleaning/clean_kp_code.py:117 | mixed separator-line matches are non-empty and lie inside the text, and each replacement is no longer than its match |
| Substitution.PageMarkerShrinks | preprocessing/src/text_cleaning/clean_kp_code.py:81-84 | page-marker matches are non-empty and lie inside the text, and each replacement is no longer than its match |
| Substitution.PageOfPagesShrinks | preprocessing/src/text_cleaning/clean_pakistan_code.py:84 | `Page N of M` matches are non-empty and lie inside the text, and each replacement is no longer than its match |
| Substitution.HeaderLineShrinks | preprocessing/src/text_cleaning/clean_pakistan_code.py:102-106 | title-line matches are non-empty and lie inside the text, and each replacement is no longer than its match |
| Substitution.BlankBeforePunctShrinks | preprocessing/src/text_cleaning/clean_pakistan_code.py:158 | ` +([.,;:)])` matches are non-empty and lie inside the text, and each replacement is no longer than its match |
| Substitution.BlankBeforePunctKeepsVisible | preprocessing/src/text_cleaning/clean_pakistan_code.py:158 | the replacement keeps the punctuation and drops only spaces |
| Substitution.BareNoteNumberShrinks | preprocessing/src/text_cleaning/clean_pakistan_code.py:171 | bare footnote-number line matches are non-empty and lie inside the text, and each replacement is no longer than its match |
| Substitution.AmendmentNoteAdvances | preprocessing/src/text_cleaning/clean_pakistan_code.py:175 | amendment-footnote matches are non-empty and lie inside the text |
| Substitution.FootnoteAdvances | preprocessing/src/text_cleaning/clean_balochistan_code.py:101-108 | legislative and amendment footnote matches are non-empty and lie inside the text |
| Embeddings.LastId | preprocessing/src/embeddings_upload/add_embeddings.py:34-46 | the last id is 0 unless the file's last line parses with that id |
| Embeddings.LastIdAfterAppend | preprocessing/src/embeddings_upload/add_embeddings.py:43-44 | after records are appended, the last id read back is the last record's, so the next run continues the numbering |
| Embeddings.ExistsForMeaning | preprocessing/src/embeddings_upload/add_embeddings.py:48-60 | embeddings exist for a title iff some parsed line has that title |
| Embeddings.EmbeddingsExistFor | preprocessing/src/embeddings_upload/add_embeddings.py:48-60 | the line scan answers `ExistsFor` |
| Embeddings.Unprefixed | preprocessing/src/embeddings_upload/add_embeddings.py:84-86 | the stripped path starts with neither `../` nor `./`, is a suffix of the original, and an unprefixed path is returned as is |
| Embeddings.StripRelative | preprocessing/src/embeddings_upload/add_embeddings.py:85-86 | the `while` loop computes `Unprefixed` |
| Paths.ResolvePlain | preprocessing/src/embeddings_upload/add_embeddings.py:87 | `resolve()` leaves a path without a `..` component unchanged |
| Paths.ResolveCancel | preprocessing/src/embeddings_upload/add_embeddings.py:87 | `resolve()` cancels a component followed by `..`, wherever it stands in the path |
| Embeddings.ChunkKeyPlain | preprocessing/src/embeddings_upload/add_embeddings.py:84-87 | a chunk path without `..` after its stripped prefix is looked up by its own components |
| Embeddings.YearTextMeaning | preprocessing/src/embeddings_upload/add_embeddings.py:108 | the embedding text names a year exactly when `year` is present and not the falsy number 0 |
| Embeddings.NonEmpty | preprocessing/src/embeddings_upload/add_embeddings.py:119 | `filter(None, ...)` keeps exactly the non-empty items |
| Embeddings.EmbeddingTextEndsWithChunk | preprocessing/src/embeddings_upload/add_embeddings.py:111-119 | the embedding text ends with the chunk text |
| Embeddings.EmbeddingTextBare | preprocessing/src/embeddings_upload/add_embeddings.py:111-119 | with every label empty the embedding text is the chunk text alone |
| Embeddings.RecordsFacts | preprocessing/src/embeddings_upload/add_embeddings.py:103-148 | record `k` is built from chunk `k` with id `first + k`; the batch completes iff every chunk has a `text`, and otherwise stops at the first chunk without one |
| Embeddings.EmbedChunks | preprocessing/src/embeddings_upload/add_embeddings.py:103-148 | the chunk loop produces `Records`, appends their lines to the file and advances the id counter by the number of records |
| Embeddings.Mark | preprocessing/src/embeddings_upload/add_embeddings.py:151-152 | sets `embedded` and `status` = `embedded`, and nothing else |
| Embeddings.DocOutcomeFacts | preprocessing/src/embeddings_upload/add_embeddings.py:74-153 | appended records are numbered consecutively from the counter with `upload` false; a document is marked only if it has a readable chunk file; a skipped document is passed over; a document that is not skipped and has a readable chunk file is embedded exactly when every chunk has text, with one record per chunk; the document crashes the run exactly when it is not skipped and either has no `chunked_path` or a chunk without text |
| Embeddings.EmbedAllRecords | preprocessing/src/embeddings_upload/add_embeddings.py:71-148 | the file after the run is the old file plus one line per record, and the ids run consecutively from `get_last_id + 1` |
| Embeddings.EmbedAllDocs | preprocessing/src/embeddings_upload/add_embeddings.py:74-153 | each processed document is unchanged or marked, marked only when it had a readable chunk file, and marked whenever it had one and was not skipped (given a handler that marks every such document); a crash ends the run early |
| Embeddings.HandleFacts | preprocessing/src/embeddings_upload/add_embeddings.py:74-153 | the per-document step numbers its records from the counter, marks only documents with a readable chunk file, and marks every such document that is not skipped unless it crashes |
| Embeddings.EmbedAllStops | preprocessing/src/embeddings_upload/add_embeddings.py:74-153 | once a document crashes the run, nothing after it is processed |
| Embeddings.EmbedDocument | preprocessing/src/embeddings_upload/add_embeddings.py:74-153 | one document's outcome; the lines and counter grow by its records |
| Embeddings.EmbedDocuments | preprocessing/src/embeddings_upload/add_embeddings.py:74-155 | the document loop yields `EmbedAll`: its lines, `total_added` = the number of records, and the documents last saved |
| Embeddings.AddEmbeddings | preprocessing/src/embeddings_upload/add_embeddings.py:65-157 | without `documents` nothing happens; otherwise the run numbers from `get_last_id + 1` and the registry is saved with the documents as of the last marked one |
| Extraction.ExtractFromPdf | preprocessing/src/text_extraction/extract_text.py:47-90 | the page loop and fallback return `Extract` of the file; no text means no OCR flag |
| Extraction.UsesOcrMeaning | preprocessing/src/text_extraction/extract_text.py:62-75 | OCR is reported iff some page without text had non-empty OCR text |
| Extraction.DigitalPagesKept | preprocessing/src/text_extraction/extract_text.py:62-68 | when every page has text, the page texts are kept one by one and no OCR is used |
| Extraction.KeptInPageTexts | preprocessing/src/text_extraction/extract_text.py:62-75 | whatever a page contributes appears in the collected texts |
| Extraction.HasTextStrip | preprocessing/src/text_extraction/extract_text.py:67 | the page test `page_text.strip()` holds iff the text has a character that is not Python whitespace (`str.isspace`, which includes U+00A0 and the other Unicode spaces) |
| Extraction.ExtractVisible | preprocessing/src/text_extraction/extract_text.py:62-86 | a file with one page that has visible text (own or OCR) yields visible text whenever it yields any |
| Extraction.ExtractFails | preprocessing/src/text_extraction/extract_text.py:57-90 | no text iff the PDF is unreadable, or the page text is too short and `pdfminer` raised |
| Extraction.FallbackRule | preprocessing/src/text_extraction/extract_text.py:80-84 | the result is the pages joined by a blank line, or the `pdfminer` text when the joined page text is under 50 characters after strip and the `pdfminer` text is over 50; otherwise `pdfminer` does not matter |
| Extraction.PdfNameBecomesTxt | preprocessing/src/text_extraction/extract_text.py:140 | a `.pdf` name (any case) becomes the same stem with `.txt` |
| Extraction.TextFileMirrorsRaw | preprocessing/src/text_extraction/extract_text.py:139-140 | `data/raw/<dirs>/<name>` maps to `data/text/<dirs>/<name with .txt>` |
| Paths.WithTxtSuffixIdempotent | preprocessing/src/text_extraction/extract_text.py:140 | replacing the suffix by `.txt` twice equals doing it once |
| Extraction.FirstMatching | preprocessing/src/text_extraction/extract_text.py:223-237 | the first document that matches the file, or none if none matches |
| Extraction.FindDocument | preprocessing/src/text_extraction/extract_text.py:223-227 | the inner loop finds `FirstMatching` under the `raw_path` rule |
| Extraction.MarkExtracted | preprocessing/src/text_extraction/extract_text.py:229-234 | sets `text_path` and `text_extracted` (creating `processing_status` if absent), and nothing else |
| Extraction.ApplyExtracted | preprocessing/src/text_extraction/extract_text.py:221-237 | the document list keeps its length |
| Extraction.ApplyAll | preprocessing/src/text_extraction/extract_text.py:221-237 | the document list keeps its length |
| Extraction.EmptyRawPathMatches | preprocessing/src/text_extraction/extract_text.py:224-227 | a document with an empty or missing `raw_path` matches every file |
| Extraction.EmptyRawPathShadows | preprocessing/src/text_extraction/extract_text.py:221-237 | such a document, or one before it, is the match for every file |
| Extraction.NameSuffixMatches | preprocessing/src/text_extraction/extract_text.py:227 | a file whose name ends with the `raw_path`'s file name matches |
| Extraction.LooseNameMatch | preprocessing/src/text_extraction/extract_text.py:227 | the suffix test is textual: `raw_path` `x.pdf` matches `data\raw\tax.pdf` |
| Extraction.ApplyAllKeeps | preprocessing/src/text_extraction/extract_text.py:221-237 | only `text_path` and `processing_status` of any document change |
| Extraction.ApplyAllTouches | preprocessing/src/text_extraction/extract_text.py:221-237 | a document that is no file's first match is unchanged |
| Extraction.ApplyAllMarks | preprocessing/src/text_extraction/extract_text.py:229-234 | every first match ends up flagged `text_extracted` with a `text_path` |
| Extraction.ApplyAllFails | preprocessing/src/text_extraction/extract_text.py:236 | the update raises iff some file's first match has no `title` |
| Extraction.MetadataAfterShape | preprocessing/src/text_extraction/extract_text.py:209-250 | nothing is written iff the registry is missing, `documents` is missing while there are files, or a match has no `title`; otherwise the updated documents and the new `last_updated` are written and every other key keeps its value and place |
| Extraction.UpdateMetadata | preprocessing/src/text_extraction/extract_text.py:209-250 | the nested loops write exactly `MetadataAfter` |
| Extraction.TextExtractor.constructor | preprocessing/src/text_extraction/extract_text.py:39-45 | all four counters start at zero |
| Extraction.TextExtractor.ProcessFile | preprocessing/src/text_extraction/extract_text.py:118-134 | `.pdf` files (suffix compared in lower case) are extracted and others give nothing; `ocr_used` grows by one exactly when OCR was used |
| Extraction.TextExtractor.ExtractAll | preprocessing/src/text_extraction/extract_text.py:152-204 | `total_files` is the file count; `successful` grows by the extracted files and `failed` by the rest; `ocr_used` by the OCR count; the writes and the registry update are those of the extracted files |
| Extraction.ExtractText | preprocessing/src/text_extraction/extract_text.py:264-268 | a fresh run has `successful + failed == total_files ==` the number of files |
| Extraction.ExtractedDocsBound | preprocessing/src/text_extraction/extract_text.py:174-201 | successes and OCR uses never exceed the number of files |
| Extraction.ExtractedDocsMembers | preprocessing/src/text_extraction/extract_text.py:180-197 | the extracted entries are exactly those of the files whose text is non-empty after strip |
| Extraction.VisiblePdfSucceeds | preprocessing/src/text_extraction/extract_text.py:118-180 | a `.pdf` file with a page of visible text succeeds when its page text is long enough or `pdfminer` answers |

## Left out

- File reading and writing, JSON parsing and dumping, `mkdir`, printing and
  logging are not modelled. Files are maps given as parameters. The text and
  JSONL files a stage writes are returned as values.
- Timestamps (`datetime.now()`) are parameters. The cleaners read the clock
  once per file (`Cleaning.Clock`), so each file's `cleaned_at` is its own.
- `Path.resolve()` is modelled as collapsing each `..` with the component
  before it. Symbolic links, and a `..` that climbs above the project root,
  are not modelled.
- `year` is a JSON number or `null`; a year stored as a string is not
  modelled.
- A failure to create the output directory or write the cleaned file is
  not modelled; `clean_file` fails in the model only when its text file
  cannot be read.
- The PDF libraries (`fitz`, `pdfminer`, `pytesseract`) are not modelled. A
  file is given as the texts they return (`Extraction.Pdf`).
- The sentence encoder is the parameter `encode`; its vectors are opaque.
- `reduction_percent`, its rounding, and the summaries that
  `_print_summary` prints are not modelled.
- Extra entries in `extract_all`'s document record (`file_size`,
  `extracted_at`, `word_count`, …) are not modelled; `_update_metadata`
  reads only `original_file` and `text_file`.
- Some regex passes are uninterpreted functions (`Passes.Oracles`):
  - the section counter `\n\s*\d+\.\s+[A-Z]`;
  - the Pakistan act-title search;
  - the administrative date stamps;
  - the table of contents.
- A JSON `null` is read as a missing key.
- Case conversion is ASCII only (`str.upper`, `str.lower`, `re.IGNORECASE`).
- `\d` matches only the ASCII digits; the other Unicode decimal digits that
  Python's `\d` also matches are not modelled.
- Paths are Windows paths, which is where these scripts run; POSIX
  semantics are not modelled.
- `preprocessing/src/chunking/create_empty_jsons.py` is not part of this
  model; it is a directory walk that creates files.
- `upload_embeddings.py`, `test_qdrant_query.py` and
  `test_qdrant_queries_batch.py` are not part of this model; they are
  database and network clients.
- Validation.KeptShareExact: the thresholds are exact rationals, so the
  last-bit rounding of float products such as `original * 0.8` is ignored.
  The same holds for Validation.SectionDiffExact and
  Validation.PakistanSectionsExact.
- ChunkStatus.UpdateChunkStatus: `main` is modelled with the corrected key
  loop `RebuildKeys`, not with the loop as written (`AsWrittenCopy`). From
  the second run on, the script as written saves the stale `total_chunked`
  (see ## Findings); the model saves this run's count.
- Embeddings.EmbedDocument: its result is stated through the ghost `handle`
  parameter. `Implements` ties `handle` to `DocOutcome`, the function that
  states what one document does.
- Embeddings.AddEmbeddings: when the run crashes, the registry written
  before the crash is what the model returns. A write interrupted halfway
  is not modelled.

## Findings

| source | as written | input that shows it | evidently intended | confidence | as-written member | corrected member |
|---|---|---|---|---|---|---|
| preprocessing/src/chunking/update_chunk_status.py:75-80 | The key loop inserts the fresh `total_chunked` right after `total_cleaned`. It then copies the registry's own `total_chunked`, left by the previous run right after `total_cleaned`, over the fresh value. | keys `total_cleaned` = 1, `total_chunked` = 0, and one valid chunk file: the saved `total_chunked` is 0, not 1 | `total_chunked` holds this run's count | not executed | ChunkStatus.AsWrittenKeepsStale | ChunkStatus.RebuildKeys |
