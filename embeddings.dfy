/**
 * `add_embeddings.py`: for every chunked document, build one record per chunk
 * of its chunk file, append the records to `embeddings.jsonl` with ids that
 * continue the file's numbering, and mark the document `embedded`.
 *
 * The sentence encoder is the parameter `encode`; the embeddings file is the
 * sequence of its lines (a missing file reads as no lines), and chunk files
 * are a map from the components of their path to their parsed contents.
 */
module Embeddings {
  import opened Wrappers
  import opened Strings
  import opened Paths
  import opened Registry

  /** One entry of a chunk file's `chunks` list; `text` is read with `chunk["text"]`. */
  datatype Chunk = Chunk(text: Option<string>, chunkTitle: Option<string>, chunkType: Option<string>, chunkIndex: Option<int>)

  datatype ChunkData = ChunkData(documentType: Option<string>, chunks: seq<Chunk>)

  /** A path absent from the map does not exist; `None` is a file `json.load` rejects. */
  type ChunkFiles = map<seq<string>, Option<ChunkData>>

  /**
   * A line of `embeddings.jsonl` as the script reads it back: a line that does
   * not parse (or has no `metadata`) is `Garbage`; otherwise the `id` and
   * `title` of its `metadata`, each `None` when absent.
   */
  datatype Line = Garbage | Entry(id: Option<int>, title: Option<string>)

  /** The record appended for one chunk. */
  datatype EmbeddingRecord = EmbeddingRecord(
    chunk: string,
    embedding: seq<real>,
    upload: bool,
    id: int,
    title: string,
    sourcePage: Option<string>,
    sourceUrl: Option<string>,
    sourceWebsite: Option<string>,
    cleanedPath: Option<string>,
    downloadDate: Option<string>,
    documentType: string,
    year: Option<int>,
    court: Option<string>,
    chunkIndex: Option<int>,
    chunkType: string,
    chunkTitle: string)

  /** The line a record becomes once written and read back. */
  function LineOf(rec: EmbeddingRecord): Line {
    Entry(Some(rec.id), Some(rec.title))
  }

  function LinesOf(recs: seq<EmbeddingRecord>): seq<Line>
  {
    if recs == [] then [] else LinesOf(recs[..|recs| - 1]) + [LineOf(recs[|recs| - 1])]
  }

  // ----- Reading the embeddings file ---------------------------------------------

  /**
   * `get_last_id`: the `metadata.id` of the last line, or 0 when the file is
   * missing or empty or its last line cannot be read.
   */
  function LastId(lines: seq<Line>): (id: int)
    ensures id != 0 ==> lines != [] && lines[|lines| - 1].Entry? && lines[|lines| - 1].id == Some(id)
  {
    if lines == [] then 0
    else match lines[|lines| - 1]
      case Garbage => 0
      case Entry(None, _) => 0
      case Entry(Some(id), _) => id
  }

  /** `embeddings_exist_for`: some readable line carries `title` (both may be absent). */
  predicate ExistsFor(title: Option<string>, lines: seq<Line>) {
    lines != [] &&
    (ExistsFor(title, lines[..|lines| - 1]) || (lines[|lines| - 1].Entry? && lines[|lines| - 1].title == title))
  }

  /** `ExistsFor` holds exactly when some line is an entry with that title. */
  lemma {:induction false} ExistsForMeaning(title: Option<string>, lines: seq<Line>)
    ensures ExistsFor(title, lines) <==> exists k :: 0 <= k < |lines| && lines[k].Entry? && lines[k].title == title
    decreases |lines|
  {
    if lines != [] {
      var init := lines[..|lines| - 1];
      ExistsForMeaning(title, init);
      assert forall k :: 0 <= k < |init| ==> init[k] == lines[k];
    }
  }

  /** The skip rule: not chunked, or already embedded with records on file. */
  predicate Skip(d: Document, lines: seq<Line>) {
    !Flag(d, "chunked") || (Flag(d, "embedded") && ExistsFor(d.title, lines))
  }

  // ----- Resolving the chunk path ----------------------------------------------------

  /** `chunked_path` with every leading `../` and `./` taken off. */
  function Unprefixed(p: string): (r: string)
    ensures !("../" <= r) && !("./" <= r)
    ensures EndsWith(p, r)
    ensures !("../" <= p) && !("./" <= p) ==> r == p
    decreases |p|
  {
    if "../" <= p then
      var r := Unprefixed(p[3..]);
      assert p[|p| - |r|..] == p[3..][|p| - 3 - |r|..];
      r
    else if "./" <= p then
      var r := Unprefixed(p[2..]);
      assert p[|p| - |r|..] == p[2..][|p| - 2 - |r|..];
      r
    else p
  }

  /** `s.partition("/")[2]`: the text after the first `/`, or empty. */
  function AfterFirstSlash(s: string): string {
    match IndexOf(s, '/')
    case None => []
    case Some(i) => s[i + 1..]
  }

  /** The prefix-stripping `while` loop. */
  method StripRelative(p: string) returns (r: string)
    ensures r == Unprefixed(p)
  {
    r := p;
    while "../" <= r || "./" <= r
      invariant Unprefixed(r) == Unprefixed(p)
      decreases |r|
    {
      PartitionPrefix(r);
      r := AfterFirstSlash(r);
    }
  }

  /** On a path starting with `../` or `./`, `partition` drops exactly that prefix. */
  lemma PartitionPrefix(r: string)
    requires "../" <= r || "./" <= r
    ensures "../" <= r ==> AfterFirstSlash(r) == r[3..]
    ensures !("../" <= r) ==> AfterFirstSlash(r) == r[2..]
  {
    var n := if "../" <= r then 2 else 1;
    if "../" <= r {
      assert r[..3] == "../";
    } else {
      assert r[..2] == "./";
    }
    assert r[n] == '/';
    var i := IndexOf(r, '/').value;
    assert r[0] == '.' && r[n - 1] == '.';
  }

  /**
   * The chunk file a document names, relative to the project root:
   * `(BASE_DIR / chunked_path_str).resolve()`.
   */
  function ChunkKey(chunkedPath: string): seq<string> {
    Resolve(Components(Unprefixed(chunkedPath)))
  }

  /** A chunk path without a `..` component after its prefix is looked up by its own components. */
  lemma ChunkKeyPlain(chunkedPath: string)
    requires forall k :: 0 <= k < |Components(Unprefixed(chunkedPath))| ==> Components(Unprefixed(chunkedPath))[k] != ".."
    ensures ChunkKey(chunkedPath) == Components(Unprefixed(chunkedPath))
  {
    ResolvePlain(Components(Unprefixed(chunkedPath)));
  }

  // ----- The embedding text ----------------------------------------------------------

  /** `filter(None, items)` on strings: the non-empty ones, in order. */
  function NonEmpty(items: seq<string>): (r: seq<string>)
    ensures forall x :: x in r <==> x in items && x != []
    decreases |items|
  {
    if items == [] then []
    else NonEmpty(items[..|items| - 1]) + (if items[|items| - 1] != [] then [items[|items| - 1]] else [])
  }

  const Separator: string := " | "

  /** The six candidate parts of the text handed to the encoder. */
  function TextParts(documentType: string, title: string, chunkType: string, chunkTitle: string,
                     year: string, text: string): seq<string>
  {
    [documentType, title, chunkType, chunkTitle, if year != [] then "Year " + year else [], text]
  }

  function EmbeddingText(documentType: string, title: string, chunkType: string, chunkTitle: string,
                         year: string, text: string): string
  {
    Join(NonEmpty(TextParts(documentType, title, chunkType, chunkTitle, year, text)), Separator)
  }

  /**
   * `str(doc.get("year", "")) if doc.get("year") else ""`: the registry holds
   * `year` as a number or `null`, and the number `0` is falsy.
   */
  function YearText(d: Document): string {
    if d.year.Some? && d.year.value != 0 then Decimal(d.year.value) else []
  }

  /** The embedding text names a year exactly when the document has a non-zero one. */
  lemma YearTextMeaning(d: Document)
    ensures YearText(d) == [] <==> d.year.None? || d.year.value == 0
  {
  }

  /** What every record of a document shares: its `document_type` and the year in its embedding text. */
  datatype Labels = Labels(documentType: string, year: string)

  /** The record built for chunk `c` of document `d`, whose text is `text`. */
  function RecordOf(d: Document, labels: Labels, c: Chunk, text: string, id: int,
                    encode: string -> seq<real>): EmbeddingRecord
  {
    var title := d.title.GetOr([]);
    var chunkTitle := c.chunkTitle.GetOr([]);
    var chunkType := c.chunkType.GetOr([]);
    var input := EmbeddingText(labels.documentType, title, chunkType, chunkTitle, labels.year, text);
    EmbeddingRecord(text, encode(input), false, id, title, d.sourcePage, d.sourceUrl,
      d.sourceWebsite, d.cleanedPath, d.downloadDate, labels.documentType, d.year, d.court,
      c.chunkIndex, chunkType, chunkTitle)
  }

  // ----- One document ----------------------------------------------------------------

  /** The records of a chunk list; `complete` is false when a chunk without `text` stops the run. */
  datatype Batch = Batch(records: seq<EmbeddingRecord>, complete: bool)

  function Records(d: Document, labels: Labels, chunks: seq<Chunk>, first: int,
                   encode: string -> seq<real>): Batch
  {
    if chunks == [] then Batch([], true)
    else BatchStep(Records(d, labels, chunks[..|chunks| - 1], first, encode), d, labels,
                   chunks[|chunks| - 1], first, encode)
  }

  /** One more chunk: its record is numbered after those before it, or the batch stops. */
  function BatchStep(prev: Batch, d: Document, labels: Labels, c: Chunk, first: int,
                     encode: string -> seq<real>): Batch
  {
    if !prev.complete || c.text.None? then Batch(prev.records, false)
    else Batch(prev.records + [RecordOf(d, labels, c, c.text.value, first + |prev.records|, encode)], true)
  }

  /**
   * The records of a chunk list: record `k` is built from chunk `k` with id
   * `first + k`; the batch is complete exactly when every chunk has a
   * `text`, and otherwise stops at the first chunk without one.
   */
  lemma {:induction false} RecordsFacts(d: Document, labels: Labels, chunks: seq<Chunk>, first: int,
                                        encode: string -> seq<real>)
    ensures var b := Records(d, labels, chunks, first, encode);
      |b.records| <= |chunks| &&
      (forall k :: 0 <= k < |b.records| ==>
        chunks[k].text.Some? &&
        b.records[k] == RecordOf(d, labels, chunks[k], chunks[k].text.value, first + k, encode)) &&
      (b.complete <==> forall k :: 0 <= k < |chunks| ==> chunks[k].text.Some?) &&
      (b.complete ==> |b.records| == |chunks|) &&
      (!b.complete ==> chunks[|b.records|].text.None?)
    decreases |chunks|
  {
    if chunks != [] {
      var init := chunks[..|chunks| - 1];
      RecordsFacts(d, labels, init, first, encode);
      assert forall k :: 0 <= k < |init| ==> init[k] == chunks[k];
    }
  }

  /** What handling one document does. */
  datatype Outcome =
    | Pass                                    // skipped, or its chunk file is missing or unreadable
    | Crash(partial: seq<EmbeddingRecord>)    // `KeyError` after appending `partial`
    | Embedded(records: seq<EmbeddingRecord>)

  /** `doc["processing_status"]["embedded"] = True; doc["status"] = "embedded"` */
  function Mark(d: Document): (r: Document)
    ensures Flag(r, "embedded") && r.status == Some("embedded")
    ensures forall g :: g != "embedded" ==> Flag(r, g) == Flag(d, g)
    ensures r.(processingStatus := d.processingStatus, status := d.status) == d
  {
    SetFlag(d, "embedded", true).(status := Some("embedded"))
  }

  /** The `document_type` every record of `d` carries. */
  function DocumentType(d: Document, data: ChunkData): string {
    if d.documentType.Some? then d.documentType.value else data.documentType.GetOr("unknown")
  }

  /** The labels of the records of `d`, whose chunk file holds `data`. */
  function LabelsOf(d: Document, data: ChunkData): Labels {
    Labels(DocumentType(d, data), YearText(d))
  }

  /**
   * What `main` does with document `d` when the embeddings file holds `lines`
   * and the next id is `nextId`.
   */
  function DocOutcome(d: Document, lines: seq<Line>, files: ChunkFiles, nextId: int,
                      encode: string -> seq<real>): Outcome
  {
    if Skip(d, lines) then Pass
    else if d.chunkedPath.None? then Crash([])
    else
      var key := ChunkKey(d.chunkedPath.value);
      if key !in files || files[key].None? then Pass
      else
        var data := files[key].value;
        var b := Records(d, LabelsOf(d, data), data.chunks, nextId, encode);
        if b.complete then Embedded(b.records) else Crash(b.records)
  }

  /** The chunks of the chunk file a document names. */
  function ChunksOf(d: Document, files: ChunkFiles): seq<Chunk>
    requires Embeddable(d, files)
  {
    files[ChunkKey(d.chunkedPath.value)].value.chunks
  }

  /** Every chunk has a `text`, so `chunk["text"]` never raises. */
  predicate AllHaveText(chunks: seq<Chunk>) {
    forall k :: 0 <= k < |chunks| ==> chunks[k].text.Some?
  }

  /**
   * The records a document appends are numbered on from `nextId` and none is
   * uploaded yet; a skipped document is passed over, and one that is not
   * skipped and whose chunk file reads is not.  Such a document is marked
   * exactly when every chunk has a `text`, and then gets one record per
   * chunk; the loop stops on a document that is not skipped and has no
   * `chunked_path`, or whose chunk file holds a chunk without `text`.
   */
  lemma DocOutcomeFacts(d: Document, lines: seq<Line>, files: ChunkFiles, nextId: int,
                        encode: string -> seq<real>)
    ensures var o := DocOutcome(d, lines, files, nextId, encode);
      (forall k :: 0 <= k < |Appended(o)| ==> Appended(o)[k].id == nextId + k && !Appended(o)[k].upload) &&
      (o.Embedded? ==> Embeddable(d, files)) &&
      (Skip(d, lines) ==> o.Pass?) &&
      (!Skip(d, lines) && Embeddable(d, files) ==> !o.Pass?)
    ensures var o := DocOutcome(d, lines, files, nextId, encode);
      !Skip(d, lines) && Embeddable(d, files) ==>
        (o.Embedded? <==> AllHaveText(ChunksOf(d, files))) &&
        (o.Embedded? ==> |o.records| == |ChunksOf(d, files)|)
    ensures var o := DocOutcome(d, lines, files, nextId, encode);
      o.Crash? <==>
        !Skip(d, lines) && (d.chunkedPath.None? || (Embeddable(d, files) && !AllHaveText(ChunksOf(d, files))))
  {
    if !Skip(d, lines) && d.chunkedPath.Some? {
      var key := ChunkKey(d.chunkedPath.value);
      if key in files && files[key].Some? {
        var data := files[key].value;
        RecordsFacts(d, LabelsOf(d, data), data.chunks, nextId, encode);
      }
    }
  }

  // ----- The whole run ---------------------------------------------------------------

  /**
   * The state after a prefix of the documents: the documents handled so far
   * (as they now stand), the embeddings file, the records appended, whether
   * the registry was saved, and whether the run is still going.
   */
  datatype Run = Run(docs: seq<Document>, lines: seq<Line>, records: seq<EmbeddingRecord>,
                     saved: bool, complete: bool)

  function RunStep(run: Run, d: Document, o: Outcome): Run {
    match o
    case Pass => run.(docs := run.docs + [d])
    case Crash(recs) => Run(run.docs, run.lines + LinesOf(recs), run.records + recs, run.saved, false)
    case Embedded(recs) => Run(run.docs + [Mark(d)], run.lines + LinesOf(recs), run.records + recs, true, true)
  }

  /** The records a document's outcome appends. */
  function Appended(o: Outcome): seq<EmbeddingRecord> {
    match o
    case Pass => []
    case Crash(recs) => recs
    case Embedded(recs) => recs
  }

  /** One more document handled with outcome `o`, unless the run has already stopped. */
  function EmbedStep(prev: Run, d: Document, o: Outcome): Run {
    if !prev.complete then prev else RunStep(prev, d, o)
  }

  /** What handling one document does, given the embeddings file and the next id. */
  type Handler = (Document, seq<Line>, int) -> Outcome

  /** The handler of `main`: `DocOutcome` for these chunk files and this encoder. */
  function Handle(files: ChunkFiles, encode: string -> seq<real>): Handler {
    (d: Document, lines: seq<Line>, nextId: int) => DocOutcome(d, lines, files, nextId, encode)
  }

  /** `handle` agrees with `DocOutcome` wherever the latter is mentioned. */
  ghost predicate Implements(handle: Handler, files: ChunkFiles, encode: string -> seq<real>) {
    forall d, lines, nextId {:trigger DocOutcome(d, lines, files, nextId, encode)} ::
      handle(d, lines, nextId) == DocOutcome(d, lines, files, nextId, encode)
  }

  /** The outcome of `d` when it comes after the run `prev`. */
  function NextOutcome(prev: Run, d: Document, handle: Handler, first: int): Outcome {
    handle(d, prev.lines, first + |prev.records|)
  }

  /**
   * The loop of `main` over the documents, with the embeddings file read as
   * `file` at the start, ids numbered from `first`, and each document handled
   * by `handle`.
   */
  function EmbedAll(docs: seq<Document>, file: seq<Line>, handle: Handler, first: int): Run
  {
    if docs == [] then Run([], file, [], false, true)
    else
      var prev := EmbedAll(docs[..|docs| - 1], file, handle, first);
      EmbedStep(prev, docs[|docs| - 1], NextOutcome(prev, docs[|docs| - 1], handle, first))
  }

  /** The records `recs` are numbered on from `nextId` and none is uploaded yet. */
  predicate Numbered(recs: seq<EmbeddingRecord>, nextId: int) {
    forall k :: 0 <= k < |recs| ==> recs[k].id == nextId + k && !recs[k].upload
  }

  /** Every outcome of `handle` appends records numbered on from the id it was given. */
  ghost predicate NumbersOn(handle: Handler) {
    forall d, lines, nextId :: Numbered(Appended(handle(d, lines, nextId)), nextId)
  }

  /** `handle` marks only documents that can be marked. */
  ghost predicate MarksOnly(handle: Handler, files: ChunkFiles) {
    forall d, lines, nextId :: handle(d, lines, nextId).Embedded? ==> Embeddable(d, files)
  }

  /**
   * `handle` marks every document it neither skips nor stops on and whose
   * chunk file reads.
   */
  ghost predicate MarksEvery(handle: Handler, files: ChunkFiles) {
    forall d, lines, nextId ::
      !Skip(d, lines) && Embeddable(d, files) && !handle(d, lines, nextId).Crash? ==>
        handle(d, lines, nextId).Embedded?
  }

  /** The handler of `main` numbers its records on, marks only what it can, and marks all it can. */
  lemma HandleFacts(files: ChunkFiles, encode: string -> seq<real>)
    ensures NumbersOn(Handle(files, encode)) && MarksOnly(Handle(files, encode), files)
    ensures MarksEvery(Handle(files, encode), files)
    ensures Implements(Handle(files, encode), files, encode)
  {
    forall d, lines, nextId
      ensures Numbered(Appended(Handle(files, encode)(d, lines, nextId)), nextId)
      ensures Handle(files, encode)(d, lines, nextId).Embedded? ==> Embeddable(d, files)
      ensures !Skip(d, lines) && Embeddable(d, files) && !Handle(files, encode)(d, lines, nextId).Crash? ==>
        Handle(files, encode)(d, lines, nextId).Embedded?
    {
      DocOutcomeFacts(d, lines, files, nextId, encode);
    }
  }

  /**
   * What the run promises about the file: it holds the old lines and one
   * line per appended record; ids run on from `first` without gaps, so they
   * increase and never repeat; no record is uploaded yet.
   */
  lemma {:induction false} EmbedAllRecords(docs: seq<Document>, file: seq<Line>, handle: Handler, first: int)
    requires NumbersOn(handle)
    ensures var r := EmbedAll(docs, file, handle, first);
      r.lines == file + LinesOf(r.records) && Numbered(r.records, first)
    decreases |docs|
  {
    if docs != [] {
      var init := docs[..|docs| - 1];
      EmbedAllRecords(init, file, handle, first);
      var prev := EmbedAll(init, file, handle, first);
      RecordsStep(prev, docs[|docs| - 1], NextOutcome(prev, docs[|docs| - 1], handle, first), file, first);
    }
  }

  /** `EmbedAllRecords` for one step, with the run so far and the outcome as parameters. */
  lemma RecordsStep(prev: Run, d: Document, o: Outcome, file: seq<Line>, first: int)
    requires prev.lines == file + LinesOf(prev.records)
    requires Numbered(prev.records, first)
    requires Numbered(Appended(o), first + |prev.records|)
    ensures var r := EmbedStep(prev, d, o);
      r.lines == file + LinesOf(r.records) && Numbered(r.records, first)
  {
    if prev.complete {
      StepRecords(prev, d, o);
      LinesOfAppend(prev.records, Appended(o));
    }
  }

  /** One outcome appends its records to the run and their lines to the file. */
  lemma StepRecords(prev: Run, d: Document, o: Outcome)
    ensures RunStep(prev, d, o).records == prev.records + Appended(o)
    ensures RunStep(prev, d, o).lines == prev.lines + LinesOf(Appended(o))
  {
    if o.Pass? {
      assert prev.lines + LinesOf([]) == prev.lines;
      assert prev.records + [] == prev.records;
    }
  }

  /**
   * What the run does to the documents: every document handled is either
   * untouched or marked, and marked only when it is chunked and its chunk
   * file exists and parses.
   */
  lemma {:induction false} EmbedAllDocs(docs: seq<Document>, file: seq<Line>, handle: Handler, first: int,
                                        files: ChunkFiles)
    requires MarksOnly(handle, files) && MarksEvery(handle, files)
    ensures var r := EmbedAll(docs, file, handle, first);
      (r.complete ==> |r.docs| == |docs|) && (!r.complete ==> |r.docs| < |docs|) &&
      forall i :: 0 <= i < |r.docs| ==> r.docs[i] == docs[i] || (r.docs[i] == Mark(docs[i]) && Embeddable(docs[i], files))
    ensures var r := EmbedAll(docs, file, handle, first);
      forall i ::
        (0 <= i < |r.docs| && Embeddable(docs[i], files) &&
         !Skip(docs[i], EmbedAll(docs[..i], file, handle, first).lines)) ==> r.docs[i] == Mark(docs[i])
    decreases |docs|
  {
    if docs != [] {
      var init := docs[..|docs| - 1];
      EmbedAllDocs(init, file, handle, first, files);
      var prev := EmbedAll(init, file, handle, first);
      DocsStep(prev, init, docs[|docs| - 1], NextOutcome(prev, docs[|docs| - 1], handle, first), files);
      assert init + [docs[|docs| - 1]] == docs;
      MarksStep(docs, file, handle, first, files);
    }
  }

  /** The marking half of `EmbedAllDocs` for one more document. */
  lemma MarksStep(docs: seq<Document>, file: seq<Line>, handle: Handler, first: int, files: ChunkFiles)
    requires docs != [] && MarksEvery(handle, files)
    requires var init := docs[..|docs| - 1];
      var prev := EmbedAll(init, file, handle, first);
      |prev.docs| <= |init| && (prev.complete ==> |prev.docs| == |init|) &&
      forall i ::
        (0 <= i < |prev.docs| && Embeddable(init[i], files) &&
         !Skip(init[i], EmbedAll(init[..i], file, handle, first).lines)) ==> prev.docs[i] == Mark(init[i])
    ensures var r := EmbedAll(docs, file, handle, first);
      |r.docs| <= |docs| &&
      forall i ::
        (0 <= i < |r.docs| && Embeddable(docs[i], files) &&
         !Skip(docs[i], EmbedAll(docs[..i], file, handle, first).lines)) ==> r.docs[i] == Mark(docs[i])
  {
    var init := docs[..|docs| - 1];
    var d := docs[|docs| - 1];
    var prev := EmbedAll(init, file, handle, first);
    var o := NextOutcome(prev, d, handle, first);
    var r := EmbedAll(docs, file, handle, first);
    assert r == EmbedStep(prev, d, o);
    if prev.complete {
      StepDocs(prev, d, o);
    }
    assert |r.docs| <= |prev.docs| + 1 && forall i :: 0 <= i < |prev.docs| ==> r.docs[i] == prev.docs[i];
    assert |r.docs| == |prev.docs| + 1 ==>
      prev.complete && !o.Crash? && |prev.docs| == |init| && r.docs[|init|] == (if o.Embedded? then Mark(d) else d);
    forall i | 0 <= i < |r.docs| && Embeddable(docs[i], files) &&
      !Skip(docs[i], EmbedAll(docs[..i], file, handle, first).lines)
      ensures r.docs[i] == Mark(docs[i])
    {
      if i < |prev.docs| {
        PrefixOfInit(docs, i);
      } else {
        assert docs[..i] == init && docs[i] == d;
      }
    }
  }

  /** A prefix of the documents before the last one is a prefix of all but the last. */
  lemma PrefixOfInit(docs: seq<Document>, i: nat)
    requires i < |docs| - 1
    ensures docs[..i] == docs[..|docs| - 1][..i] && docs[i] == docs[..|docs| - 1][i]
  {
  }

  /** `EmbedAllDocs` for one step, with the run so far and the outcome as parameters. */
  lemma DocsStep(prev: Run, init: seq<Document>, d: Document, o: Outcome, files: ChunkFiles)
    requires prev.complete ==> |prev.docs| == |init|
    requires !prev.complete ==> |prev.docs| < |init|
    requires forall i :: 0 <= i < |prev.docs| ==>
      prev.docs[i] == init[i] || (prev.docs[i] == Mark(init[i]) && Embeddable(init[i], files))
    requires o.Embedded? ==> Embeddable(d, files)
    ensures var r := EmbedStep(prev, d, o);
      var all := init + [d];
      (r.complete ==> |r.docs| == |all|) && (!r.complete ==> |r.docs| < |all|) &&
      forall i :: 0 <= i < |r.docs| ==> r.docs[i] == all[i] || (r.docs[i] == Mark(all[i]) && Embeddable(all[i], files))
  {
    var all := init + [d];
    assert forall i :: 0 <= i < |init| ==> all[i] == init[i];
    if prev.complete {
      StepDocs(prev, d, o);
    }
  }

  /** The documents after one outcome. */
  lemma StepDocs(prev: Run, d: Document, o: Outcome)
    ensures o.Pass? ==> RunStep(prev, d, o).docs == prev.docs + [d]
    ensures o.Embedded? ==> RunStep(prev, d, o).docs == prev.docs + [Mark(d)]
    ensures o.Crash? ==> RunStep(prev, d, o).docs == prev.docs
  {
  }

  /** A document `main` can mark: chunked, with a chunk file that exists and parses. */
  predicate Embeddable(d: Document, files: ChunkFiles) {
    Flag(d, "chunked") && d.chunkedPath.Some? &&
    ChunkKey(d.chunkedPath.value) in files && files[ChunkKey(d.chunkedPath.value)].Some?
  }

  /** Appending two batches of lines is appending the lines of their concatenation. */
  lemma {:induction false} LinesOfAppend(a: seq<EmbeddingRecord>, b: seq<EmbeddingRecord>)
    ensures LinesOf(a + b) == LinesOf(a) + LinesOf(b)
    decreases |b|
  {
    if b == [] {
      assert a + b == a;
    } else {
      LinesOfAppend(a, b[..|b| - 1]);
      assert (a + b)[..|a + b| - 1] == a + b[..|b| - 1];
    }
  }

  /**
   * Numbering continues across runs: once records are appended,
   * `get_last_id` reads back the id of the last of them, so the next run
   * starts right after it.
   */
  lemma LastIdAfterAppend(file: seq<Line>, recs: seq<EmbeddingRecord>)
    requires recs != []
    ensures LastId(file + LinesOf(recs)) == recs[|recs| - 1].id
  {
    assert LinesOf(recs) == LinesOf(recs[..|recs| - 1]) + [LineOf(recs[|recs| - 1])];
    assert file + LinesOf(recs) == (file + LinesOf(recs[..|recs| - 1])) + [LineOf(recs[|recs| - 1])];
  }

  /** Once the run has stopped, later documents change nothing. */
  lemma {:induction false} EmbedAllStops(docs: seq<Document>, file: seq<Line>, handle: Handler, first: int, n: nat)
    requires n <= |docs| && !EmbedAll(docs[..n], file, handle, first).complete
    ensures EmbedAll(docs, file, handle, first) == EmbedAll(docs[..n], file, handle, first)
    decreases |docs| - n
  {
    if n < |docs| {
      assert docs[..n + 1][..n] == docs[..n];
      EmbedAllStops(docs, file, handle, first, n + 1);
    } else {
      assert docs[..n] == docs;
    }
  }

  /** Once a chunk without `text` has stopped the batch, later chunks change nothing. */
  lemma {:induction false} RecordsStops(d: Document, labels: Labels, chunks: seq<Chunk>, first: int,
                                        encode: string -> seq<real>, n: nat)
    requires n <= |chunks| && !Records(d, labels, chunks[..n], first, encode).complete
    ensures Records(d, labels, chunks, first, encode) == Records(d, labels, chunks[..n], first, encode)
    decreases |chunks| - n
  {
    if n < |chunks| {
      assert chunks[..n + 1][..n] == chunks[..n];
      RecordsStops(d, labels, chunks, first, encode, n + 1);
    } else {
      assert chunks[..n] == chunks;
    }
  }

  /** The chunk text always closes the embedding text, whatever labels precede it. */
  lemma EmbeddingTextEndsWithChunk(documentType: string, title: string, chunkType: string, chunkTitle: string,
                                   year: string, text: string)
    requires text != []
    ensures EndsWith(EmbeddingText(documentType, title, chunkType, chunkTitle, year, text), text)
  {
    var parts := TextParts(documentType, title, chunkType, chunkTitle, year, text);
    assert parts[..|parts| - 1] + [text] == parts;
    var ne := NonEmpty(parts);
    assert ne == NonEmpty(parts[..|parts| - 1]) + [text];
    JoinEndsWithLast(ne, Separator);
  }

  /** With no labels the embedding text is the chunk text alone. */
  lemma EmbeddingTextBare(text: string)
    ensures EmbeddingText([], [], [], [], [], text) == text
  {
    var parts := TextParts([], [], [], [], [], text);
    assert parts[..1][..0] == [];
    assert NonEmpty(parts[..1]) == [];
    assert parts[..2][..1] == parts[..1];
    assert NonEmpty(parts[..2]) == [];
    assert parts[..3][..2] == parts[..2];
    assert NonEmpty(parts[..3]) == [];
    assert parts[..4][..3] == parts[..3];
    assert NonEmpty(parts[..4]) == [];
    assert parts[..5][..4] == parts[..4];
    assert NonEmpty(parts[..5]) == [];
    assert parts[..|parts| - 1] == parts[..5];
  }

  // ----- The script ------------------------------------------------------------------

  /** `embeddings_exist_for`: scan the lines for one whose `metadata.title` equals `title`. */
  method EmbeddingsExistFor(title: Option<string>, lines: seq<Line>) returns (found: bool)
    ensures found == ExistsFor(title, lines)
  {
    for k := 0 to |lines|
      invariant !ExistsFor(title, lines[..k])
    {
      if lines[k].Entry? && lines[k].title == title {
        ExistsForMeaning(title, lines);
        return true;
      }
      assert lines[..k + 1][..k] == lines[..k];
    }
    assert lines[..|lines|] == lines;
    return false;
  }

  /**
   * The inner loop of `main`: one record per chunk, each appended to the
   * file as it is built, with `id_counter` advancing from `first`.
   */
  method EmbedChunks(d: Document, labels: Labels, chunks: seq<Chunk>, lines: seq<Line>, first: int,
                     encode: string -> seq<real>)
    returns (recs: seq<EmbeddingRecord>, linesOut: seq<Line>, idCounter: int, complete: bool)
    ensures Records(d, labels, chunks, first, encode) == Batch(recs, complete)
    ensures linesOut == lines + LinesOf(recs)
    ensures idCounter == first + |recs|
  {
    recs, linesOut, idCounter := [], lines, first;
    var j := 0;
    while j < |chunks|
      invariant j <= |chunks|
      invariant Records(d, labels, chunks[..j], first, encode) == Batch(recs, true)
      invariant idCounter == first + |recs|
      invariant linesOut == lines + LinesOf(recs)
    {
      var c := chunks[j];
      if c.text.None? {
        ChunkMissing(d, labels, chunks, first, encode, j, recs);
        return recs, linesOut, idCounter, false;
      }
      var rec := RecordOf(d, labels, c, c.text.value, idCounter, encode);
      ChunkAppend(d, labels, chunks, first, encode, j, recs, lines, rec);
      linesOut := linesOut + [LineOf(rec)];
      recs := recs + [rec];
      idCounter := idCounter + 1;
      j := j + 1;
    }
    assert chunks[..|chunks|] == chunks;
    complete := true;
  }

  /** One chunk with `text`: its record joins the batch and its line the file. */
  lemma ChunkAppend(d: Document, labels: Labels, chunks: seq<Chunk>, first: int,
                    encode: string -> seq<real>, j: nat, recs: seq<EmbeddingRecord>, lines: seq<Line>,
                    rec: EmbeddingRecord)
    requires j < |chunks| && chunks[j].text.Some?
    requires Records(d, labels, chunks[..j], first, encode) == Batch(recs, true)
    requires rec == RecordOf(d, labels, chunks[j], chunks[j].text.value, first + |recs|, encode)
    ensures Records(d, labels, chunks[..j + 1], first, encode) == Batch(recs + [rec], true)
    ensures lines + LinesOf(recs) + [LineOf(rec)] == lines + LinesOf(recs + [rec])
  {
    ChunkAdvance(d, labels, chunks, first, encode, j, recs);
    LinesOfSnoc(recs, rec);
  }

  /** A chunk with `text` adds its record, numbered after those before it. */
  lemma ChunkAdvance(d: Document, labels: Labels, chunks: seq<Chunk>, first: int,
                     encode: string -> seq<real>, j: nat, recs: seq<EmbeddingRecord>)
    requires j < |chunks| && chunks[j].text.Some?
    requires Records(d, labels, chunks[..j], first, encode) == Batch(recs, true)
    ensures Records(d, labels, chunks[..j + 1], first, encode) ==
      Batch(recs + [RecordOf(d, labels, chunks[j], chunks[j].text.value, first + |recs|, encode)], true)
  {
    assert chunks[..j + 1][..j] == chunks[..j];
  }

  /** A chunk without `text` stops the batch with the records made so far. */
  lemma ChunkMissing(d: Document, labels: Labels, chunks: seq<Chunk>, first: int,
                     encode: string -> seq<real>, j: nat, recs: seq<EmbeddingRecord>)
    requires j < |chunks| && chunks[j].text.None?
    requires Records(d, labels, chunks[..j], first, encode) == Batch(recs, true)
    ensures Records(d, labels, chunks, first, encode) == Batch(recs, false)
  {
    assert chunks[..j + 1][..j] == chunks[..j];
    RecordsStops(d, labels, chunks, first, encode, j + 1);
  }

  lemma LinesOfSnoc(recs: seq<EmbeddingRecord>, rec: EmbeddingRecord)
    ensures LinesOf(recs + [rec]) == LinesOf(recs) + [LineOf(rec)]
  {
    assert (recs + [rec])[..|recs|] == recs;
  }

  /** The body of the loop of `main` for one document. */
  method EmbedDocument(d: Document, lines: seq<Line>, files: ChunkFiles, nextId: int, encode: string -> seq<real>,
                       ghost handle: Handler)
    returns (o: Outcome, linesOut: seq<Line>, idCounter: int)
    requires Implements(handle, files, encode)
    ensures o == handle(d, lines, nextId)
    ensures linesOut == lines + LinesOf(Appended(o))
    ensures idCounter == nextId + |Appended(o)|
  {
    ghost var expected := DocOutcome(d, lines, files, nextId, encode);
    assert handle(d, lines, nextId) == expected;
    var alreadyEmbedded := Flag(d, "embedded");
    var hasEmbeddings := EmbeddingsExistFor(d.title, lines);
    if !Flag(d, "chunked") || (alreadyEmbedded && hasEmbeddings) {
      assert lines + LinesOf([]) == lines;
      return Pass, lines, nextId;
    }
    if d.chunkedPath.None? {
      assert lines + LinesOf([]) == lines;
      return Crash([]), lines, nextId;
    }
    var path := StripRelative(d.chunkedPath.value);
    var key := Resolve(Components(path));
    if key !in files || files[key].None? {
      assert lines + LinesOf([]) == lines;
      return Pass, lines, nextId;
    }
    var data := files[key].value;
    var recs, complete;
    recs, linesOut, idCounter, complete := EmbedChunks(d, LabelsOf(d, data), data.chunks, lines, nextId, encode);
    o := if complete then Embedded(recs) else Crash(recs);
  }

  /**
   * The loop of `main` over the documents `docs`, with the embeddings file
   * holding `file` and ids numbered from `first`: `lines` is the file
   * afterwards, `totalAdded` the number of records appended, and `written`
   * the document list as the registry was last dumped (`None` when no
   * document was marked).  `handle` is the handler the loop body implements.
   */
  method EmbedDocuments(docs: seq<Document>, file: seq<Line>, files: ChunkFiles, first: int,
                        encode: string -> seq<real>, ghost handle: Handler)
    returns (lines: seq<Line>, totalAdded: nat, written: Option<seq<Document>>)
    requires Implements(handle, files, encode)
    ensures var r := EmbedAll(docs, file, handle, first);
      lines == r.lines && totalAdded == |r.records| && |r.docs| <= |docs| &&
      written == (if r.saved then Some(r.docs + docs[|r.docs|..]) else None)
  {
    lines, totalAdded, written := file, 0, None;
    var idCounter := first;
    var current := docs;
    ghost var run := Run([], file, [], false, true);
    for i := 0 to |docs|
      invariant run == EmbedAll(docs[..i], file, handle, first) && run.complete && |run.docs| == i
      invariant lines == run.lines && totalAdded == |run.records| && idCounter == first + |run.records|
      invariant current == run.docs + docs[i..]
      invariant written == (if run.saved then Some(current) else None)
    {
      var d := docs[i];
      var o, linesOut, next := EmbedDocument(d, lines, files, idCounter, encode, handle);
      RunAdvance(docs, file, handle, first, i, run, o, current, written);
      lines, idCounter := linesOut, next;
      totalAdded := totalAdded + |Appended(o)|;
      run := RunStep(run, d, o);
      if o.Crash? {
        return;
      }
      if o.Embedded? {
        current := current[i := Mark(d)];
        written := Some(current);
      }
    }
    assert docs[..|docs|] == docs;
  }

  /**
   * One more document of the loop, with the run so far, the document list as
   * it stands and the outcome as parameters.
   */
  lemma RunAdvance(docs: seq<Document>, file: seq<Line>, handle: Handler, first: int, i: nat, run: Run,
                   o: Outcome, current: seq<Document>, written: Option<seq<Document>>)
    requires i < |docs|
    requires run == EmbedAll(docs[..i], file, handle, first) && run.complete && |run.docs| == i
    requires current == run.docs + docs[i..]
    requires written == (if run.saved then Some(current) else None)
    requires o == NextOutcome(run, docs[i], handle, first)
    ensures var next := RunStep(run, docs[i], o);
      var current' := if o.Embedded? then current[i := Mark(docs[i])] else current;
      next.lines == run.lines + LinesOf(Appended(o)) &&
      next.records == run.records + Appended(o) &&
      (o.Crash? ==>
        var r := EmbedAll(docs, file, handle, first);
        r == next && |r.docs| <= |docs| && written == (if r.saved then Some(r.docs + docs[|r.docs|..]) else None)) &&
      (!o.Crash? ==>
        EmbedAll(docs[..i + 1], file, handle, first) == next && next.complete && |next.docs| == i + 1 &&
        current' == next.docs + docs[i + 1..] &&
        (if o.Embedded? then Some(current') else written) == (if next.saved then Some(current') else None))
  {
    assert docs[..i + 1][..i] == docs[..i];
    StepRecords(run, docs[i], o);
    if o.Crash? {
      EmbedAllStops(docs, file, handle, first, i + 1);
    } else {
      ReplaceAt(run.docs, docs[i..], if o.Embedded? then Mark(docs[i]) else docs[i]);
    }
  }

  /** Replacing the first document not yet handled moves it to the handled part. */
  lemma ReplaceAt(done: seq<Document>, rest: seq<Document>, d: Document)
    requires rest != []
    ensures (done + rest)[|done| := d] == (done + [d]) + rest[1..]
  {
  }

  /**
   * `main` on the loaded registry, the lines of `embeddings.jsonl` and the
   * chunk files: `lines` is the file afterwards, `totalAdded` the number of
   * records appended, and `saved` the registry as last written (`None` when
   * it never is).  A registry without `documents` stops the script on a
   * `KeyError` before anything is written.
   */
  method AddEmbeddings(metadata: Registry, file: seq<Line>, files: ChunkFiles, encode: string -> seq<real>)
    returns (saved: Option<Registry>, lines: seq<Line>, totalAdded: nat)
    requires Valid(metadata)
    ensures !HasDocuments(metadata) ==> saved.None? && lines == file && totalAdded == 0
    ensures HasDocuments(metadata) ==>
      var docs := Documents(metadata);
      var r := EmbedAll(docs, file, Handle(files, encode), LastId(file) + 1);
      lines == r.lines && totalAdded == |r.records| && |r.docs| <= |docs| &&
      saved == (if r.saved then Some(WithDocuments(metadata, r.docs + docs[|r.docs|..])) else None)
  {
    if !HasDocuments(metadata) {
      return None, file, 0;
    }
    var written;
    HandleFacts(files, encode);
    lines, totalAdded, written :=
      EmbedDocuments(Documents(metadata), file, files, LastId(file) + 1, encode, Handle(files, encode));
    saved := if written.Some? then Some(WithDocuments(metadata, written.value)) else None;
  }
}
