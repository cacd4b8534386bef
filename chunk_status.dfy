/**
 * `update_chunk_status.py`: for every document with a cleaned text, look for
 * its chunk file under `../data/chunks/<source>/<stem>.json`, set the
 * `chunked` flag from whether a valid one exists, and record `total_chunked`
 * right after `total_cleaned` in the registry.
 *
 * The file system is a map from path to what the file holds: its size and,
 * when it parses as JSON, whether the parsed value is truthy and the length
 * of its `chunks` entry.
 */
module ChunkStatus {
  import opened Wrappers
  import opened Strings
  import opened Paths
  import opened Registry

  /** `os.path.join("..", "data", "chunks")` on Windows. */
  const ChunksDir: string := "..\\data\\chunks"

  /** What `json.load` makes of a chunk file. */
  datatype ChunkJson = ChunkJson(truthy: bool, chunks: Option<nat>)

  datatype ChunkFile = ChunkFile(size: nat, json: Option<ChunkJson>)

  /**
   * `is_valid_chunk_file`: the file exists, holds at least 5 bytes, parses,
   * and is a non-empty object whose `chunks` list is not empty.
   */
  predicate IsValidChunkFile(path: string, files: map<string, ChunkFile>) {
    path in files && files[path].size >= 5 && files[path].json.Some? &&
    files[path].json.value.truthy && files[path].json.value.chunks.Some? &&
    files[path].json.value.chunks.value > 0
  }

  /** `os.path.join(CHUNKS_DIR, source, stem + ".json")`; an empty `source` adds no component. */
  function ChunkPath(source: string, stem: string): string {
    ChunksDir + [WinSep] + (if source == [] then [] else source + [WinSep]) + stem + ".json"
  }

  /** The split of a cleaned path that `find_chunk_file` accepts: `data/cleaned/<source>/...`. */
  predicate CleanedLayout(parts: seq<string>) {
    |parts| >= 3 && parts[0] == "data" && parts[1] == "cleaned"
  }

  /** `find_chunk_file`: the derived chunk path, when the layout fits and the file exists. */
  function FindChunkFile(cleanedPath: string, existing: set<string>): (r: Option<string>)
    ensures r.Some? ==> r.value in existing
    ensures !CleanedLayout(Split(Normalize(cleanedPath), '/')) ==> r.None?
  {
    var parts := Split(Normalize(cleanedPath), '/');
    if CleanedLayout(parts) then
      var candidate := ChunkPath(parts[2], SplitExtRoot(BaseName(cleanedPath)));
      if candidate in existing then Some(candidate) else None
    else None
  }

  /** The valid chunk file `main` finds for a document, if any. */
  function ValidChunkFor(d: Document, files: map<string, ChunkFile>): (r: Option<string>)
    ensures r.Some? ==> Truthy(d.cleanedPath) && IsValidChunkFile(r.value, files)
  {
    if !Truthy(d.cleanedPath) then None
    else match FindChunkFile(d.cleanedPath.value, files.Keys)
      case Some(f) => if IsValidChunkFile(f, files) then Some(f) else None
      case None => None
  }

  /**
   * One iteration of the loop of `main`; `None` when the document has a
   * cleaned path but no `processing_status`, where the script stops on a
   * `KeyError` before anything is written.
   */
  function ChunkDoc(d: Document, files: map<string, ChunkFile>): (r: Option<Document>)
    ensures !Truthy(d.cleanedPath) ==> r == Some(d)
    ensures Truthy(d.cleanedPath) ==> (r.Some? <==> d.processingStatus.Some?)
    ensures r.Some? && Truthy(d.cleanedPath) ==>
      Flag(r.value, "chunked") == ValidChunkFor(d, files).Some? &&
      (forall g :: g != "chunked" ==> Flag(r.value, g) == Flag(d, g)) &&
      r.value.(chunkedPath := d.chunkedPath, status := d.status, processingStatus := d.processingStatus) == d
    ensures r.Some? && ValidChunkFor(d, files).Some? ==>
      r.value.chunkedPath == Some(Normalize(ValidChunkFor(d, files).value)) && r.value.status == Some("chunked")
    ensures r.Some? && Truthy(d.cleanedPath) && ValidChunkFor(d, files).None? ==>
      r.value == SetFlag(d, "chunked", false)
  {
    if !Truthy(d.cleanedPath) then Some(d)
    else if d.processingStatus.None? then None
    else match ValidChunkFor(d, files)
      case Some(f) =>
        Some(SetFlag(d.(chunkedPath := Some(Normalize(f)), status := Some("chunked")), "chunked", true))
      case None => Some(SetFlag(d, "chunked", false))
  }

  /** A document the loop would stop at. */
  predicate Stops(d: Document) {
    Truthy(d.cleanedPath) && d.processingStatus.None?
  }

  /** The documents after the loop of `main`, or `None` when it stops on one of them. */
  function ChunkAll(docs: seq<Document>, files: map<string, ChunkFile>): (r: Option<seq<Document>>)
    ensures r.Some? ==> |r.value| == |docs|
  {
    if docs == [] then Some([])
    else match ChunkAll(docs[..|docs| - 1], files)
      case None => None
      case Some(prev) =>
        match ChunkDoc(docs[|docs| - 1], files)
        case None => None
        case Some(d) => Some(prev + [d])
  }

  /** How many documents have a valid chunk file. */
  function CountValid(docs: seq<Document>, files: map<string, ChunkFile>): (n: nat)
    ensures n <= |docs|
  {
    if docs == [] then 0
    else CountValid(docs[..|docs| - 1], files) + (if ValidChunkFor(docs[|docs| - 1], files).Some? then 1 else 0)
  }

  // ----- Re-inserting the summary keys --------------------------------------------------

  /**
   * Lines 75-79 of `update_chunk_status.py` as written: the first `n` keys
   * copied in order, with `total_chunked` assigned right after
   * `total_cleaned` is copied.
   */
  function AsWrittenCopy(r: Registry, n: nat, total: int): Registry
    requires Valid(r) && n <= |r.keys|
  {
    if n == 0 then Empty else AsWrittenStep(AsWrittenCopy(r, n - 1, total), r, n, total)
  }

  /** Copying key `n - 1` of `r` into `prev`, as the loop as written does. */
  function AsWrittenStep(prev: Registry, r: Registry, n: nat, total: int): Registry
    requires Valid(r) && 0 < n <= |r.keys|
  {
    var k := r.keys[n - 1];
    var acc := Assign(prev, k, r.vals[k]);
    if k == "total_cleaned" then Assign(acc, "total_chunked", Count(total)) else acc
  }

  /**
   * The intended copy: as above, except that when `total_cleaned` is present
   * an old `total_chunked` is not copied, so the fresh count is the only one
   * and sits right after `total_cleaned`.
   */
  function FreshCopy(r: Registry, n: nat, total: int): Registry
    requires Valid(r) && n <= |r.keys|
  {
    if n == 0 then Empty else FreshStep(FreshCopy(r, n - 1, total), r, n, total)
  }

  /** Copying key `n - 1` of `r` into `prev`, as `FreshCopy` does. */
  function FreshStep(prev: Registry, r: Registry, n: nat, total: int): Registry
    requires Valid(r) && 0 < n <= |r.keys|
  {
    var k := r.keys[n - 1];
    if k == "total_chunked" && "total_cleaned" in r.vals then prev
    else
      var acc := Assign(prev, k, r.vals[k]);
      if k == "total_cleaned" then Assign(acc, "total_chunked", Count(total)) else acc
  }

  /** `total_chunked` stands right after `total_cleaned` in the key order `ks`. */
  predicate ChunkedFollowsCleaned(ks: seq<string>) {
    exists i :: 0 <= i < |ks| - 1 && ks[i] == "total_cleaned" && ks[i + 1] == "total_chunked"
  }

  /** The key order `FreshCopy` produces. */
  function FreshKeys(ks: seq<string>, cleaned: bool): seq<string> {
    if ks == [] then []
    else
      var k := ks[|ks| - 1];
      var prev := FreshKeys(ks[..|ks| - 1], cleaned);
      if k == "total_chunked" && cleaned then prev
      else if k == "total_cleaned" then prev + [k, "total_chunked"]
      else prev + [k]
  }

  /** `ks` with every `x` removed. */
  function Without(ks: seq<string>, x: string): (r: seq<string>)
    ensures x !in r
  {
    if ks == [] then []
    else Without(ks[..|ks| - 1], x) + (if ks[|ks| - 1] == x then [] else [ks[|ks| - 1]])
  }

  /** The value key `k` has after copying the first `n` keys with `FreshCopy`. */
  function FreshValue(r: Registry, n: nat, k: string, total: int): Option<Value>
    requires n <= |r.keys|
  {
    if k == "total_chunked" && "total_cleaned" in r.vals then
      (if "total_cleaned" in r.keys[..n] then Some(Count(total)) else None)
    else if k in r.keys[..n] then Get(r, k) else None
  }

  /** The corrected key loop that `main` is modelled with. */
  method RebuildKeys(r: Registry, total: int) returns (out: Registry)
    requires Valid(r)
    ensures out == FreshCopy(r, |r.keys|, total)
    ensures Valid(out)
    ensures forall k :: k != "total_chunked" ==> Get(out, k) == Get(r, k)
    ensures "total_cleaned" in r.vals ==>
      Get(out, "total_chunked") == Some(Count(total)) &&
      ChunkedFollowsCleaned(out.keys) &&
      Without(out.keys, "total_chunked") == Without(r.keys, "total_chunked")
    ensures "total_cleaned" !in r.vals ==> out == r
  {
    out := Empty;
    for n := 0 to |r.keys|
      invariant out == FreshCopy(r, n, total)
    {
      var k := r.keys[n];
      if !(k == "total_chunked" && "total_cleaned" in r.vals) {
        out := Assign(out, k, r.vals[k]);
        if k == "total_cleaned" {
          out := Assign(out, "total_chunked", Count(total));
        }
      }
    }
    FreshCopyValues(r, total);
    if "total_cleaned" in r.vals {
      FreshCopyKeys(r, total);
    } else {
      FreshCopyNoCleaned(r, total);
    }
  }

  /**
   * `main`: update every document from its chunk file, count the valid ones,
   * re-insert `total_chunked` and stamp `last_updated`.  `saved` is what is
   * written back, `None` when the loop stops on a `KeyError`.
   */
  method UpdateChunkStatus(metadata: Registry, files: map<string, ChunkFile>, now: string)
    returns (saved: Option<Registry>, updatedCount: nat, totalValid: nat)
    requires Valid(metadata)
    ensures saved.None? <==> ChunkAll(Documents(metadata), files).None?
    ensures saved.Some? ==> Valid(saved.value) && ChunkAll(Documents(metadata), files) == Some(Documents(saved.value))
    ensures saved.Some? ==> updatedCount == totalValid == CountValid(Documents(metadata), files)
    ensures saved.Some? && "total_cleaned" in metadata.vals ==>
      Get(saved.value, "total_chunked") == Some(Count(totalValid))
    ensures saved.Some? ==> Get(saved.value, "last_updated") == Some(Text(now))
    ensures saved.Some? ==> forall k :: k != "documents" && k != "total_chunked" && k != "last_updated" ==>
      Get(saved.value, k) == Get(metadata, k)
    ensures saved.Some? && "total_cleaned" in metadata.vals ==> ChunkedFollowsCleaned(saved.value.keys)
    ensures saved.Some? ==>
      Without(saved.value.keys, "total_chunked") ==
      Without(metadata.keys, "total_chunked") + (if "last_updated" in metadata.vals then [] else ["last_updated"])
    ensures saved.Some? && "total_cleaned" !in metadata.vals ==>
      saved.value.keys == metadata.keys + (if "last_updated" in metadata.vals then [] else ["last_updated"])
  {
    var updated;
    updated, updatedCount, totalValid := ChunkDocuments(Documents(metadata), files);
    if updated.None? {
      return None, updatedCount, totalValid;
    }
    var out := SaveStatus(metadata, updated.value, totalValid, now);
    saved := Some(out);
  }

  /**
   * The loop of `main` over the documents: the updated documents, or `None`
   * when it stops on a `KeyError`, and the two counters it keeps.
   */
  method ChunkDocuments(docs: seq<Document>, files: map<string, ChunkFile>)
    returns (updated: Option<seq<Document>>, updatedCount: nat, totalValid: nat)
    ensures updated == ChunkAll(docs, files)
    ensures updated.Some? ==> updatedCount == totalValid == CountValid(docs, files)
  {
    var done: seq<Document> := [];
    updatedCount, totalValid := 0, 0;
    for i := 0 to |docs|
      invariant ChunkAll(docs[..i], files) == Some(done)
      invariant updatedCount == totalValid == CountValid(docs[..i], files)
    {
      ChunkAllNext(docs, files, i, done);
      var next := ChunkDoc(docs[i], files);
      if next.None? {
        ChunkAllStops(docs, files, i + 1);
        return None, updatedCount, totalValid;
      }
      if ValidChunkFor(docs[i], files).Some? {
        updatedCount, totalValid := updatedCount + 1, totalValid + 1;
      }
      done := done + [next.value];
    }
    assert docs[..|docs|] == docs;
    updated := Some(done);
  }

  /** One pass of the loop of `main`. */
  lemma ChunkAllNext(docs: seq<Document>, files: map<string, ChunkFile>, i: nat, done: seq<Document>)
    requires i < |docs| && ChunkAll(docs[..i], files) == Some(done)
    ensures ChunkAll(docs[..i + 1], files) ==
      if ChunkDoc(docs[i], files).None? then None else Some(done + [ChunkDoc(docs[i], files).value])
    ensures CountValid(docs[..i + 1], files) ==
      CountValid(docs[..i], files) + (if ValidChunkFor(docs[i], files).Some? then 1 else 0)
  {
    assert docs[..i + 1][..i] == docs[..i];
  }

  /** Once the loop stops it stays stopped. */
  lemma {:induction false} ChunkAllStops(docs: seq<Document>, files: map<string, ChunkFile>, n: nat)
    requires n <= |docs| && ChunkAll(docs[..n], files).None?
    ensures ChunkAll(docs, files).None?
    decreases |docs|
  {
    if n < |docs| {
      assert docs[..|docs| - 1][..n] == docs[..n];
      ChunkAllStops(docs[..|docs| - 1], files, n);
    } else {
      assert docs[..n] == docs;
    }
  }

  /**
   * The end of `main`: write the updated documents back, re-insert
   * `total_chunked` with the corrected key loop and stamp `last_updated`.
   */
  method SaveStatus(metadata: Registry, updated: seq<Document>, total: nat, now: string) returns (out: Registry)
    requires Valid(metadata)
    requires !HasDocuments(metadata) ==> updated == []
    ensures Valid(out) && Documents(out) == updated
    ensures "total_cleaned" in metadata.vals ==> Get(out, "total_chunked") == Some(Count(total))
    ensures Get(out, "last_updated") == Some(Text(now))
    ensures forall k :: k != "documents" && k != "total_chunked" && k != "last_updated" ==>
      Get(out, k) == Get(metadata, k)
    ensures "total_cleaned" in metadata.vals ==> ChunkedFollowsCleaned(out.keys)
    ensures Without(out.keys, "total_chunked") ==
      Without(metadata.keys, "total_chunked") + (if "last_updated" in metadata.vals then [] else ["last_updated"])
    ensures "total_cleaned" !in metadata.vals ==>
      out.keys == metadata.keys + (if "last_updated" in metadata.vals then [] else ["last_updated"])
  {
    var withDocs := metadata;
    if HasDocuments(metadata) {
      withDocs := WithDocuments(metadata, updated);
    }
    assert Documents(withDocs) == updated && withDocs.keys == metadata.keys;
    var rebuilt := RebuildKeys(withDocs, total);
    out := Assign(rebuilt, "last_updated", Text(now));
    assert Get(out, "documents") == Get(rebuilt, "documents") == Get(withDocs, "documents");
    assert Documents(out) == Documents(withDocs);
    SavedKeys(metadata, withDocs, rebuilt, Text(now));
  }

  /** The key order `SaveStatus` leaves, from that of the rebuilt registry. */
  lemma SavedKeys(metadata: Registry, withDocs: Registry, rebuilt: Registry, v: Value)
    requires Valid(metadata) && Valid(withDocs) && Valid(rebuilt) && withDocs.keys == metadata.keys
    requires forall k :: k != "documents" ==> Get(withDocs, k) == Get(metadata, k)
    requires forall k :: k != "total_chunked" ==> Get(rebuilt, k) == Get(withDocs, k)
    requires "total_cleaned" in withDocs.vals ==>
      ChunkedFollowsCleaned(rebuilt.keys) && Without(rebuilt.keys, "total_chunked") == Without(withDocs.keys, "total_chunked")
    requires "total_cleaned" !in withDocs.vals ==> rebuilt == withDocs
    ensures var ks := Assign(rebuilt, "last_updated", v).keys;
      var tail := if "last_updated" in metadata.vals then [] else ["last_updated"];
      ("total_cleaned" in metadata.vals ==> ChunkedFollowsCleaned(ks)) &&
      Without(ks, "total_chunked") == Without(metadata.keys, "total_chunked") + tail &&
      ("total_cleaned" !in metadata.vals ==> ks == metadata.keys + tail)
  {
    assert Get(rebuilt, "last_updated") == Get(withDocs, "last_updated") == Get(metadata, "last_updated");
    assert Get(withDocs, "total_cleaned") == Get(metadata, "total_cleaned");
    StampKeys(rebuilt, v);
  }

  /** Stamping `last_updated` keeps the key order and appends the key when it is new. */
  lemma StampKeys(r: Registry, v: Value)
    requires Valid(r)
    ensures var ks := Assign(r, "last_updated", v).keys;
      var tail := if "last_updated" in r.vals then [] else ["last_updated"];
      ks == r.keys + tail &&
      Without(ks, "total_chunked") == Without(r.keys, "total_chunked") + tail &&
      (ChunkedFollowsCleaned(r.keys) ==> ChunkedFollowsCleaned(ks))
  {
    var tail := if "last_updated" in r.vals then [] else ["last_updated"];
    WithoutAppend(r.keys, tail, "total_chunked");
    assert Without(["last_updated"], "total_chunked") == ["last_updated"] by {
      assert ["last_updated"][..0] == [];
    }
    if ChunkedFollowsCleaned(r.keys) {
      FollowsAppend(r.keys, tail);
    }
  }

  /** Appending keys keeps `total_chunked` right after `total_cleaned`. */
  lemma FollowsAppend(ks: seq<string>, tail: seq<string>)
    requires ChunkedFollowsCleaned(ks)
    ensures ChunkedFollowsCleaned(ks + tail)
  {
    var i :| 0 <= i < |ks| - 1 && ks[i] == "total_cleaned" && ks[i + 1] == "total_chunked";
    assert (ks + tail)[i] == ks[i] && (ks + tail)[i + 1] == ks[i + 1];
  }

  // ----- Lemmas ----------------------------------------------------------------------

  /**
   * A path the cleaners write, `data\cleaned\<source>\...\<stem>.txt`, leads
   * to `..\data\chunks\<source>\<stem>.json`, found exactly when that file
   * exists.
   */
  lemma FindChunkFileOfCleaned(source: string, dirs: seq<string>, stem: string, existing: set<string>)
    requires ProperComponent(source) && ProperComponent(stem + ".txt") && !AllDots(stem)
    requires forall k :: 0 <= k < |dirs| ==> ProperComponent(dirs[k])
    ensures var p := Render(["data", "cleaned", source] + dirs + [stem + ".txt"]);
      FindChunkFile(p, existing) ==
        if ChunkPath(source, stem) in existing then Some(ChunkPath(source, stem)) else None
  {
    var parts := ["data", "cleaned", source] + dirs + [stem + ".txt"];
    CleanedPathParts(parts, stem, source, dirs);
    FindChunkFileFits(Render(parts), parts, source, stem, existing);
  }

  /** How `find_chunk_file` splits a cleaned path and what base name it sees. */
  lemma CleanedPathParts(parts: seq<string>, stem: string, source: string, dirs: seq<string>)
    requires parts == ["data", "cleaned", source] + dirs + [stem + ".txt"]
    requires ProperComponent(source) && ProperComponent(stem + ".txt") && !AllDots(stem)
    requires forall k :: 0 <= k < |dirs| ==> ProperComponent(dirs[k])
    ensures Split(Normalize(Render(parts)), '/') == parts
    ensures SplitExtRoot(BaseName(Render(parts))) == stem
    ensures |parts| >= 3 && parts[0] == "data" && parts[1] == "cleaned" && parts[2] == source
  {
    CleanedPartsProper(source, dirs, stem + ".txt");
    NormalizeRender(parts);
    SplitJoin(parts, '/');
    BaseNameRender(parts);
    SplitExtRootTxt(stem);
  }

  /** The components of a cleaned path are proper when the source, directories and name are. */
  lemma CleanedPartsProper(source: string, dirs: seq<string>, name: string)
    requires ProperComponent(source) && ProperComponent(name)
    requires forall k :: 0 <= k < |dirs| ==> ProperComponent(dirs[k])
    ensures var parts := ["data", "cleaned", source] + dirs + [name];
      forall k :: 0 <= k < |parts| ==> ProperComponent(parts[k])
  {
    var parts := ["data", "cleaned", source] + dirs + [name];
    forall k | 0 <= k < |parts|
      ensures ProperComponent(parts[k])
    {
      if 3 <= k < |parts| - 1 {
        assert parts[k] == dirs[k - 3];
      }
    }
  }

  /** `find_chunk_file` on a path whose split and base name are known. */
  lemma FindChunkFileFits(p: string, parts: seq<string>, source: string, stem: string, existing: set<string>)
    requires Split(Normalize(p), '/') == parts && |parts| >= 3
    requires parts[0] == "data" && parts[1] == "cleaned" && parts[2] == source
    requires SplitExtRoot(BaseName(p)) == stem
    ensures FindChunkFile(p, existing) ==
      if ChunkPath(source, stem) in existing then Some(ChunkPath(source, stem)) else None
  {
  }

  /** The stored `chunked_path` is the chunk path with forward slashes. */
  lemma ChunkPathNormalized(source: string, stem: string)
    requires WinSep !in source && WinSep !in stem
    ensures Normalize(ChunkPath(source, stem)) ==
      "../data/chunks/" + (if source == [] then [] else source + "/") + stem + ".json"
  {
    var a := ChunksDir + [WinSep];
    var b := if source == [] then [] else source + [WinSep];
    var c := stem + ".json";
    assert ChunkPath(source, stem) == (a + b) + c;
    ReplaceCharAppend(a + b, c, WinSep, '/');
    ReplaceCharAppend(a, b, WinSep, '/');
    assert ReplaceChar(a, WinSep, '/') == "../data/chunks/";
    if source != [] {
      ReplaceCharAppend(source, [WinSep], WinSep, '/');
      ReplaceCharAbsent(source, WinSep, '/');
    }
    ReplaceCharAbsent(c, WinSep, '/');
  }

  /** The step of `FreshCopy`: its keys, validity and every value after `n` keys. */
  lemma {:induction false} FreshCopyShape(r: Registry, n: nat, total: int)
    requires Valid(r) && n <= |r.keys|
    ensures Valid(FreshCopy(r, n, total))
    ensures FreshCopy(r, n, total).keys == FreshKeys(r.keys[..n], "total_cleaned" in r.vals)
    ensures forall k :: Get(FreshCopy(r, n, total), k) == FreshValue(r, n, k, total)
    decreases n
  {
    if n > 0 {
      FreshCopyShape(r, n - 1, total);
      FreshCopyStep(FreshCopy(r, n - 1, total), r, n, total);
    }
  }

  /** The last key of a prefix of distinct keys is new, and the prefix's members are the shorter prefix's and it. */
  lemma PrefixMembers(ks: seq<string>, n: nat)
    requires 0 < n <= |ks|
    requires forall i, j :: 0 <= i < j < |ks| ==> ks[i] != ks[j]
    ensures ks[n - 1] !in ks[..n - 1]
    ensures forall x :: x in ks[..n] <==> x in ks[..n - 1] || x == ks[n - 1]
    ensures ks[..n][..n - 1] == ks[..n - 1] && ks[..n] == ks[..n - 1] + [ks[n - 1]]
  {
    assert ks[..n] == ks[..n - 1] + [ks[n - 1]];
  }

  lemma FreshCopyStep(prev: Registry, r: Registry, n: nat, total: int)
    requires Valid(r) && 0 < n <= |r.keys|
    requires Valid(prev)
    requires prev.keys == FreshKeys(r.keys[..n - 1], "total_cleaned" in r.vals)
    requires forall k :: Get(prev, k) == FreshValue(r, n - 1, k, total)
    ensures Valid(FreshStep(prev, r, n, total))
    ensures FreshStep(prev, r, n, total).keys == FreshKeys(r.keys[..n], "total_cleaned" in r.vals)
    ensures forall k :: Get(FreshStep(prev, r, n, total), k) == FreshValue(r, n, k, total)
  {
    var k := r.keys[n - 1];
    PrefixMembers(r.keys, n);
    assert k in r.vals;
    if !(k == "total_chunked" && "total_cleaned" in r.vals) {
      assert Get(prev, k) == None;
      if k == "total_cleaned" {
        assert Get(prev, "total_chunked") == None;
      }
    }
    FreshStepKeys(prev, r, n, total);
    FreshStepValues(prev, r, n, total);
  }

  /** The keys after one step of `FreshCopy`. */
  lemma FreshStepKeys(prev: Registry, r: Registry, n: nat, total: int)
    requires Valid(r) && 0 < n <= |r.keys|
    requires Valid(prev)
    requires prev.keys == FreshKeys(r.keys[..n - 1], "total_cleaned" in r.vals)
    requires !(r.keys[n - 1] == "total_chunked" && "total_cleaned" in r.vals) ==> r.keys[n - 1] !in prev.vals
    requires r.keys[n - 1] == "total_cleaned" ==> "total_chunked" !in prev.vals
    ensures Valid(FreshStep(prev, r, n, total))
    ensures FreshStep(prev, r, n, total).keys == FreshKeys(r.keys[..n], "total_cleaned" in r.vals)
  {
    var k := r.keys[n - 1];
    assert r.keys[..n][..n - 1] == r.keys[..n - 1];
    if k == "total_chunked" && "total_cleaned" in r.vals {
      FreshKeysSkip(r.keys[..n]);
    } else if k == "total_cleaned" {
      FreshKeysCleaned(r.keys[..n]);
    } else {
      FreshKeysPlain(r.keys[..n]);
    }
  }

  /** The values after one step of `FreshCopy`. */
  lemma FreshStepValues(prev: Registry, r: Registry, n: nat, total: int)
    requires Valid(r) && 0 < n <= |r.keys|
    requires forall k :: Get(prev, k) == FreshValue(r, n - 1, k, total)
    ensures forall k :: Get(FreshStep(prev, r, n, total), k) == FreshValue(r, n, k, total)
  {
    var k := r.keys[n - 1];
    PrefixMembers(r.keys, n);
    if k == "total_chunked" && "total_cleaned" in r.vals {
      FreshValueSkip(r, n, total);
    } else if k == "total_cleaned" {
      FreshValueCleaned(r, n, total);
    } else {
      FreshValuePlain(r, n, total);
    }
  }

  lemma FreshKeysSkip(ks: seq<string>)
    requires ks != [] && ks[|ks| - 1] == "total_chunked"
    ensures FreshKeys(ks, true) == FreshKeys(ks[..|ks| - 1], true)
  {
  }

  lemma FreshKeysCleaned(ks: seq<string>)
    requires ks != [] && ks[|ks| - 1] == "total_cleaned"
    ensures forall c :: FreshKeys(ks, c) == FreshKeys(ks[..|ks| - 1], c) + ["total_cleaned", "total_chunked"]
  {
  }

  lemma FreshKeysPlain(ks: seq<string>)
    requires ks != [] && ks[|ks| - 1] != "total_cleaned"
    ensures forall c :: !(ks[|ks| - 1] == "total_chunked" && c) ==>
      FreshKeys(ks, c) == FreshKeys(ks[..|ks| - 1], c) + [ks[|ks| - 1]]
  {
  }

  /** Skipping the old `total_chunked` changes no value. */
  lemma FreshValueSkip(r: Registry, n: nat, total: int)
    requires Valid(r) && 0 < n <= |r.keys|
    requires r.keys[n - 1] == "total_chunked" && "total_cleaned" in r.vals
    requires forall x :: x in r.keys[..n] <==> x in r.keys[..n - 1] || x == r.keys[n - 1]
    ensures forall x :: FreshValue(r, n, x, total) == FreshValue(r, n - 1, x, total)
  {
  }

  /** Copying `total_cleaned` also sets `total_chunked` to the fresh count. */
  lemma FreshValueCleaned(r: Registry, n: nat, total: int)
    requires Valid(r) && 0 < n <= |r.keys|
    requires r.keys[n - 1] == "total_cleaned"
    requires forall x :: x in r.keys[..n] <==> x in r.keys[..n - 1] || x == r.keys[n - 1]
    ensures FreshValue(r, n, "total_cleaned", total) == Some(r.vals["total_cleaned"])
    ensures FreshValue(r, n, "total_chunked", total) == Some(Count(total))
    ensures forall x :: x != "total_cleaned" && x != "total_chunked" ==>
      FreshValue(r, n, x, total) == FreshValue(r, n - 1, x, total)
  {
  }

  /** Copying any other key adds just that key. */
  lemma FreshValuePlain(r: Registry, n: nat, total: int)
    requires Valid(r) && 0 < n <= |r.keys|
    requires r.keys[n - 1] != "total_cleaned"
    requires !(r.keys[n - 1] == "total_chunked" && "total_cleaned" in r.vals)
    requires forall x :: x in r.keys[..n] <==> x in r.keys[..n - 1] || x == r.keys[n - 1]
    ensures FreshValue(r, n, r.keys[n - 1], total) == Some(r.vals[r.keys[n - 1]])
    ensures forall x :: x != r.keys[n - 1] ==> FreshValue(r, n, x, total) == FreshValue(r, n - 1, x, total)
  {
  }

  /** In `FreshKeys`, `total_chunked` follows `total_cleaned`. */
  lemma {:induction false} FreshKeysAdjacent(ks: seq<string>)
    requires "total_cleaned" in ks
    ensures ChunkedFollowsCleaned(FreshKeys(ks, true))
    decreases |ks|
  {
    var init := ks[..|ks| - 1];
    var k := ks[|ks| - 1];
    var p := FreshKeys(init, true);
    var f := FreshKeys(ks, true);
    if k != "total_cleaned" {
      assert ks == init + [k];
      assert "total_cleaned" in init;
      FreshKeysAdjacent(init);
      var i :| 0 <= i < |p| - 1 && p[i] == "total_cleaned" && p[i + 1] == "total_chunked";
      if k == "total_chunked" {
        FreshKeysSkip(ks);
      } else {
        FreshKeysPlain(ks);
      }
      assert 0 <= i < |f| - 1 && f[i] == "total_cleaned" && f[i + 1] == "total_chunked";
    } else {
      FreshKeysCleaned(ks);
      assert 0 <= |p| < |f| - 1 && f[|p|] == "total_cleaned" && f[|p| + 1] == "total_chunked";
    }
  }

  /** Apart from `total_chunked`, `FreshKeys` keeps the keys in their order. */
  lemma {:induction false} FreshKeysWithout(ks: seq<string>)
    ensures Without(FreshKeys(ks, true), "total_chunked") == Without(ks, "total_chunked")
    decreases |ks|
  {
    if ks != [] {
      var init := ks[..|ks| - 1];
      var k := ks[|ks| - 1];
      FreshKeysWithout(init);
      var p := FreshKeys(init, true);
      if k == "total_cleaned" {
        WithoutAppend(p, [k, "total_chunked"], "total_chunked");
        assert Without([k, "total_chunked"], "total_chunked") == [k] by {
          assert [k, "total_chunked"][..1] == [k];
          assert [k][..0] == [];
          assert Without([k], "total_chunked") == [k];
        }
      } else if k != "total_chunked" {
        WithoutAppend(p, [k], "total_chunked");
        assert [k][..0] == [];
      }
    }
  }

  lemma {:induction false} WithoutAppend(a: seq<string>, b: seq<string>, x: string)
    ensures Without(a + b, x) == Without(a, x) + Without(b, x)
    decreases |b|
  {
    if b == [] {
      assert a + b == a;
    } else {
      WithoutAppend(a, b[..|b| - 1], x);
      assert (a + b)[..|a + b| - 1] == a + b[..|b| - 1];
    }
  }

  /** Without `total_cleaned`, `FreshKeys` is the identity. */
  lemma {:induction false} FreshKeysNoCleaned(ks: seq<string>)
    requires "total_cleaned" !in ks
    ensures FreshKeys(ks, false) == ks
    decreases |ks|
  {
    if ks != [] {
      assert ks == ks[..|ks| - 1] + [ks[|ks| - 1]];
      FreshKeysNoCleaned(ks[..|ks| - 1]);
    }
  }

  /** After the corrected key loop every key but `total_chunked` has its old value, and that one the fresh count. */
  lemma FreshCopyValues(r: Registry, total: int)
    requires Valid(r)
    ensures Valid(FreshCopy(r, |r.keys|, total))
    ensures forall k :: k != "total_chunked" ==> Get(FreshCopy(r, |r.keys|, total), k) == Get(r, k)
    ensures "total_cleaned" in r.vals ==> Get(FreshCopy(r, |r.keys|, total), "total_chunked") == Some(Count(total))
  {
    FreshCopyShape(r, |r.keys|, total);
    FreshValuesAll(r, FreshCopy(r, |r.keys|, total), total);
  }

  /** `FreshValue` once every key has been copied. */
  lemma FreshValuesAll(r: Registry, out: Registry, total: int)
    requires Valid(r)
    requires forall k :: Get(out, k) == FreshValue(r, |r.keys|, k, total)
    ensures forall k :: k != "total_chunked" ==> Get(out, k) == Get(r, k)
    ensures "total_cleaned" in r.vals ==> Get(out, "total_chunked") == Some(Count(total))
    ensures "total_cleaned" !in r.vals ==> Get(out, "total_chunked") == Get(r, "total_chunked")
  {
    assert r.keys[..|r.keys|] == r.keys;
  }

  /** With `total_cleaned` present, the key order is the old one with `total_chunked` moved right after it. */
  lemma FreshCopyKeys(r: Registry, total: int)
    requires Valid(r) && "total_cleaned" in r.vals
    ensures ChunkedFollowsCleaned(FreshCopy(r, |r.keys|, total).keys)
    ensures Without(FreshCopy(r, |r.keys|, total).keys, "total_chunked") == Without(r.keys, "total_chunked")
  {
    FreshCopyShape(r, |r.keys|, total);
    assert r.keys[..|r.keys|] == r.keys;
    FreshKeysAdjacent(r.keys);
    FreshKeysWithout(r.keys);
  }

  /** Two valid registries with the same keys in the same order and the same values are equal. */
  lemma SameContents(a: Registry, b: Registry)
    requires Valid(a) && Valid(b) && a.keys == b.keys
    requires forall k :: Get(a, k) == Get(b, k)
    ensures a == b
  {
    forall k | k in b.vals ensures k in a.vals && a.vals[k] == b.vals[k] {
      assert Get(a, k) == Get(b, k);
    }
    assert a.vals == b.vals;
  }

  /** Without `total_cleaned` the corrected key loop gives the registry back unchanged. */
  lemma FreshCopyNoCleaned(r: Registry, total: int)
    requires Valid(r) && "total_cleaned" !in r.vals
    ensures FreshCopy(r, |r.keys|, total) == r
  {
    var out := FreshCopy(r, |r.keys|, total);
    FreshCopyShape(r, |r.keys|, total);
    assert r.keys[..|r.keys|] == r.keys;
    FreshKeysNoCleaned(r.keys);
    FreshValuesAll(r, out, total);
    SameContents(out, r);
  }

  /**
   * The loop stops exactly when some document has a cleaned path but no
   * `processing_status`; otherwise document `i` of the result is what one
   * iteration makes of document `i`.
   */
  lemma {:induction false} ChunkAllMeaning(docs: seq<Document>, files: map<string, ChunkFile>)
    ensures ChunkAll(docs, files).None? <==> exists i :: 0 <= i < |docs| && Stops(docs[i])
    ensures ChunkAll(docs, files).Some? ==>
      forall i :: 0 <= i < |docs| ==> ChunkDoc(docs[i], files) == Some(ChunkAll(docs, files).value[i])
    decreases |docs|
  {
    if docs != [] {
      var n := |docs| - 1;
      var init := docs[..n];
      ChunkAllMeaning(init, files);
      assert forall i :: 0 <= i < n ==> docs[i] == init[i];
      if ChunkAll(init, files).None? {
        var i :| 0 <= i < n && Stops(init[i]);
        assert Stops(docs[i]);
      } else if ChunkDoc(docs[n], files).None? {
        assert Stops(docs[n]);
      } else {
        var r := ChunkAll(docs, files).value;
        assert r == ChunkAll(init, files).value + [ChunkDoc(docs[n], files).value];
        assert forall i :: 0 <= i < n ==> r[i] == ChunkAll(init, files).value[i];
      }
    }
  }

  /** On a registry without `total_chunked` (the first run) the loop as written is the intended one. */
  lemma {:induction false} FirstRunAgrees(r: Registry, n: nat, total: int)
    requires Valid(r) && n <= |r.keys| && "total_chunked" !in r.vals
    ensures AsWrittenCopy(r, n, total) == FreshCopy(r, n, total)
    decreases n
  {
    if n > 0 {
      FirstRunAgrees(r, n - 1, total);
      assert r.keys[n - 1] in r.vals;
      SameStep(FreshCopy(r, n - 1, total), r, n, total);
    }
  }

  /** Where the key copied is not `total_chunked`, the two loops take the same step. */
  lemma SameStep(prev: Registry, r: Registry, n: nat, total: int)
    requires Valid(r) && 0 < n <= |r.keys| && r.keys[n - 1] != "total_chunked"
    ensures AsWrittenStep(prev, r, n, total) == FreshStep(prev, r, n, total)
  {
  }

  /**
   * The loop as written keeps a stale count: once `total_chunked` sits after
   * `total_cleaned` (as it does after the first run), its old value is copied
   * over the fresh one.  A concrete instance, checked by unfolding the two
   * loops; `AsWrittenKeepsStale` is the general statement.
   */
  lemma StaleTotalChunked()
    ensures var r := Registry(["total_cleaned", "total_chunked"],
                              map["total_cleaned" := Count(1), "total_chunked" := Count(0)]);
      Valid(r) &&
      Get(AsWrittenCopy(r, 2, 1), "total_chunked") == Some(Count(0)) &&
      Get(FreshCopy(r, 2, 1), "total_chunked") == Some(Count(1))
  {
    var r := Registry(["total_cleaned", "total_chunked"],
                      map["total_cleaned" := Count(1), "total_chunked" := Count(0)]);
    var a1 := AsWrittenCopy(r, 1, 1);
    assert Get(a1, "total_chunked") == Some(Count(1));
    var f1 := FreshCopy(r, 1, 1);
    assert Get(f1, "total_chunked") == Some(Count(1));
  }

  /**
   * Copying keys that are neither `total_cleaned` nor `total_chunked` leaves
   * the value of `total_chunked` where the loop as written had it.
   */
  lemma {:induction false} AsWrittenChunkedUntouched(r: Registry, n0: nat, n: nat, total: int)
    requires Valid(r) && n0 <= n <= |r.keys|
    requires forall m :: n0 <= m < n ==> r.keys[m] != "total_cleaned" && r.keys[m] != "total_chunked"
    ensures Get(AsWrittenCopy(r, n, total), "total_chunked") == Get(AsWrittenCopy(r, n0, total), "total_chunked")
    decreases n
  {
    if n > n0 {
      AsWrittenChunkedUntouched(r, n0, n - 1, total);
    }
  }

  /**
   * The loop as written, whenever an old `total_chunked` comes after
   * `total_cleaned` (every run after the first): the saved `total_chunked` is
   * the old value, not this run's count.
   */
  lemma AsWrittenKeepsStale(r: Registry, i: nat, j: nat, total: int)
    requires Valid(r) && i < j < |r.keys|
    requires r.keys[i] == "total_cleaned" && r.keys[j] == "total_chunked"
    ensures Get(AsWrittenCopy(r, |r.keys|, total), "total_chunked") == Get(r, "total_chunked")
  {
    assert "total_chunked" in r.keys;
    assert Get(AsWrittenCopy(r, j + 1, total), "total_chunked") == Some(r.vals["total_chunked"]);
    forall m | j + 1 <= m < |r.keys|
      ensures r.keys[m] != "total_cleaned" && r.keys[m] != "total_chunked"
    {
      assert r.keys[i] != r.keys[m] && r.keys[j] != r.keys[m];
    }
    AsWrittenChunkedUntouched(r, j + 1, |r.keys|, total);
  }

  /**
   * The loop as written copies the keys in their order, provided
   * `total_chunked` (at `j`) comes before every `total_cleaned` among the
   * first `n` keys.
   */
  lemma {:induction false} AsWrittenKeys(r: Registry, n: nat, j: nat, total: int)
    requires Valid(r) && n <= |r.keys| && j < |r.keys| && r.keys[j] == "total_chunked"
    requires forall m :: 0 <= m < n && r.keys[m] == "total_cleaned" ==> j < m
    ensures Valid(AsWrittenCopy(r, n, total)) && AsWrittenCopy(r, n, total).keys == r.keys[..n]
    decreases n
  {
    if n > 0 {
      AsWrittenKeys(r, n - 1, j, total);
      PrefixMembers(r.keys, n);
      var prev := AsWrittenCopy(r, n - 1, total);
      if r.keys[n - 1] == "total_cleaned" {
        assert prev.keys[j] == "total_chunked";
      }
      AsWrittenStepKeys(prev, r, n, total);
    }
  }

  /** One step of the loop as written appends the key it copies and no other. */
  lemma AsWrittenStepKeys(prev: Registry, r: Registry, n: nat, total: int)
    requires Valid(r) && 0 < n <= |r.keys| && Valid(prev)
    requires r.keys[n - 1] !in prev.keys
    requires r.keys[n - 1] == "total_cleaned" ==> "total_chunked" in prev.keys
    ensures Valid(AsWrittenStep(prev, r, n, total))
    ensures AsWrittenStep(prev, r, n, total).keys == prev.keys + [r.keys[n - 1]]
  {
    var k := r.keys[n - 1];
    assert k in r.keys;
    var acc := Assign(prev, k, r.vals[k]);
    if k == "total_cleaned" {
      assert "total_chunked" in acc.keys;
    }
  }

  /**
   * The loop as written, when `total_chunked` comes before `total_cleaned`:
   * the fresh count is stored and `total_chunked` keeps its old place.
   */
  lemma AsWrittenFreshBeforeCleaned(r: Registry, i: nat, j: nat, total: int)
    requires Valid(r) && j < i < |r.keys|
    requires r.keys[i] == "total_cleaned" && r.keys[j] == "total_chunked"
    ensures Get(AsWrittenCopy(r, |r.keys|, total), "total_chunked") == Some(Count(total))
    ensures AsWrittenCopy(r, |r.keys|, total).keys == r.keys
  {
    AsWrittenFreshValue(r, i, total);
    forall m | 0 <= m < |r.keys| && r.keys[m] == "total_cleaned"
      ensures j < m
    {
      assert m == i;
    }
    AsWrittenKeys(r, |r.keys|, j, total);
    assert r.keys[..|r.keys|] == r.keys;
  }

  /** After `total_cleaned` (at `i`) the loop as written leaves the fresh count alone unless `total_chunked` comes later. */
  lemma AsWrittenFreshValue(r: Registry, i: nat, total: int)
    requires Valid(r) && i < |r.keys| && r.keys[i] == "total_cleaned"
    requires forall m :: i < m < |r.keys| ==> r.keys[m] != "total_chunked"
    ensures Get(AsWrittenCopy(r, |r.keys|, total), "total_chunked") == Some(Count(total))
  {
    assert Get(AsWrittenCopy(r, i + 1, total), "total_chunked") == Some(Count(total));
    forall m | i + 1 <= m < |r.keys|
      ensures r.keys[m] != "total_cleaned"
    {
      assert r.keys[i] != r.keys[m];
    }
    AsWrittenChunkedUntouched(r, i + 1, |r.keys|, total);
  }
}
