/**
 * `remove_duplicates_by_raw_path`: keep the first document of each `raw_path`
 * (documents without one share the key `None`) and recount `total_documents`.
 */
module Dedup {
  import opened Wrappers
  import opened Registry

  /** Document `i` is the first with its `raw_path`. */
  predicate IsFirst(docs: seq<Document>, i: nat)
    requires i < |docs|
  {
    forall j :: 0 <= j < i ==> docs[j].rawPath != docs[i].rawPath
  }

  /** The reference result: the documents that are first with their `raw_path`, in input order. */
  function FirstOccurrences(docs: seq<Document>): (r: seq<Document>)
    ensures |r| <= |docs|
  {
    if docs == [] then []
    else FirstOccurrences(docs[..|docs| - 1]) + (if IsFirst(docs, |docs| - 1) then [docs[|docs| - 1]] else [])
  }

  /** The indices `FirstOccurrences` keeps, in increasing order. */
  ghost function Kept(docs: seq<Document>): seq<nat> {
    if docs == [] then []
    else Kept(docs[..|docs| - 1]) + (if IsFirst(docs, |docs| - 1) then [|docs| - 1] else [])
  }

  function RawPaths(docs: seq<Document>): set<Option<string>> {
    set i | 0 <= i < |docs| :: docs[i].rawPath
  }

  predicate DistinctRawPaths(docs: seq<Document>) {
    forall i, j :: 0 <= i < j < |docs| ==> docs[i].rawPath != docs[j].rawPath
  }

  /** The loop of `remove_duplicates_by_raw_path`, with its `seen_raw_paths` set. */
  method RemoveDuplicates(docs: seq<Document>) returns (unique: seq<Document>)
    ensures unique == FirstOccurrences(docs)
    ensures DistinctRawPaths(unique)
    ensures RawPaths(unique) == RawPaths(docs)
  {
    var seen: set<Option<string>> := {};
    unique := [];
    for i := 0 to |docs|
      invariant seen == RawPaths(docs[..i])
      invariant unique == FirstOccurrences(docs[..i])
    {
      PrefixStep(docs, i);
      var raw := docs[i].rawPath;
      if raw !in seen {
        seen := seen + {raw};
        unique := unique + [docs[i]];
      }
    }
    assert docs[..|docs|] == docs;
    FirstOccurrencesDistinct(docs);
    FirstOccurrencesRawPaths(docs);
  }

  /** The registry after the script: deduplicated documents and the new `total_documents`. */
  function Deduplicated(data: Registry): Registry {
    var unique := FirstOccurrences(Documents(data));
    Assign(WithDocuments(data, unique), "total_documents", Count(|unique|))
  }

  /**
   * `remove_duplicates_by_raw_path` on the loaded registry; `removed` is the
   * reported number of removed entries.
   */
  method RemoveDuplicatesByRawPath(data: Registry) returns (out: Registry, removed: int)
    requires Valid(data)
    ensures out == Deduplicated(data)
    ensures Valid(out) && HasDocuments(out)
    ensures Documents(out) == FirstOccurrences(Documents(data))
    ensures Get(out, "total_documents") == Some(Count(|Documents(out)|))
    ensures forall k :: k != "documents" && k != "total_documents" ==> Get(out, k) == Get(data, k)
    ensures |data.keys| <= |out.keys| && out.keys[..|data.keys|] == data.keys
    ensures removed == |Documents(data)| - |Documents(out)| && removed >= 0
  {
    var documents := Documents(data);
    var unique := RemoveDuplicates(documents);
    out := WithDocuments(data, unique);
    out := Assign(out, "total_documents", Count(|unique|));
    removed := |documents| - |unique|;
  }

  // ----- Lemmas ----------------------------------------------------------------------

  /** One step of the loop: what the next document adds to the seen set and the result. */
  lemma PrefixStep(docs: seq<Document>, i: nat)
    requires i < |docs|
    ensures RawPaths(docs[..i + 1]) == RawPaths(docs[..i]) + {docs[i].rawPath}
    ensures FirstOccurrences(docs[..i + 1]) ==
      FirstOccurrences(docs[..i]) + (if docs[i].rawPath in RawPaths(docs[..i]) then [] else [docs[i]])
  {
    var p := docs[..i + 1];
    assert p[..i] == docs[..i];
    assert IsFirst(p, i) <==> docs[i].rawPath !in RawPaths(docs[..i]) by {
      if docs[i].rawPath in RawPaths(docs[..i]) {
        var j :| 0 <= j < i && docs[..i][j].rawPath == docs[i].rawPath;
        assert p[j].rawPath == p[i].rawPath;
      }
    }
    forall x | x in RawPaths(p) ensures x in RawPaths(docs[..i]) + {docs[i].rawPath} {
      var j :| 0 <= j < i + 1 && p[j].rawPath == x;
      if j < i {
        assert docs[..i][j].rawPath == x;
      }
    }
    forall x | x in RawPaths(docs[..i]) ensures x in RawPaths(p) {
      var j :| 0 <= j < i && docs[..i][j].rawPath == x;
      assert p[j].rawPath == x;
    }
    assert p[i].rawPath in RawPaths(p);
  }

  /** The result holds every `raw_path` of the input, and no other. */
  lemma {:induction false} FirstOccurrencesRawPaths(docs: seq<Document>)
    ensures RawPaths(FirstOccurrences(docs)) == RawPaths(docs)
    decreases |docs|
  {
    if docs != [] {
      var n := |docs| - 1;
      var init := docs[..n];
      FirstOccurrencesRawPaths(init);
      assert docs[..n + 1] == docs;
      PrefixStep(docs, n);
      var tail := if docs[n].rawPath in RawPaths(init) then [] else [docs[n]];
      RawPathsAppend(FirstOccurrences(init), tail);
      assert RawPaths([docs[n]]) == {docs[n].rawPath} by {
        assert [docs[n]][0].rawPath == docs[n].rawPath;
      }
      assert RawPaths([]) == {};
    }
  }

  lemma RawPathsAppend(a: seq<Document>, b: seq<Document>)
    ensures RawPaths(a + b) == RawPaths(a) + RawPaths(b)
  {
    forall x | x in RawPaths(a + b) ensures x in RawPaths(a) + RawPaths(b) {
      var j :| 0 <= j < |a + b| && (a + b)[j].rawPath == x;
      if j < |a| {
        assert a[j].rawPath == x;
      } else {
        assert b[j - |a|].rawPath == x;
      }
    }
    forall x | x in RawPaths(a) + RawPaths(b) ensures x in RawPaths(a + b) {
      if x in RawPaths(a) {
        var j :| 0 <= j < |a| && a[j].rawPath == x;
        assert (a + b)[j].rawPath == x;
      } else {
        var j :| 0 <= j < |b| && b[j].rawPath == x;
        assert (a + b)[|a| + j].rawPath == x;
      }
    }
  }

  /** No two documents of the result share a `raw_path`. */
  lemma {:induction false} FirstOccurrencesDistinct(docs: seq<Document>)
    ensures DistinctRawPaths(FirstOccurrences(docs))
    decreases |docs|
  {
    if docs != [] {
      var n := |docs| - 1;
      var init := docs[..n];
      FirstOccurrencesDistinct(init);
      FirstOccurrencesRawPaths(init);
      assert docs[..n + 1] == docs;
      PrefixStep(docs, n);
      var f := FirstOccurrences(init);
      if docs[n].rawPath !in RawPaths(init) {
        forall i | 0 <= i < |f| ensures f[i].rawPath != docs[n].rawPath {
          assert f[i].rawPath in RawPaths(f);
        }
      }
    }
  }

  /**
   * The result is the subsequence of the input at the indices `Kept(docs)`:
   * increasing, each one the first index of its `raw_path`, and every such
   * first index among them.
   */
  lemma {:induction false} FirstOccurrencesKept(docs: seq<Document>)
    ensures |Kept(docs)| == |FirstOccurrences(docs)|
    ensures forall k :: 0 <= k < |Kept(docs)| ==>
      Kept(docs)[k] < |docs| && FirstOccurrences(docs)[k] == docs[Kept(docs)[k]] && IsFirst(docs, Kept(docs)[k])
    ensures forall k, l :: 0 <= k < l < |Kept(docs)| ==> Kept(docs)[k] < Kept(docs)[l]
    ensures forall i :: 0 <= i < |docs| && IsFirst(docs, i) ==> i in Kept(docs)
    decreases |docs|
  {
    if docs != [] {
      var n := |docs| - 1;
      var init := docs[..n];
      FirstOccurrencesKept(init);
      forall i | 0 <= i < n ensures IsFirst(docs, i) == IsFirst(init, i) {
        assert forall j :: 0 <= j < i ==> docs[j] == init[j];
      }
    }
  }

  /** A list whose `raw_path`s are already distinct is left as it is. */
  lemma {:induction false} DistinctUnchanged(docs: seq<Document>)
    requires DistinctRawPaths(docs)
    ensures FirstOccurrences(docs) == docs
    decreases |docs|
  {
    if docs != [] {
      var n := |docs| - 1;
      DistinctUnchanged(docs[..n]);
      assert IsFirst(docs, n);
      assert docs[..n] + [docs[n]] == docs;
    }
  }

  /** Deduplicating twice gives the same list as deduplicating once. */
  lemma FirstOccurrencesIdempotent(docs: seq<Document>)
    ensures FirstOccurrences(FirstOccurrences(docs)) == FirstOccurrences(docs)
  {
    FirstOccurrencesDistinct(docs);
    DistinctUnchanged(FirstOccurrences(docs));
  }

  /** Running the script twice leaves the registry as one run left it. */
  lemma DeduplicatedIdempotent(data: Registry)
    requires Valid(data)
    ensures Deduplicated(Deduplicated(data)) == Deduplicated(data)
  {
    var unique := FirstOccurrences(Documents(data));
    var once := Deduplicated(data);
    FirstOccurrencesIdempotent(Documents(data));
    assert Documents(once) == unique;
    AssignSame(once, "documents", Docs(unique));
    AssignSame(once, "total_documents", Count(|unique|));
  }
}
