/**
 * The shared registry file `documents_metadata.json` as the preprocessing
 * scripts see it after `json.load`: a top-level dictionary whose keys keep
 * their insertion order, holding the `documents` list and summary counters.
 *
 * A document record is a dictionary too; the fields the scripts read or write
 * are named here, each `Option` (`None` when the key is absent).
 */
module Registry {
  import opened Wrappers

  /** The `cleaning_info` record a cleaner attaches to a document. */
  datatype CleaningInfo = CleaningInfo(cleanedAt: string, originalSize: nat, cleanedSize: nat)

  datatype Document = Document(
    title: Option<string>,
    sourceUrl: Option<string>,
    sourcePage: Option<string>,
    sourceWebsite: Option<string>,
    downloadDate: Option<string>,
    documentType: Option<string>,
    year: Option<int>,
    court: Option<string>,
    rawPath: Option<string>,
    textPath: Option<string>,
    cleanedPath: Option<string>,
    chunkedPath: Option<string>,
    status: Option<string>,
    processingStatus: Option<map<string, bool>>,
    cleaningInfo: Option<CleaningInfo>)

  /** Python truthiness of an optional string field: present and not empty. */
  predicate Truthy(v: Option<string>) {
    v.Some? && v.value != []
  }

  /** `doc.get('processing_status', {}).get(flag, False)` */
  predicate Flag(d: Document, flag: string) {
    d.processingStatus.Some? && flag in d.processingStatus.value && d.processingStatus.value[flag]
  }

  /**
   * `doc['processing_status'][flag] = b` after creating an empty
   * `processing_status` when the document has none.
   */
  function SetFlag(d: Document, flag: string, b: bool): (r: Document)
    ensures Flag(r, flag) == b
    ensures r.processingStatus.Some? && flag in r.processingStatus.value
    ensures forall g :: g != flag ==> Flag(r, g) == Flag(d, g)
    ensures r.(processingStatus := d.processingStatus) == d
  {
    var ps := if d.processingStatus.Some? then d.processingStatus.value else map[];
    d.(processingStatus := Some(ps[flag := b]))
  }

  /** How many documents carry `flag` set to true. */
  function CountFlag(docs: seq<Document>, flag: string): (n: nat)
    ensures n <= |docs|
  {
    if docs == [] then 0
    else CountFlag(docs[..|docs| - 1], flag) + (if Flag(docs[|docs| - 1], flag) then 1 else 0)
  }

  /** The index of the first document satisfying `p`, as a `for ... break` loop finds it. */
  function FirstMatch(docs: seq<Document>, p: Document -> bool): (r: Option<nat>)
    ensures r.Some? ==> r.value < |docs| && p(docs[r.value])
    ensures r.Some? ==> forall j :: 0 <= j < r.value ==> !p(docs[j])
    ensures r.None? ==> forall j :: 0 <= j < |docs| ==> !p(docs[j])
  {
    if docs == [] then None
    else if p(docs[0]) then Some(0)
    else match FirstMatch(docs[1..], p)
      case None => None
      case Some(i) => Some(i + 1)
  }

  // ----- The top-level dictionary ------------------------------------------------

  datatype Value = Docs(docs: seq<Document>) | Count(n: int) | Text(s: string) | Other(id: nat)

  /** Keys in insertion order, and the value of each. */
  datatype Registry = Registry(keys: seq<string>, vals: map<string, Value>)

  predicate Valid(r: Registry) {
    (forall i, j :: 0 <= i < j < |r.keys| ==> r.keys[i] != r.keys[j]) &&
    (forall k :: k in r.vals ==> k in r.keys) &&
    (forall k :: k in r.keys ==> k in r.vals)
  }

  const Empty: Registry := Registry([], map[])

  /** `r.get(k)` */
  function Get(r: Registry, k: string): Option<Value> {
    if k in r.vals then Some(r.vals[k]) else None
  }

  /** `r[k] = v`: an existing key keeps its place, a new key goes last. */
  function Assign(r: Registry, k: string, v: Value): (r': Registry)
    ensures Valid(r) ==> Valid(r')
    ensures Get(r', k) == Some(v)
    ensures forall j :: j != k ==> Get(r', j) == Get(r, j)
    ensures Valid(r) && k in r.vals ==> r'.keys == r.keys
    ensures Valid(r) && k !in r.vals ==> r'.keys == r.keys + [k]
  {
    Registry(if k in r.keys then r.keys else r.keys + [k], r.vals[k := v])
  }

  /**
   * `r.get('documents', [])`; a `documents` entry that is not a list is read
   * as absent.
   */
  function Documents(r: Registry): seq<Document> {
    match Get(r, "documents")
    case Some(Docs(docs)) => docs
    case _ => []
  }

  /** Whether `r['documents']` can be read without a `KeyError`. */
  predicate HasDocuments(r: Registry) {
    Get(r, "documents").Some? && Get(r, "documents").value.Docs?
  }

  /** `r['documents'] = docs` */
  function WithDocuments(r: Registry, docs: seq<Document>): (r': Registry)
    ensures Valid(r) ==> Valid(r')
    ensures HasDocuments(r') && Documents(r') == docs
    ensures forall j :: j != "documents" ==> Get(r', j) == Get(r, j)
    ensures Valid(r) && "documents" in r.vals ==> r'.keys == r.keys
  {
    Assign(r, "documents", Docs(docs))
  }

  // ----- Lemmas ----------------------------------------------------------------------

  /** Assigning a key the value it already has changes nothing, order included. */
  lemma AssignSame(r: Registry, k: string, v: Value)
    requires Valid(r) && Get(r, k) == Some(v)
    ensures Assign(r, k, v) == r
  {
    assert r.vals[k := v] == r.vals;
  }

  /** Counting a flag over a concatenation adds the two counts. */
  lemma {:induction false} CountFlagAppend(a: seq<Document>, b: seq<Document>, flag: string)
    ensures CountFlag(a + b, flag) == CountFlag(a, flag) + CountFlag(b, flag)
    decreases |b|
  {
    if b == [] {
      assert a + b == a;
    } else {
      var b' := b[..|b| - 1];
      CountFlagAppend(a, b', flag);
      assert (a + b)[..|a + b| - 1] == a + b';
    }
  }

  /** Changing one document changes the count only by that document's own flag. */
  lemma CountFlagUpdate(docs: seq<Document>, i: nat, d: Document, flag: string)
    requires i < |docs|
    ensures CountFlag(docs[i := d], flag) + (if Flag(docs[i], flag) then 1 else 0)
         == CountFlag(docs, flag) + (if Flag(d, flag) then 1 else 0)
  {
    assert docs == docs[..i] + [docs[i]] + docs[i + 1..];
    assert docs[i := d] == docs[..i] + [d] + docs[i + 1..];
    CountFlagAppend(docs[..i] + [docs[i]], docs[i + 1..], flag);
    CountFlagAppend(docs[..i], [docs[i]], flag);
    CountFlagAppend(docs[..i] + [d], docs[i + 1..], flag);
    CountFlagAppend(docs[..i], [d], flag);
    assert [docs[i]][..0] == [];
    assert [d][..0] == [];
  }
}
