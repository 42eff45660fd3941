/** The table's documented behaviour, one scenario per case: each method
    builds tables through the Table class and states in its contract what
    the case observes. */
module TableScenarios {
  import opened Wrappers
  import opened Documents
  import opened Keys
  import opened Visiting
  import opened Constraints
  import opened Indexes
  import opened Tables
  import TableSpec

  /** The two-field document most cases insert. */
  function NewDocument(): Document {
    [Field("fielda", Text("a")), Field("fieldb", Text("b"))]
  }

  function FieldPath(name: string): Path {
    [FieldSel(name)]
  }

  /** A visitor that never fails. */
  function Count(i: nat, s: TableSpec.Stored): Option<string> {
    None
  }

  /** A visitor that fails from its fifth call on. */
  function FailFromFifth(i: nat, s: TableSpec.Stored): Option<string> {
    if i + 1 >= 5 then Some("some error") else None
  }

  /** Inserts `d` into a table without constraints or unique indexes:
      this always succeeds, under the next generated key. */
  method InsertPlain(t: Table, d: Document) returns (k: Key)
    requires t.Valid() && t.info.constraints == []
    requires forall n :: n in t.indexes ==> !t.indexes[n].unique
    modifies t
    ensures t.Valid()
    ensures k == EncodeUint(old(t.sequence) + 1) && k !in old(t.docs)
    ensures t.docs == old(t.docs)[k := d] && |t.docs| == |old(t.docs)| + 1
    ensures t.sequence == old(t.sequence) + 1
    ensures t.indexes.Keys == old(t.indexes).Keys
    ensures forall n :: n in t.indexes ==> !t.indexes[n].unique
    ensures t.indexes == TableSpec.AddToIndexes(old(t.indexes), d, k).value
  {
    ValidateUntyped(d, []);
    TableSpec.InsertGeneratedSucceeds(t.info, t.State(), d);
    TableSpec.InsertGenerated(t.info, t.State(), d);
    var r := t.Insert(d);
    k := r.value;
  }

  /** Into an empty table without a primary key, a document that passes
      validation is stored as validated under the first generated key. */
  lemma InsertIntoEmpty(info: TableInfo, d: Document, vd: Document)
    requires PrimaryKeyConstraint(info.constraints).None?
    requires Validate(d, info.constraints) == Success(vd)
    ensures TableSpec.Insert(info, TableSpec.Empty(), d) ==
      Success((EncodeUint(1), TableSpec.TableState(map[EncodeUint(1) := vd], 1, map[])))
  {
    TableSpec.InsertGeneratedSucceeds(info, TableSpec.Empty(), d);
    NoIndexes(vd, EncodeUint(1));
  }

  lemma NoIndexes(d: Document, k: Key)
    ensures TableSpec.AddToIndexes(map[], d, k) == Success(map[])
  {
    assert TableSpec.AddToIndexes(map[], d, k).value.Keys == {};
  }

  /** Inserts `d` into a table without constraints or indexes. */
  method InsertUnindexed(t: Table, d: Document) returns (k: Key)
    requires t.Valid() && t.info.constraints == [] && t.indexes == map[]
    modifies t
    ensures t.Valid() && t.indexes == map[]
    ensures k == EncodeUint(old(t.sequence) + 1) && k !in old(t.docs)
    ensures t.docs == old(t.docs)[k := d] && |t.docs| == |old(t.docs)| + 1
    ensures t.sequence == old(t.sequence) + 1
  {
    NoIndexes(d, EncodeUint(t.sequence + 1));
    k := InsertPlain(t, d);
  }

  /** Inserts each of `ds` into a table without constraints or indexes. */
  method InsertAll(t: Table, ds: seq<Document>)
    requires t.Valid() && t.info.constraints == [] && t.indexes == map[]
    modifies t
    ensures t.Valid() && t.indexes == map[]
    ensures |t.docs| == |old(t.docs)| + |ds|
    ensures forall k :: k in t.docs ==> k in old(t.docs) || t.docs[k] in ds
  {
    var i := 0;
    while i < |ds|
      invariant 0 <= i <= |ds|
      invariant t.Valid() && t.indexes == map[]
      invariant |t.docs| == |old(t.docs)| + i
      invariant forall k :: k in t.docs ==> k in old(t.docs) || t.docs[k] in ds
    {
      var _ := InsertUnindexed(t, ds[i]);
      i := i + 1;
    }
  }

  // ---- Iterate ------------------------------------------------------------

  /** Iterating over an empty table never calls the visitor. */
  method IterateEmptyTable() returns (err: Option<string>, calls: nat)
    ensures err == None && calls == 0
  {
    var t := new Table(TableInfo([]));
    var visited;
    err, visited := t.Iterate(Count);
    calls := |visited|;
  }

  /** A fresh table without constraints or indexes holding ten documents. */
  method TenDocuments() returns (t: Table)
    ensures fresh(t) && t.Valid() && t.info.constraints == [] && t.indexes == map[]
    ensures |t.docs| == 10
  {
    t := new Table(TableInfo([]));
    InsertAll(t, seq(10, _ => NewDocument()));
  }

  /** After ten inserts an iteration visits ten documents, each under its
      own key. */
  method IterateAllDocuments() returns (err: Option<string>, visited: seq<TableSpec.Stored>)
    ensures err == None && |visited| == 10
    ensures forall i, j :: 0 <= i < |visited| && 0 <= j < |visited| && i != j ==> visited[i].key != visited[j].key
  {
    var t := TenDocuments();
    err, visited := t.Iterate(Count);
    CountVisitsAll(t.docs, visited, err);
  }

  /** A visitor that never fails is handed every stored document once. */
  lemma CountVisitsAll(docs: map<Key, Document>, visited: seq<TableSpec.Stored>, err: Option<string>)
    requires VisitedUntilError(TableSpec.KeyOrder(docs), Count, visited, err)
    ensures err == None && |visited| == |docs|
    ensures forall i, j :: 0 <= i < |visited| && 0 <= j < |visited| && i != j ==> visited[i].key != visited[j].key
  {
    TableSpec.KeyOrderSpec(docs);
    VisitsAll(TableSpec.KeyOrder(docs), Count, visited, err);
    forall i, j | 0 <= i < |visited| && 0 <= j < |visited| && i != j ensures visited[i].key != visited[j].key {
      TableSpec.KeyOrderDistinct(docs, i, j);
    }
  }

  /** A visitor that fails on its fifth call stops the iteration there, and
      its error is returned. */
  method IterateStopsOnError() returns (err: Option<string>, calls: nat)
    ensures err == Some("some error") && calls == 5
  {
    var t := TenDocuments();
    var visited;
    err, visited := t.Iterate(FailFromFifth);
    TableSpec.KeyOrderSpec(t.docs);
    StopsAtFirstError(TableSpec.KeyOrder(t.docs), FailFromFifth, visited, err, 4);
    calls := |visited|;
  }

  // ---- GetDocument --------------------------------------------------------

  /** Looking up a key that is not stored fails with DocumentNotFound. */
  method GetMissingDocument() returns (r: Result<Document, Error>)
    ensures r == Failure(DocumentNotFound)
  {
    var t := new Table(TableInfo([]));
    r := t.GetDocument(Digits("id", CharDigit));
  }

  /** The key returned by an insert fetches the document inserted under it. */
  method GetInsertedDocument() returns (fc: Option<Value>)
    ensures fc == Some(Integer(40))
  {
    var t := new Table(TableInfo([]));
    var doc1 := [Field("fielda", Text("a")), Field("fieldb", Text("b")), Field("fieldc", Integer(40))];
    assert GetByField(doc1, "fieldc") == Some(Integer(40));
    var key1 := InsertUnindexed(t, doc1);
    var key2 := InsertUnindexed(t, NewDocument());
    UintRoundTrip(1, key1);
    UintRoundTrip(2, key2);
    var res := t.GetDocument(key1);
    assert res.value == doc1;
    fc := GetByField(res.value, "fieldc");
  }

  // ---- Insert -------------------------------------------------------------

  /** Without a primary key every insert generates a fresh, non-empty key. */
  method GenerateKeys() returns (key1: Key, key2: Key)
    ensures |key1| > 0 && |key2| > 0 && key1 != key2
  {
    var t := new Table(TableInfo([]));
    key1 := InsertUnindexed(t, NewDocument());
    key2 := InsertUnindexed(t, NewDocument());
  }

  /** A table opened again on the documents a previous session stored goes
      on numbering its keys from the last one. */
  method GenerateKeysAfterReopen() returns (key1: Key, key2: Key)
    ensures DecodeUint(key1).Some? && DecodeUint(key2) == Some(DecodeUint(key1).value + 1)
  {
    var t := new Table(TableInfo([]));
    key1 := InsertUnindexed(t, NewDocument());
    var t' := ReopenFirst(t);
    key2 := InsertUnindexed(t', NewDocument());
    UintRoundTrip(1, key1);
    UintRoundTrip(2, key2);
  }

  /** Reopens a table whose only document was stored under the first
      generated key. */
  method ReopenFirst(t: Table) returns (t': Table)
    requires t.Valid() && t.info.constraints == [] && t.indexes == map[]
    requires t.docs.Keys == {EncodeUint(1)}
    ensures t'.Valid() && t'.info.constraints == [] && t'.indexes == map[]
    ensures fresh(t') && t'.docs == t.docs && t'.sequence == 1
  {
    t' := new Table.Open(t.info, t.State());
    OneGenerated(t'.docs, t'.sequence);
  }

  /** A store holding only the first generated key reopens with counter 1. */
  lemma OneGenerated(docs: map<Key, Document>, n: nat)
    requires docs.Keys == {EncodeUint(1)} && TableSpec.IsLastNumber(docs, n)
    ensures n == 1
  {
    UintRoundTrip(1, EncodeUint(1));
    assert EncodeUint(1) in docs;
  }

  // ---- Delete -------------------------------------------------------------

  lemma NoIndexesToRemove(d: Document, k: Key)
    ensures TableSpec.RemoveFromIndexes(map[], d, k) == Success(map[])
  {
    assert TableSpec.RemoveFromIndexes(map[], d, k).value.Keys == {};
  }

  /** Deletes `k` from a table without indexes: refused when `k` is not
      stored, otherwise exactly that document is removed. */
  method DeleteUnindexed(t: Table, k: Key) returns (err: Option<Error>)
    requires t.Valid() && t.indexes == map[]
    modifies t
    ensures t.Valid() && t.indexes == map[] && t.sequence == old(t.sequence)
    ensures err.None? <==> k in old(t.docs)
    ensures err.Some? ==> err.value == DocumentNotFound && t.docs == old(t.docs)
    ensures err.None? ==> t.docs == old(t.docs) - {k}
  {
    if k in t.docs {
      NoIndexesToRemove(t.docs[k], k);
    }
    err := t.Delete(k);
  }

  /** Deleting from an empty table fails with DocumentNotFound. */
  method DeleteMissing() returns (err: Option<Error>)
    ensures err == Some(DocumentNotFound)
  {
    var t := new Table(TableInfo([]));
    err := t.Delete(Digits("id", CharDigit));
  }

  /** Deleting removes the document under that key only: a second delete of
      it fails, and the other document is still there, unchanged. */
  method DeleteRightDocument() returns (first: Option<Error>, second: Option<Error>, other: Result<Document, Error>, fc: Option<Value>)
    ensures first == None && second == Some(DocumentNotFound)
    ensures other == Success(NewDocument()) && fc == None
  {
    var t := new Table(TableInfo([]));
    var doc1 := NewDocument() + [Field("fieldc", Integer(40))];
    var key1 := InsertUnindexed(t, doc1);
    var key2 := InsertUnindexed(t, NewDocument());
    UintRoundTrip(1, key1);
    UintRoundTrip(2, key2);
    first := DeleteUnindexed(t, key1);
    second := DeleteUnindexed(t, key1);
    other := t.GetDocument(key2);
    NoFieldC();
    fc := GetByField(other.value, "fieldc");
  }

  /** The document left after the delete has no `fieldc`. */
  lemma NoFieldC()
    ensures GetByField(NewDocument(), "fieldc") == None
  {
  }

  // ---- Replace ------------------------------------------------------------

  /** Replaces the document under `k` in a table without constraints or
      indexes: refused when `k` is not stored, otherwise exactly that
      document changes. */
  method ReplaceUnindexed(t: Table, k: Key, d: Document) returns (err: Option<Error>)
    requires t.Valid() && t.info.constraints == [] && t.indexes == map[]
    modifies t
    ensures t.Valid() && t.indexes == map[] && t.sequence == old(t.sequence)
    ensures err.None? <==> k in old(t.docs)
    ensures err.Some? ==> err.value == DocumentNotFound && t.docs == old(t.docs)
    ensures err.None? ==> t.docs == old(t.docs)[k := d]
  {
    ValidateUntyped(d, []);
    if k in t.docs {
      NoIndexesToRemove(t.docs[k], k);
      NoIndexes(d, k);
    }
    err := t.Replace(k, d);
  }

  /** Replacing in an empty table fails with DocumentNotFound. */
  method ReplaceMissing() returns (err: Option<Error>)
    ensures err == Some(DocumentNotFound)
  {
    var t := new Table(TableInfo([]));
    err := t.Replace(Digits("id", CharDigit), NewDocument());
  }

  function Letters(a: string, b: string): Document {
    [Field("fielda", Text(a)), Field("fieldb", Text(b))]
  }

  /** Replacing changes the document under that key only. */
  method ReplaceRightDocument() returns (err: Option<Error>, replaced: Option<Value>, other: Option<Value>)
    ensures err == None
    ensures replaced == Some(Text("e")) && other == Some(Text("c"))
  {
    var t := new Table(TableInfo([]));
    var key1 := InsertUnindexed(t, NewDocument());
    var key2 := InsertUnindexed(t, Letters("c", "d"));
    UintRoundTrip(1, key1);
    UintRoundTrip(2, key2);
    err := ReplaceUnindexed(t, key1, Letters("e", "f"));
    var r1 := t.GetDocument(key1);
    var r2 := t.GetDocument(key2);
    FieldA("e", "f");
    FieldA("c", "d");
    replaced := GetByField(r1.value, "fielda");
    other := GetByField(r2.value, "fielda");
  }

  /** The field the checks read back. */
  lemma FieldA(a: string, b: string)
    ensures GetByField(Letters(a, b), "fielda") == Some(Text(a))
  {
    assert FieldIndex(Letters(a, b), "fielda") == Some(0);
  }

  // ---- Truncate -----------------------------------------------------------

  /** A visitor that fails on every call. */
  function AlwaysFail(i: nat, s: TableSpec.Stored): Option<string> {
    Some("should not iterate")
  }

  /** Truncating an empty table leaves it empty. */
  method TruncateEmptyTable() returns (count: nat)
    ensures count == 0
  {
    var t := new Table(TableInfo([]));
    t.Truncate();
    count := |t.docs|;
  }

  /** After a truncate an iteration calls no visitor, so even one that
      always fails reports no error. */
  method TruncateTable() returns (err: Option<string>, calls: nat)
    ensures err == None && calls == 0
  {
    var t := new Table(TableInfo([]));
    var _ := InsertUnindexed(t, NewDocument());
    var _ := InsertUnindexed(t, NewDocument());
    t.Truncate();
    var visited;
    err, visited := t.Iterate(AlwaysFail);
    TableSpec.IterateEmpty(AlwaysFail, visited, err);
    calls := |visited|;
  }
}
