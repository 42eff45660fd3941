/** The documented behaviour of a table's secondary indexes: inserts keep
    them up to date, a rebuild touches only the table's own indexes, and
    the table lists its indexes by path. */
module IndexScenarios {
  import opened Wrappers
  import opened Documents
  import opened Keys
  import opened Visiting
  import opened Constraints
  import opened Indexes
  import opened Tables
  import TableSpec
  import TableScenarios

  /** A visitor over index hits that never fails. */
  function CountHits(i: nat, h: Hit): Option<string> {
    None
  }

  /** Iterates over `ix` from `pivot` and counts the hits. */
  method CountFrom(ix: Index, pivot: Pivot) returns (count: nat)
    ensures count == |Hits(ix, pivot)|
  {
    var err, visited := AscendGreaterOrEqual(ix, pivot, CountHits);
    VisitsAll(Hits(ix, pivot), CountHits, visited, err);
    count := |visited|;
  }

  /** Creates an index under a new name on a path not yet indexed. */
  method CreateFreshIndex(t: Table, name: string, path: Path, unique: bool)
    requires t.Valid() && name !in t.indexes
    requires forall n :: n in t.indexes ==> t.indexes[n].path != path
    modifies t
    ensures t.Valid() && t.indexes == old(t.indexes)[name := Index(path, unique, [])]
    ensures t.docs == old(t.docs) && t.sequence == old(t.sequence)
  {
    var _ := t.CreateIndex(name, path, unique);
  }

  // ---- Inserts update the indexes -----------------------------------------

  /** Inserts into a table without constraints or unique indexes, keeping
      index `n` in agreement with the stored documents. */
  method InsertSynced(t: Table, d: Document, n: string) returns (k: Key)
    requires t.Valid() && t.info.constraints == []
    requires forall m :: m in t.indexes ==> !t.indexes[m].unique
    requires n in t.indexes && Synced(t.indexes[n], t.docs)
    modifies t
    ensures t.Valid()
    ensures k !in old(t.docs) && t.docs == old(t.docs)[k := d]
    ensures t.indexes.Keys == old(t.indexes).Keys
    ensures forall m :: m in t.indexes ==> !t.indexes[m].unique
    ensures t.indexes[n].path == old(t.indexes)[n].path && Synced(t.indexes[n], t.docs)
  {
    ghost var ixs, docs := t.indexes, t.docs;
    k := TableScenarios.InsertPlain(t, d);
    TableSpec.AddKeepsSynced(ixs, docs, d, k, n);
  }

  /** In an index over two documents, one lacking the indexed path and the
      other holding a non-Null value there, an iteration over every value
      meets the one lacking the path first. */
  lemma MissingFirst(ix: Index, docs: map<Key, Document>, k1: Key, k2: Key)
    requires IndexValid(ix) && Synced(ix, docs)
    requires docs.Keys == {k1, k2} && k1 != k2
    requires GetValue(docs[k1], ix.path).None? && IndexedValue(docs[k2], ix.path) != Null
    ensures |Hits(ix, Any)| == 2 && Hits(ix, Any)[0].key == k1 && Hits(ix, Any)[1].key == k2
  {
    assert |docs| == |docs.Keys| == 2;
    SyncedCount(ix, docs);
    AnyPivotAll(ix);
    var x, y := ix.entries[0], ix.entries[1];
    assert x in ix.entries && y in ix.entries;
    assert EntryBelow(x, y);
    if x.key == y.key {
      EntryBelowIrreflexive(x);
    } else if x.key == k2 {
      MissingSortsFirst(ix, docs, k1, k2);
      EntryBelowTransitive(x, y, x);
      EntryBelowIrreflexive(x);
    }
  }

  /** NewDocument with a Double at `foo`. */
  function FooDocument(): Document {
    [Field("fielda", Text("a")), Field("fieldb", Text("b")), Field("foo", Double(10))]
  }

  lemma FooPresence()
    ensures GetValue(TableScenarios.NewDocument(), [FieldSel("foo")]) == None
    ensures IndexedValue(FooDocument(), [FieldSel("foo")]) == Double(10)
  {
    assert FieldIndex(TableScenarios.NewDocument(), "foo") == None;
    assert FieldIndex(FooDocument(), "foo") == Some(2);
  }

  /** After inserting a document with `foo` and one without, an iteration
      over the index on `foo` from the first value meets both, the one
      without `foo` first, since a missing value is indexed as Null. */
  method IndexUpdatedOnInsert() returns (err: Option<string>, visited: seq<Hit>, key1: Key, key2: Key)
    ensures err == None && |visited| == 2
    ensures visited[0].key == key2 && visited[1].key == key1
  {
    var t;
    t, key1, key2 := FooIndexedTable();
    var ix := t.indexes["idxFoo"];
    FooPresence();
    MissingFirst(ix, t.docs, key2, key1);
    err, visited := AscendGreaterOrEqual(ix, Any, CountHits);
    VisitsAll(Hits(ix, Any), CountHits, visited, err);
  }

  /** A table with an index on `foo`, then a document with `foo` inserted
      under `key1` and one without it under `key2`. */
  method FooIndexedTable() returns (t: Table, key1: Key, key2: Key)
    ensures t.Valid() && "idxFoo" in t.indexes
    ensures t.indexes["idxFoo"].path == [FieldSel("foo")] && Synced(t.indexes["idxFoo"], t.docs)
    ensures t.docs.Keys == {key1, key2} && key1 != key2
    ensures t.docs[key1] == FooDocument() && t.docs[key2] == TableScenarios.NewDocument()
  {
    t, key1 := FooIndexedOnce();
    key2 := InsertSynced(t, TableScenarios.NewDocument(), "idxFoo");
  }

  /** A table with an index on `foo` and one document, with `foo`, under `k`. */
  method FooIndexedOnce() returns (t: Table, k: Key)
    ensures fresh(t) && t.Valid() && t.info.constraints == []
    ensures t.indexes.Keys == {"idxFoo"} && !t.indexes["idxFoo"].unique
    ensures t.indexes["idxFoo"].path == [FieldSel("foo")] && Synced(t.indexes["idxFoo"], t.docs)
    ensures t.docs == map[k := FooDocument()]
  {
    t := new Table(TableInfo([]));
    CreateFreshIndex(t, "idxFoo", [FieldSel("foo")], false);
    k := InsertSynced(t, FooDocument(), "idxFoo");
  }

  // ---- ReIndex ------------------------------------------------------------

  /** Rebuilding a table without indexes succeeds. */
  method ReIndexWithoutIndexes() returns (err: Option<Error>)
    ensures err == None
  {
    var t := new Table(TableInfo([]));
    err := t.ReIndex();
  }

  /** The i-th document of the rebuild case: {"a": i, "b": i * 10}. */
  function Numbered(i: nat): Document
    requires i < 10
  {
    [Field("a", Integer(i as int64)), Field("b", Integer((i * 10) as int64))]
  }

  function TenNumbered(): seq<Document> {
    seq(10, i requires 0 <= i < 10 => Numbered(i))
  }

  /** Every numbered document holds an Integer at `a` and at `b`. */
  lemma NumberedIntegers(d: Document)
    requires d in TenNumbered()
    ensures TypeOf(IndexedValue(d, [FieldSel("a")])) == IntegerType
    ensures TypeOf(IndexedValue(d, [FieldSel("b")])) == IntegerType
  {
    var i :| 0 <= i < 10 && TenNumbered()[i] == d;
    assert FieldIndex(d, "a") == Some(0);
    assert FieldIndex(d, "b") == Some(1);
  }

  /** Every document holds an Integer at `a` and at `b`. */
  predicate IntegersAtAB(docs: map<Key, Document>) {
    forall k :: k in docs ==>
      TypeOf(IndexedValue(docs[k], [FieldSel("a")])) == IntegerType && TypeOf(IndexedValue(docs[k], [FieldSel("b")])) == IntegerType
  }

  /** A table holding the ten numbered documents, without indexes. */
  method NumberedDocuments() returns (t: Table)
    ensures fresh(t) && t.Valid() && t.indexes == map[]
    ensures |t.docs| == 10 && IntegersAtAB(t.docs)
  {
    t := new Table(TableInfo([]));
    TableScenarios.InsertAll(t, TenNumbered());
    NumberedAtAB(t.docs);
  }

  /** The numbered table with empty, non-unique indexes `na` on `a` and `nb`
      on `b` created after the inserts. */
  method NumberedTable(na: string, nb: string) returns (t: Table)
    requires na != nb
    ensures fresh(t) && t.Valid() && |t.docs| == 10 && IntegersAtAB(t.docs)
    ensures t.indexes == map[na := Index([FieldSel("a")], false, []), nb := Index([FieldSel("b")], false, [])]
  {
    t := NumberedDocuments();
    CreateFreshIndex(t, na, [FieldSel("a")], false);
    CreateFreshIndex(t, nb, [FieldSel("b")], false);
  }

  lemma NumberedAtAB(docs: map<Key, Document>)
    requires forall k :: k in docs ==> docs[k] in TenNumbered()
    ensures IntegersAtAB(docs)
  {
    forall k | k in docs
      ensures TypeOf(IndexedValue(docs[k], [FieldSel("a")])) == IntegerType && TypeOf(IndexedValue(docs[k], [FieldSel("b")])) == IntegerType
    {
      NumberedIntegers(docs[k]);
    }
  }

  /** A rebuilt index on `a` or `b` over documents holding Integers there
      yields each of them from the first Integer on. */
  lemma RebuiltCount(before: Index, ix: Index, docs: map<Key, Document>)
    requires TableSpec.Rebuilt(before, ix, docs) && IntegersAtAB(docs)
    requires before.path == [FieldSel("a")] || before.path == [FieldSel("b")]
    ensures |Hits(ix, AnyOfType(IntegerType))| == |docs|
  {
    TypedHits(ix, docs, IntegerType);
  }

  /** Rebuilds the indexes of a table none of whose indexes is unique. */
  method ReIndexPlain(t: Table)
    requires t.Valid() && forall n :: n in t.indexes ==> !t.indexes[n].unique
    modifies t
    ensures t.Valid() && t.docs == old(t.docs) && t.indexes.Keys == old(t.indexes).Keys
    ensures forall n :: n in t.indexes ==> TableSpec.Rebuilt(old(t.indexes)[n], t.indexes[n], t.docs)
  {
    var err := t.ReIndex();
    assert err == None;
  }

  /** Rebuilds a numbered table's indexes: each then yields one hit per
      document from the first Integer on. */
  method ReIndexNumbered(t: Table, na: string, nb: string) returns (count_a: nat, count_b: nat)
    requires t.Valid() && |t.docs| == 10 && IntegersAtAB(t.docs) && na != nb
    requires t.indexes == map[na := Index([FieldSel("a")], false, []), nb := Index([FieldSel("b")], false, [])]
    modifies t
    ensures count_a == 10 && count_b == 10
  {
    ghost var before := t.indexes;
    assert before[na].path == [FieldSel("a")] && before[nb].path == [FieldSel("b")];
    ReIndexPlain(t);
    RebuiltCount(before[na], t.indexes[na], t.docs);
    RebuiltCount(before[nb], t.indexes[nb], t.docs);
    count_a := CountFrom(t.indexes[na], AnyOfType(IntegerType));
    count_b := CountFrom(t.indexes[nb], AnyOfType(IntegerType));
  }

  /** Rebuilding the indexes of one table fills them with one entry per
      document, and leaves the indexes of another table holding the same
      documents empty. */
  method ReIndexRightIndexes() returns (count1a: nat, count1b: nat, count2a: nat, count2b: nat)
    ensures count1a == 10 && count1b == 10 && count2a == 0 && count2b == 0
  {
    var t1 := NumberedTable("test1a", "test1b");
    var t2 := NumberedTable("test2a", "test2b");
    count1a, count1b := ReIndexNumbered(t1, "test1a", "test1b");
    count2a := CountFrom(t2.indexes["test2a"], AnyOfType(IntegerType));
    count2b := CountFrom(t2.indexes["test2b"], AnyOfType(IntegerType));
  }

  // ---- Indexes ------------------------------------------------------------

  /** A table without indexes lists none. */
  method NoIndexesListed() returns (count: nat)
    ensures count == 0
  {
    var t := new Table(TableInfo([]));
    count := |t.Indexes()|;
  }

  /** Two valid indexes registered as `idx1a` on `a` and `idx1b` on `b`
      are listed under those two paths. */
  lemma ListedPaths(ixs: map<string, Index>)
    requires TableSpec.IndexesValid(ixs) && ixs.Keys == {"idx1a", "idx1b"}
    requires ixs["idx1a"].path == [FieldSel("a")] && ixs["idx1b"].path == [FieldSel("b")]
    ensures var m := TableSpec.ByPath(ixs);
      |m| == 2 && [FieldSel("a")] in m && [FieldSel("b")] in m
  {
    TableSpec.ByPathCount(ixs);
    assert |ixs| == |ixs.Keys| == 2;
  }

  /** A table with a unique index on `a` and another on `b`. */
  method ListedTable() returns (t: Table)
    ensures fresh(t) && t.Valid() && t.indexes.Keys == {"idx1a", "idx1b"}
    ensures t.indexes["idx1a"].path == [FieldSel("a")] && t.indexes["idx1b"].path == [FieldSel("b")]
  {
    t := new Table(TableInfo([]));
    CreateFreshIndex(t, "idx1a", [FieldSel("a")], true);
    CreateFreshIndex(t, "idx1b", [FieldSel("b")], false);
  }

  /** A table lists its own indexes, keyed by path, and not those of another
      table. */
  method AllIndexesListed() returns (m: map<Path, Index>)
    ensures |m| == 2 && [FieldSel("a")] in m && [FieldSel("b")] in m
  {
    var t1 := ListedTable();
    var t2 := new Table(TableInfo([]));
    CreateFreshIndex(t2, "ifx2a", [FieldSel("a")], false);
    ListedPaths(t1.indexes);
    m := t1.Indexes();
  }
}
