/** The table as the database hands it out: an object whose methods change
    its stored documents, its key counter and its indexes in place. Each
    method follows the corresponding function of TableSpec and keeps the
    table's invariant. */
module Tables {
  import opened Wrappers
  import opened Documents
  import opened Keys
  import opened Visiting
  import opened Constraints
  import opened Indexes
  import TableSpec

  /** `r` and the new state are what `spec` says; on an error the state is
      the old one. */
  predicate Returned(spec: Result<(Key, TableSpec.TableState), Error>, r: Result<Key, Error>,
                     before: TableSpec.TableState, after: TableSpec.TableState) {
    match spec
    case Success((k, s)) => r == Success(k) && after == s
    case Failure(e) => r == Failure(e) && after == before
  }

  predicate Applied(spec: Result<TableSpec.TableState, Error>, err: Option<Error>,
                    before: TableSpec.TableState, after: TableSpec.TableState) {
    match spec
    case Success(s) => err == None && after == s
    case Failure(e) => err == Some(e) && after == before
  }

  /** The number of the last generated key among the stored keys, found by
      looking at every stored key. */
  method LastNumber(docs: map<Key, Document>) returns (n: nat)
    ensures TableSpec.IsLastNumber(docs, n)
  {
    n := 0;
    var rest := docs.Keys;
    while rest != {}
      invariant rest <= docs.Keys
      invariant forall k :: k in docs && k !in rest && DecodeUint(k).Some? ==> DecodeUint(k).value <= n
      invariant n == 0 || exists k :: k in docs && DecodeUint(k) == Some(n)
      decreases |rest|
    {
      var k :| k in rest;
      var v := DecodeUint(k);
      if v.Some? && v.value > n {
        n := v.value;
      }
      rest := rest - {k};
    }
  }

  /** `acc` holds, for each index already handled, the index with the entry
      of document `k` added. */
  ghost predicate AddedSoFar(ixs: map<string, Index>, d: Document, k: Key, acc: map<string, Index>, rest: set<string>) {
    && TableSpec.IndexesValid(ixs)
    && rest <= ixs.Keys && acc.Keys == ixs.Keys - rest
    && forall n :: n in acc ==>
         Set(ixs[n], EntryFor(d, k, ixs[n].path).value, k).Success? &&
         acc[n] == Set(ixs[n], EntryFor(d, k, ixs[n].path).value, k).value
  }

  lemma AddedStep(ixs: map<string, Index>, d: Document, k: Key, acc: map<string, Index>, rest: set<string>, n: string)
    requires AddedSoFar(ixs, d, k, acc, rest) && n in rest
    requires Set(ixs[n], EntryFor(d, k, ixs[n].path).value, k).Success?
    ensures AddedSoFar(ixs, d, k, acc[n := Set(ixs[n], EntryFor(d, k, ixs[n].path).value, k).value], rest - {n})
  {
  }

  lemma SameMaps(a: map<string, Index>, b: map<string, Index>)
    requires a.Keys == b.Keys && forall n :: n in a ==> a[n] == b[n]
    ensures a == b
  {
  }

  lemma AddedDone(ixs: map<string, Index>, d: Document, k: Key, acc: map<string, Index>)
    requires AddedSoFar(ixs, d, k, acc, {})
    ensures TableSpec.AddToIndexes(ixs, d, k) == Success(acc)
  {
    var r := TableSpec.AddToIndexes(ixs, d, k);
    assert r.Success?;
    assert acc.Keys == r.value.Keys;
    assert forall n :: n in acc ==> acc[n] == r.value[n];
    SameMaps(acc, r.value);
  }

  /** Adds the entry of document `k` to each index in turn, stopping at the
      first refusal. */
  method AddEntries(ixs: map<string, Index>, d: Document, k: Key) returns (r: Result<map<string, Index>, Error>)
    requires TableSpec.IndexesValid(ixs)
    ensures r == TableSpec.AddToIndexes(ixs, d, k)
  {
    var acc: map<string, Index> := map[];
    var rest := ixs.Keys;
    while rest != {}
      invariant AddedSoFar(ixs, d, k, acc, rest)
      decreases |rest|
    {
      var n :| n in rest;
      var s := Set(ixs[n], EntryFor(d, k, ixs[n].path).value, k);
      if s.Failure? {
        return Failure(s.error);
      }
      AddedStep(ixs, d, k, acc, rest, n);
      acc := acc[n := s.value];
      rest := rest - {n};
    }
    AddedDone(ixs, d, k, acc);
    return Success(acc);
  }

  /** `acc` holds, for each index already handled, the index with the entry
      of document `k` removed. */
  ghost predicate RemovedSoFar(ixs: map<string, Index>, d: Document, k: Key, acc: map<string, Index>, rest: set<string>) {
    && TableSpec.IndexesValid(ixs)
    && rest <= ixs.Keys && acc.Keys == ixs.Keys - rest
    && forall n :: n in acc ==>
         Indexes.Delete(ixs[n], EntryFor(d, k, ixs[n].path).value, k).Success? &&
         acc[n] == Indexes.Delete(ixs[n], EntryFor(d, k, ixs[n].path).value, k).value
  }

  lemma RemovedStep(ixs: map<string, Index>, d: Document, k: Key, acc: map<string, Index>, rest: set<string>, n: string)
    requires RemovedSoFar(ixs, d, k, acc, rest) && n in rest
    requires Indexes.Delete(ixs[n], EntryFor(d, k, ixs[n].path).value, k).Success?
    ensures RemovedSoFar(ixs, d, k, acc[n := Indexes.Delete(ixs[n], EntryFor(d, k, ixs[n].path).value, k).value], rest - {n})
  {
  }

  lemma RemovedWerePresent(ixs: map<string, Index>, d: Document, k: Key, acc: map<string, Index>)
    requires RemovedSoFar(ixs, d, k, acc, {})
    ensures forall n :: n in ixs ==> EntryFor(d, k, ixs[n].path) in ixs[n].entries
  {
    forall n | n in ixs
      ensures EntryFor(d, k, ixs[n].path) in ixs[n].entries
    {
      assert n in acc;
    }
  }

  lemma RemovedDone(ixs: map<string, Index>, d: Document, k: Key, acc: map<string, Index>)
    requires RemovedSoFar(ixs, d, k, acc, {})
    ensures TableSpec.RemoveFromIndexes(ixs, d, k) == Success(acc)
  {
    RemovedWerePresent(ixs, d, k, acc);
    TableSpec.RemovePresent(ixs, d, k);
    var m := map n | n in ixs :: Indexes.Delete(ixs[n], EntryFor(d, k, ixs[n].path).value, k).value;
    assert acc.Keys == m.Keys;
    assert forall n :: n in acc ==> acc[n] == m[n];
    SameMaps(acc, m);
  }

  lemma RemovedFails(ixs: map<string, Index>, d: Document, k: Key, n: string)
    requires TableSpec.IndexesValid(ixs) && n in ixs
    requires Indexes.Delete(ixs[n], EntryFor(d, k, ixs[n].path).value, k).Failure?
    ensures TableSpec.RemoveFromIndexes(ixs, d, k) == Failure(IndexEntryNotFound)
  {
    assert EntryFor(d, k, ixs[n].path) !in ixs[n].entries;
  }

  /** Removes the entry of document `k` from each index in turn, stopping at
      the first index that does not hold it. */
  method RemoveEntries(ixs: map<string, Index>, d: Document, k: Key) returns (r: Result<map<string, Index>, Error>)
    requires TableSpec.IndexesValid(ixs)
    ensures r == TableSpec.RemoveFromIndexes(ixs, d, k)
  {
    var acc: map<string, Index> := map[];
    var rest := ixs.Keys;
    while rest != {}
      invariant RemovedSoFar(ixs, d, k, acc, rest)
      decreases |rest|
    {
      var n :| n in rest;
      var s := Indexes.Delete(ixs[n], EntryFor(d, k, ixs[n].path).value, k);
      if s.Failure? {
        RemovedFails(ixs, d, k, n);
        return Failure(s.error);
      }
      RemovedStep(ixs, d, k, acc, rest, n);
      acc := acc[n := s.value];
      rest := rest - {n};
    }
    RemovedDone(ixs, d, k, acc);
    return Success(acc);
  }

  /** `acc` holds, for each index already handled, its rebuilt version. */
  ghost predicate RebuiltSoFar(ixs: map<string, Index>, docs: map<Key, Document>, acc: map<string, Index>, rest: set<string>) {
    && TableSpec.IndexesValid(ixs)
    && rest <= ixs.Keys && acc.Keys == ixs.Keys - rest
    && (forall n {:trigger TableSpec.Rebuilt(ixs[n], acc[n], docs)} :: n in acc ==> TableSpec.Rebuilt(ixs[n], acc[n], docs))
    && (forall n :: n in acc ==> IndexValid(acc[n]) && acc[n].path == ixs[n].path)
    && (forall n :: n in acc ==> !UniqueViolated(ixs[n].path, ixs[n].unique, docs))
  }

  lemma RebuiltStep(ixs: map<string, Index>, docs: map<Key, Document>, acc: map<string, Index>, rest: set<string>, n: string, ix: Index)
    requires RebuiltSoFar(ixs, docs, acc, rest) && n in rest
    requires TableSpec.Rebuilt(ixs[n], ix, docs) && !UniqueViolated(ixs[n].path, ixs[n].unique, docs)
    ensures RebuiltSoFar(ixs, docs, acc[n := ix], rest - {n})
  {
  }

  lemma RebuiltDone(ixs: map<string, Index>, docs: map<Key, Document>, acc: map<string, Index>)
    requires RebuiltSoFar(ixs, docs, acc, {})
    ensures TableSpec.IndexesValid(acc)
  {
  }

  /** Rebuilds each index in turn from `docs`, stopping at the first that
      cannot be rebuilt. */
  method RebuildAll(ixs: map<string, Index>, docs: map<Key, Document>) returns (r: Result<map<string, Index>, Error>)
    requires TableSpec.IndexesValid(ixs)
    ensures r.Success? <==> forall n :: n in ixs ==> !UniqueViolated(ixs[n].path, ixs[n].unique, docs)
    ensures r.Failure? ==> r.error == DuplicateValue
    ensures r.Success? ==> r.value.Keys == ixs.Keys
    ensures r.Success? ==> forall n {:trigger TableSpec.Rebuilt(ixs[n], r.value[n], docs)} :: n in ixs ==> TableSpec.Rebuilt(ixs[n], r.value[n], docs)
    ensures r.Success? ==> TableSpec.IndexesValid(r.value)
  {
    var acc: map<string, Index> := map[];
    var rest := ixs.Keys;
    while rest != {}
      invariant RebuiltSoFar(ixs, docs, acc, rest)
      decreases |rest|
    {
      var n :| n in rest;
      var s := Rebuild(ixs[n], docs);
      if s.Failure? {
        return Failure(s.error);
      }
      RebuiltStep(ixs, docs, acc, rest, n, s.value);
      acc := acc[n := s.value];
      rest := rest - {n};
    }
    RebuiltDone(ixs, docs, acc);
    return Success(acc);
  }

  /** Taking the least remaining key moves its document from the part still
      to visit to the part visited. */
  lemma NextInOrder(all: seq<TableSpec.Stored>, visited: seq<TableSpec.Stored>, rest: map<Key, Document>, k: Key)
    requires all == visited + TableSpec.KeyOrder(rest)
    requires k in rest && forall j :: j in rest && j != k ==> Below(k, j)
    ensures all == visited + [TableSpec.Stored(k, rest[k])] + TableSpec.KeyOrder(rest - {k})
  {
    TableSpec.KeyOrderFirst(rest, k);
  }

  lemma Fewer(rest: map<Key, Document>, k: Key)
    requires k in rest
    ensures |rest - {k}| < |rest|
  {
    assert (rest - {k}).Keys == rest.Keys - {k};
  }

  class Table {
    /** The constraints the table was created with. */
    const info: TableInfo
    /** The primary store. */
    var docs: map<Key, Document>
    /** The number of the last generated key. */
    var sequence: nat
    /** The table's indexes, by name. */
    var indexes: map<string, Index>

    function State(): TableSpec.TableState
      reads this
    {
      TableSpec.TableState(docs, sequence, indexes)
    }

    ghost predicate Valid()
      reads this
    {
      TableSpec.StateValid(info, State())
    }

    /** A newly created, empty table. */
    constructor (info: TableInfo)
      ensures this.info == info && State() == TableSpec.Empty()
      ensures Valid()
    {
      this.info := info;
      docs := map[];
      sequence := 0;
      indexes := map[];
    }

    /** The table as a new session finds it: the documents and indexes the
      last session left, and the counter recomputed from the stored keys. */
    constructor Open(info: TableInfo, stored: TableSpec.TableState)
      requires TableSpec.StateValid(info, stored)
      ensures this.info == info && docs == stored.docs && indexes == stored.indexes
      ensures TableSpec.IsLastNumber(docs, sequence)
      ensures Valid()
    {
      var n := LastNumber(stored.docs);
      TableSpec.ReopenValid(info, stored, n);
      this.info := info;
      docs := stored.docs;
      sequence := n;
      indexes := stored.indexes;
    }

    method Insert(d: Document) returns (r: Result<Key, Error>)
      requires Valid()
      modifies this
      ensures Valid()
      ensures Returned(TableSpec.Insert(info, old(State()), d), r, old(State()), State())
    {
      var v := Validate(d, info.constraints);
      if v.Failure? {
        return Failure(v.error);
      }
      var vd := v.value;
      var next := TableSpec.NextKey(info, State(), vd);
      if next.Failure? {
        return Failure(next.error);
      }
      var (k, n) := next.value;
      if k in docs {
        return Failure(DuplicateDocument);
      }
      var added := AddEntries(indexes, vd, k);
      if added.Failure? {
        return Failure(added.error);
      }
      TableSpec.InsertValid(info, State(), d);
      docs := docs[k := vd];
      sequence := n;
      indexes := added.value;
      return Success(k);
    }

    function GetDocument(k: Key): (r: Result<Document, Error>)
      reads this
      ensures r == TableSpec.Get(State(), k)
    {
      if k in docs then Success(docs[k]) else Failure(DocumentNotFound)
    }

    method Delete(k: Key) returns (err: Option<Error>)
      requires Valid()
      modifies this
      ensures Valid()
      ensures Applied(TableSpec.Delete(info, old(State()), k), err, old(State()), State())
    {
      if k !in docs {
        return Some(DocumentNotFound);
      }
      var removed := RemoveEntries(indexes, docs[k], k);
      if removed.Failure? {
        return Some(removed.error);
      }
      TableSpec.DeleteValid(info, State(), k);
      docs := docs - {k};
      indexes := removed.value;
      return None;
    }

    method Replace(k: Key, d: Document) returns (err: Option<Error>)
      requires Valid()
      modifies this
      ensures Valid()
      ensures Applied(TableSpec.Replace(info, old(State()), k, d), err, old(State()), State())
    {
      ghost var s0 := State();
      if k !in docs {
        assert TableSpec.Replace(info, s0, k, d) == Failure(DocumentNotFound);
        return Some(DocumentNotFound);
      }
      var v := Validate(d, info.constraints);
      if v.Failure? {
        assert TableSpec.Replace(info, s0, k, d) == Failure(v.error);
        return Some(v.error);
      }
      var removed := RemoveEntries(indexes, docs[k], k);
      if removed.Failure? {
        assert TableSpec.Replace(info, s0, k, d) == Failure(removed.error);
        return Some(removed.error);
      }
      var added := AddEntries(removed.value, v.value, k);
      if added.Failure? {
        assert TableSpec.Replace(info, s0, k, d) == Failure(added.error);
        return Some(added.error);
      }
      ghost var s1 := TableSpec.TableState(docs[k := v.value], sequence, added.value);
      assert TableSpec.Replace(info, s0, k, d) == Success(s1);
      TableSpec.ReplaceValid(info, s0, k, d);
      docs := docs[k := v.value];
      indexes := added.value;
      assert State() == s1;
      return None;
    }

    method Truncate()
      requires Valid()
      modifies this
      ensures Valid()
      ensures State() == TableSpec.Truncate(old(State()))
    {
      TableSpec.TruncateValid(info, State());
      docs := map[];
      indexes := TableSpec.EmptiedIndexes(indexes);
    }

    method CreateIndex(name: string, path: Path, unique: bool) returns (err: Option<Error>)
      requires Valid()
      modifies this
      ensures Valid()
      ensures Applied(TableSpec.CreateIndex(old(State()), name, path, unique), err, old(State()), State())
    {
      if name in indexes || exists n :: n in indexes && indexes[n].path == path {
        return Some(IndexAlreadyExists);
      }
      TableSpec.CreateIndexValid(info, State(), name, path, unique);
      indexes := indexes[name := Index(path, unique, [])];
      return None;
    }

    /** Rebuilds every index of this table from its documents. On an error
      the indexes are left as they were. */
    method ReIndex() returns (err: Option<Error>)
      requires Valid()
      modifies this
      ensures Valid()
      ensures docs == old(docs) && sequence == old(sequence)
      ensures err.None? <==>
        forall n :: n in old(indexes) ==> !UniqueViolated(old(indexes)[n].path, old(indexes)[n].unique, docs)
      ensures err.Some? ==> err.value == DuplicateValue && indexes == old(indexes)
      ensures err.None? ==> indexes.Keys == old(indexes).Keys
      ensures err.None? ==> forall n {:trigger TableSpec.Rebuilt(old(indexes)[n], indexes[n], docs)} :: n in indexes ==> TableSpec.Rebuilt(old(indexes)[n], indexes[n], docs)
    {
      var r := RebuildAll(indexes, docs);
      if r.Failure? {
        return Some(r.error);
      }
      TableSpec.ReIndexValid(info, State(), r.value);
      indexes := r.value;
      return None;
    }

    /** Hands the stored documents to `visit` in key order until it returns
      an error. */
    method Iterate(visit: (nat, TableSpec.Stored) -> Option<string>)
      returns (err: Option<string>, visited: seq<TableSpec.Stored>)
      ensures VisitedUntilError(TableSpec.KeyOrder(docs), visit, visited, err)
    {
      var rest := docs;
      ghost var all := TableSpec.KeyOrder(docs);
      visited := [];
      while rest != map[]
        invariant all == visited + TableSpec.KeyOrder(rest)
        invariant forall j :: 0 <= j < |visited| ==> visit(j, visited[j]).None?
        decreases |rest|
      {
        TableSpec.LeastExists(rest.Keys);
        var k :| k in rest && forall j :: j in rest && j != k ==> Below(k, j);
        NextInOrder(all, visited, rest, k);
        Fewer(rest, k);
        var item := TableSpec.Stored(k, rest[k]);
        var e := visit(|visited|, item);
        if e.Some? {
          Stopped(all, visit, visited, item, TableSpec.KeyOrder(rest - {k}), e);
          return e, visited + [item];
        }
        Passed(visit, visited, item);
        visited := visited + [item];
        rest := rest - {k};
      }
      return None, visited;
    }

    /** This table's indexes, keyed by the path each one indexes. */
    function Indexes(): (r: map<Path, Index>)
      reads this
      requires Valid()
      ensures r == TableSpec.ByPath(indexes)
    {
      TableSpec.ByPath(indexes)
    }
  }
}
