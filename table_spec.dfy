/** The table as a value: its stored documents, the counter behind generated
    keys and its registered indexes, and each table operation as a function
    from the state before to the result and the state after. On any error the
    state is left as it was, standing for the enclosing transaction being
    rolled back. */
module TableSpec {
  import opened Wrappers
  import opened Documents
  import opened Keys
  import opened Visiting
  import opened Constraints
  import opened Indexes

  /** docs: the primary store; sequence: the number of the last generated
      key; indexes: the table's indexes by name. */
  datatype TableState = TableState(docs: map<Key, Document>, sequence: nat, indexes: map<string, Index>)

  function Empty(): TableState {
    TableState(map[], 0, map[])
  }

  /** A key the counter produced, numbered 1 to `sequence`. */
  predicate Generated(k: Key, sequence: nat) {
    DecodeUint(k).Some? && 1 <= DecodeUint(k).value <= sequence
  }

  predicate IndexesValid(ixs: map<string, Index>) {
    && (forall n :: n in ixs ==> IndexValid(ixs[n]))
    && (forall n, m :: n in ixs && m in ixs && n != m ==> ixs[n].path != ixs[m].path)
  }

  /** What every state of a table keeps: valid indexes on distinct paths,
      generated keys numbered within the counter when there is no primary
      key, and every stored document satisfying the not-null constraints. */
  predicate StateValid(info: TableInfo, s: TableState) {
    && IndexesValid(s.indexes)
    && (PrimaryKeyConstraint(info.constraints).None? ==> forall k :: k in s.docs ==> Generated(k, s.sequence))
    && (forall k, c :: k in s.docs && c in info.constraints && c.isNotNull ==> !MissingOrNull(s.docs[k], c.path))
  }

  // ---- Key generation -----------------------------------------------------

  /** The key of a validated document and the counter after it: the primary
      key when the table has one, else the number after the counter. */
  function NextKey(info: TableInfo, s: TableState, d: Document): (r: Result<(Key, nat), Error>)
    ensures r.Success? ==> |r.value.0| > 0
    ensures PrimaryKeyConstraint(info.constraints).None? ==>
      r == Success((EncodeUint(s.sequence + 1), s.sequence + 1))
    ensures PrimaryKeyConstraint(info.constraints).Some? ==>
      (r.Success? <==> PrimaryKeyOf(d, PrimaryKeyConstraint(info.constraints).value).Success?)
    ensures PrimaryKeyConstraint(info.constraints).Some? && r.Success? ==>
      r.value == (PrimaryKeyOf(d, PrimaryKeyConstraint(info.constraints).value).value, s.sequence)
    ensures r.Failure? ==> r.error == PrimaryKeyNotFound
  {
    match PrimaryKeyConstraint(info.constraints)
    case None => Success((EncodeUint(s.sequence + 1), s.sequence + 1))
    case Some(c) =>
      match PrimaryKeyOf(d, c)
      case Failure(e) => Failure(e)
      case Success(k) => Success((k, s.sequence))
  }

  /** The counter a table reopened on `docs` starts from: the largest number
      among the stored generated keys, 0 when there is none. */
  predicate IsLastNumber(docs: map<Key, Document>, n: nat) {
    && (forall k :: k in docs && DecodeUint(k).Some? ==> DecodeUint(k).value <= n)
    && (n == 0 || exists k :: k in docs && DecodeUint(k) == Some(n))
  }

  /** The state a reopened table starts from. */
  function Reopened(s: TableState, n: nat): TableState {
    TableState(s.docs, n, s.indexes)
  }

  // ---- Index maintenance --------------------------------------------------

  /** Adds the entry of document `k` to every index; fails when one of them
      refuses it. */
  function AddToIndexes(ixs: map<string, Index>, d: Document, k: Key): (r: Result<map<string, Index>, Error>)
    requires IndexesValid(ixs)
    ensures r.Failure? <==> exists n :: n in ixs && Set(ixs[n], EntryFor(d, k, ixs[n].path).value, k).Failure?
    ensures r.Failure? ==> r.error == DuplicateValue
    ensures r.Success? ==> r.value.Keys == ixs.Keys
    ensures r.Success? ==> forall n :: n in ixs ==> r.value[n] == Set(ixs[n], EntryFor(d, k, ixs[n].path).value, k).value
    ensures r.Success? ==> IndexesValid(r.value)
  {
    if exists n :: n in ixs && Set(ixs[n], EntryFor(d, k, ixs[n].path).value, k).Failure? then Failure(DuplicateValue)
    else Success(map n | n in ixs :: Set(ixs[n], EntryFor(d, k, ixs[n].path).value, k).value)
  }

  /** Removes the entry of document `k` from every index; fails when one of
      them does not hold it. */
  function RemoveFromIndexes(ixs: map<string, Index>, d: Document, k: Key): (r: Result<map<string, Index>, Error>)
    requires IndexesValid(ixs)
    ensures r.Failure? <==> exists n :: n in ixs && EntryFor(d, k, ixs[n].path) !in ixs[n].entries
    ensures r.Failure? ==> r.error == IndexEntryNotFound
    ensures r.Success? ==> r.value.Keys == ixs.Keys
    ensures r.Success? ==> forall n :: n in ixs ==> r.value[n] == Indexes.Delete(ixs[n], EntryFor(d, k, ixs[n].path).value, k).value
    ensures r.Success? ==> IndexesValid(r.value)
  {
    if exists n :: n in ixs && EntryFor(d, k, ixs[n].path) !in ixs[n].entries then Failure(IndexEntryNotFound)
    else Success(map n | n in ixs :: Indexes.Delete(ixs[n], EntryFor(d, k, ixs[n].path).value, k).value)
  }

  // ---- Operations ---------------------------------------------------------

  /** Validates and converts the document, generates its key, refuses a key
      already stored, stores the document and adds its entry to every index. */
  function Insert(info: TableInfo, s: TableState, d: Document): Result<(Key, TableState), Error>
    requires StateValid(info, s)
  {
    match Validate(d, info.constraints)
    case Failure(e) => Failure(e)
    case Success(vd) =>
      match NextKey(info, s, vd)
      case Failure(e) => Failure(e)
      case Success((k, sequence)) =>
        if k in s.docs then Failure(DuplicateDocument)
        else
          match AddToIndexes(s.indexes, vd, k)
          case Failure(e) => Failure(e)
          case Success(ixs) => Success((k, TableState(s.docs[k := vd], sequence, ixs)))
  }

  /** Point lookup. */
  function Get(s: TableState, k: Key): (r: Result<Document, Error>)
    ensures r.Success? <==> k in s.docs
    ensures r.Success? ==> r.value == s.docs[k]
    ensures r.Failure? ==> r.error == DocumentNotFound
  {
    if k in s.docs then Success(s.docs[k]) else Failure(DocumentNotFound)
  }

  /** Removes the document and its index entries. */
  function Delete(info: TableInfo, s: TableState, k: Key): Result<TableState, Error>
    requires StateValid(info, s)
  {
    if k !in s.docs then Failure(DocumentNotFound)
    else
      match RemoveFromIndexes(s.indexes, s.docs[k], k)
      case Failure(e) => Failure(e)
      case Success(ixs) => Success(TableState(s.docs - {k}, s.sequence, ixs))
  }

  /** Stores a validated new document under an existing key, moving its
      index entries from the old document's values to the new one's. */
  function Replace(info: TableInfo, s: TableState, k: Key, d: Document): Result<TableState, Error>
    requires StateValid(info, s)
  {
    if k !in s.docs then Failure(DocumentNotFound)
    else
      match Validate(d, info.constraints)
      case Failure(e) => Failure(e)
      case Success(vd) =>
        match RemoveFromIndexes(s.indexes, s.docs[k], k)
        case Failure(e) => Failure(e)
        case Success(ixs) =>
          match AddToIndexes(ixs, vd, k)
          case Failure(e) => Failure(e)
          case Success(ixs') => Success(TableState(s.docs[k := vd], s.sequence, ixs'))
  }

  /** Every index, emptied. */
  function EmptiedIndexes(ixs: map<string, Index>): (r: map<string, Index>)
    ensures r.Keys == ixs.Keys
    ensures forall n :: n in r ==> r[n].entries == [] && r[n].path == ixs[n].path && r[n].unique == ixs[n].unique
  {
    map n | n in ixs :: ixs[n].(entries := [])
  }

  /** Removes every document and empties every index. */
  function Truncate(s: TableState): TableState {
    TableState(map[], s.sequence, EmptiedIndexes(s.indexes))
  }

  /** Registers a new, empty index; refused when the name or the path is
      already indexed on this table. */
  function CreateIndex(s: TableState, name: string, path: Path, unique: bool): (r: Result<TableState, Error>)
    ensures r.Failure? <==> name in s.indexes || exists n :: n in s.indexes && s.indexes[n].path == path
    ensures r.Failure? ==> r.error == IndexAlreadyExists
    ensures r.Success? ==> r.value.docs == s.docs && r.value.sequence == s.sequence
    ensures r.Success? ==> r.value.indexes == s.indexes[name := Index(path, unique, [])]
  {
    if name in s.indexes || exists n :: n in s.indexes && s.indexes[n].path == path then Failure(IndexAlreadyExists)
    else Success(s.(indexes := s.indexes[name := Index(path, unique, [])]))
  }

  /** An index as a rebuild leaves it: same path and mode, in agreement with
      the documents. */
  predicate Rebuilt(before: Index, after: Index, docs: map<Key, Document>) {
    after.path == before.path && after.unique == before.unique && IndexValid(after) && Synced(after, docs)
  }

  /** The table's indexes keyed by the path they index. */
  function ByPath(ixs: map<string, Index>): (r: map<Path, Index>)
    requires IndexesValid(ixs)
    ensures forall n :: n in ixs ==> ixs[n].path in r && r[ixs[n].path] == ixs[n]
    ensures forall p :: p in r ==> exists n :: n in ixs && ixs[n].path == p
  {
    map n | n in ixs :: ixs[n].path := ixs[n]
  }

  // ---- Properties: the primary store --------------------------------------

  /** A successful insert stores the validated document under a key that
      was not stored before, and changes no other document. */
  lemma InsertStores(info: TableInfo, s: TableState, d: Document)
    requires StateValid(info, s)
    requires Insert(info, s, d).Success?
    ensures Validate(d, info.constraints).Success?
    ensures var (k, s') := Insert(info, s, d).value;
      && k !in s.docs && |k| > 0
      && s'.docs == s.docs[k := Validate(d, info.constraints).value]
      && Get(s', k) == Success(Validate(d, info.constraints).value)
      && forall k' :: k' != k ==> Get(s', k') == Get(s, k')
  {
  }

  /** Without a primary key, the key is the counter's next number and the
      counter advances by one; the key generated is never already stored,
      so an insert that passes validation fails only on an index. */
  lemma {:induction false} InsertGenerated(info: TableInfo, s: TableState, d: Document)
    requires StateValid(info, s)
    requires PrimaryKeyConstraint(info.constraints).None?
    requires Validate(d, info.constraints).Success?
    ensures EncodeUint(s.sequence + 1) !in s.docs
    ensures Insert(info, s, d).Failure? ==> Insert(info, s, d).error == DuplicateValue
    ensures Insert(info, s, d).Success? ==>
      Insert(info, s, d).value.0 == EncodeUint(s.sequence + 1) && Insert(info, s, d).value.1.sequence == s.sequence + 1
  {
    var k := EncodeUint(s.sequence + 1);
    UintRoundTrip(s.sequence + 1, k);
  }

  /** Two inserts in a row into a table without a primary key return two
      different, non-empty keys, numbered one after the other. */
  lemma {:induction false} ConsecutiveKeys(info: TableInfo, s: TableState, d1: Document, d2: Document)
    requires StateValid(info, s)
    requires PrimaryKeyConstraint(info.constraints).None?
    requires Insert(info, s, d1).Success?
    requires StateValid(info, Insert(info, s, d1).value.1)
    requires Insert(info, Insert(info, s, d1).value.1, d2).Success?
    ensures var (k1, s1) := Insert(info, s, d1).value;
      var k2 := Insert(info, s1, d2).value.0;
      && k1 != k2 && |k1| > 0 && |k2| > 0
      && DecodeUint(k2).value == DecodeUint(k1).value + 1
  {
    var (k1, s1) := Insert(info, s, d1).value;
    InsertGenerated(info, s, d1);
    InsertGenerated(info, s1, d2);
    UintRoundTrip(s.sequence + 1, k1);
    UintRoundTrip(s.sequence + 2, EncodeUint(s.sequence + 2));
  }

  /** Without a primary key or a unique index, an insert that passes
      validation always succeeds, under the next generated key, and adds one
      document to the store. */
  lemma InsertGeneratedSucceeds(info: TableInfo, s: TableState, d: Document)
    requires StateValid(info, s)
    requires PrimaryKeyConstraint(info.constraints).None?
    requires Validate(d, info.constraints).Success?
    requires forall n :: n in s.indexes ==> !s.indexes[n].unique
    ensures var k := EncodeUint(s.sequence + 1);
      var vd := Validate(d, info.constraints).value;
      && AddToIndexes(s.indexes, vd, k).Success?
      && Insert(info, s, d) == Success((k, TableState(s.docs[k := vd], s.sequence + 1, AddToIndexes(s.indexes, vd, k).value)))
      && |Insert(info, s, d).value.1.docs| == |s.docs| + 1
  {
    InsertGenerated(info, s, d);
    var k := EncodeUint(s.sequence + 1);
    var vd := Validate(d, info.constraints).value;
    assert NextKey(info, s, vd) == Success((k, s.sequence + 1));
    assert forall n :: n in s.indexes ==> Set(s.indexes[n], EntryFor(vd, k, s.indexes[n].path).value, k).Success?;
  }

  /** After a reopen the counter resumes from the last generated key: the
      next key is numbered one more than the key of the last insert before
      the table was closed. */
  lemma {:induction false} ReopenContinues(info: TableInfo, s: TableState, d: Document, n: nat, d': Document)
    requires StateValid(info, s)
    requires PrimaryKeyConstraint(info.constraints).None?
    requires Insert(info, s, d).Success?
    requires IsLastNumber(Insert(info, s, d).value.1.docs, n)
    ensures var (k1, s1) := Insert(info, s, d).value;
      && DecodeUint(k1).Some?
      && NextKey(info, Reopened(s1, n), d').Success?
      && DecodeUint(NextKey(info, Reopened(s1, n), d').value.0) == Some(DecodeUint(k1).value + 1)
  {
    var (k1, s1) := Insert(info, s, d).value;
    InsertGenerated(info, s, d);
    UintRoundTrip(s.sequence + 1, k1);
    assert k1 in s1.docs;
    forall k | k in s1.docs && DecodeUint(k).Some? ensures DecodeUint(k).value <= s.sequence + 1 {
      if k != k1 {
        assert Generated(k, s.sequence);
      }
    }
    assert n == s.sequence + 1;
    UintRoundTrip(n + 1, EncodeUint(n + 1));
  }

  /** The counter of a reopened table covers every stored generated key, so
      the reopened state is valid. */
  lemma {:induction false} ReopenValid(info: TableInfo, s: TableState, n: nat)
    requires StateValid(info, s)
    requires IsLastNumber(s.docs, n)
    ensures StateValid(info, Reopened(s, n))
  {
  }

  /** With a primary key, the key is the encoding of the validated
      document's value at the primary-key path, and inserting the same
      document again is refused as a duplicate. */
  lemma {:induction false} InsertPrimaryKey(info: TableInfo, s: TableState, d: Document)
    requires StateValid(info, s)
    requires PrimaryKeyConstraint(info.constraints).Some?
    requires Insert(info, s, d).Success?
    requires StateValid(info, Insert(info, s, d).value.1)
    ensures var c := PrimaryKeyConstraint(info.constraints).value;
      var vd := Validate(d, info.constraints).value;
      && GetValue(vd, c.path).Some?
      && Insert(info, s, d).value.0 == EncodeKey(GetValue(vd, c.path).value)
    ensures Insert(info, Insert(info, s, d).value.1, d) == Failure(DuplicateDocument)
  {
  }

  /** With a primary key, an insert whose key value is absent, Null, an
      empty text or an empty blob is refused with PrimaryKeyNotFound. */
  lemma {:induction false} InsertRejectsEmptyKey(info: TableInfo, s: TableState, d: Document)
    requires StateValid(info, s)
    requires PrimaryKeyConstraint(info.constraints).Some?
    requires Validate(d, info.constraints).Success?
    requires var vd := Validate(d, info.constraints).value;
      var p := PrimaryKeyConstraint(info.constraints).value.path;
      GetValue(vd, p).None? || GetValue(vd, p).value in {Null, Text(""), Blob([])}
    ensures Insert(info, s, d) == Failure(PrimaryKeyNotFound)
  {
    PrimaryKeyRejects(Validate(d, info.constraints).value, PrimaryKeyConstraint(info.constraints).value);
  }

  /** An insert refused by validation reports the validation error. */
  lemma InsertValidates(info: TableInfo, s: TableState, d: Document)
    requires StateValid(info, s)
    requires Validate(d, info.constraints).Failure?
    ensures Insert(info, s, d) == Failure(Validate(d, info.constraints).error)
  {
  }

  /** Deleting removes exactly that document; a second delete of the same
      key is refused with DocumentNotFound. */
  lemma {:induction false} DeleteRemoves(info: TableInfo, s: TableState, k: Key)
    requires StateValid(info, s)
    requires Delete(info, s, k).Success?
    requires StateValid(info, Delete(info, s, k).value)
    ensures k in s.docs
    ensures Get(Delete(info, s, k).value, k) == Failure(DocumentNotFound)
    ensures forall k' :: k' != k ==> Get(Delete(info, s, k).value, k') == Get(s, k')
    ensures Delete(info, Delete(info, s, k).value, k) == Failure(DocumentNotFound)
  {
  }

  /** Deleting or replacing an absent key is refused with DocumentNotFound. */
  lemma AbsentKey(info: TableInfo, s: TableState, k: Key, d: Document)
    requires StateValid(info, s)
    requires k !in s.docs
    ensures Get(s, k) == Failure(DocumentNotFound)
    ensures Delete(info, s, k) == Failure(DocumentNotFound)
    ensures Replace(info, s, k, d) == Failure(DocumentNotFound)
  {
  }

  /** Replacing stores the validated new document under the same key and
      changes no other document. */
  lemma {:induction false} ReplaceStores(info: TableInfo, s: TableState, k: Key, d: Document)
    requires StateValid(info, s)
    requires Replace(info, s, k, d).Success?
    ensures k in s.docs && Validate(d, info.constraints).Success?
    ensures Get(Replace(info, s, k, d).value, k) == Success(Validate(d, info.constraints).value)
    ensures forall k' :: k' != k ==> Get(Replace(info, s, k, d).value, k') == Get(s, k')
    ensures Replace(info, s, k, d).value.docs.Keys == s.docs.Keys
  {
  }

  /** Truncating leaves no document and every index empty, and keeps the
      indexes registered. */
  lemma TruncateEmpties(s: TableState)
    ensures Truncate(s).docs == map[]
    ensures Truncate(s).indexes.Keys == s.indexes.Keys
    ensures forall n :: n in Truncate(s).indexes ==> Truncate(s).indexes[n].entries == []
    ensures Truncate(Truncate(s)) == Truncate(s)
  {
  }

  // ---- Properties: indexes in agreement with the store -------------------

  /** A successful insert adds to every index the entry of the validated
      document's value at the index path, Null when the path is absent. */
  lemma InsertIndexes(info: TableInfo, s: TableState, d: Document, n: string)
    requires StateValid(info, s)
    requires Insert(info, s, d).Success?
    requires n in s.indexes
    ensures var (k, s') := Insert(info, s, d).value;
      var vd := Validate(d, info.constraints).value;
      && n in s'.indexes
      && Entry(EncodeIndexed(IndexedValue(vd, s.indexes[n].path)), k) in s'.indexes[n].entries
      && (GetValue(vd, s.indexes[n].path).None? ==> Entry(EncodeIndexed(Null), k) in s'.indexes[n].entries)
      && forall x :: x in s.indexes[n].entries ==> x in s'.indexes[n].entries
  {
  }

  /** Adding a new document's entries keeps an index in agreement. */
  lemma AddKeepsSynced(ixs: map<string, Index>, docs: map<Key, Document>, d: Document, k: Key, n: string)
    requires IndexesValid(ixs) && k !in docs
    requires n in ixs && Synced(ixs[n], docs)
    requires AddToIndexes(ixs, d, k).Success?
    ensures Synced(AddToIndexes(ixs, d, k).value[n], docs[k := d])
  {
    SetKeepsSynced(ixs[n], docs, k, d);
  }

  /** Adding a new document's entries to indexes in agreement fails exactly
      when two documents would share a value of a unique index. */
  lemma AddFailsOnViolation(ixs: map<string, Index>, docs: map<Key, Document>, d: Document, k: Key)
    requires IndexesValid(ixs) && k !in docs
    requires forall n :: n in ixs ==> Synced(ixs[n], docs)
    ensures AddToIndexes(ixs, d, k).Failure? <==>
      exists n :: n in ixs && UniqueViolated(ixs[n].path, ixs[n].unique, docs[k := d])
  {
    forall n | n in ixs
      ensures Set(ixs[n], EntryFor(d, k, ixs[n].path).value, k).Failure? <==>
        UniqueViolated(ixs[n].path, ixs[n].unique, docs[k := d])
    {
      SetFailsOnViolation(ixs[n], docs, k, d);
    }
  }

  /** Removing a stored document's entries from indexes in agreement
      succeeds and keeps them in agreement. */
  lemma RemoveKeepsSynced(ixs: map<string, Index>, docs: map<Key, Document>, k: Key)
    requires IndexesValid(ixs) && k in docs
    requires forall n :: n in ixs ==> Synced(ixs[n], docs)
    ensures RemoveFromIndexes(ixs, docs[k], k).Success?
    ensures forall n :: n in ixs ==> Synced(RemoveFromIndexes(ixs, docs[k], k).value[n], docs - {k})
  {
    RemoveSucceeds(ixs, docs, k);
    forall n | n in ixs
      ensures Synced(RemoveFromIndexes(ixs, docs[k], k).value[n], docs - {k})
    {
      RemoveKeepsSyncedOne(ixs, docs, k, n);
    }
  }

  lemma RemoveSucceeds(ixs: map<string, Index>, docs: map<Key, Document>, k: Key)
    requires IndexesValid(ixs) && k in docs
    requires forall n :: n in ixs ==> Synced(ixs[n], docs)
    ensures RemoveFromIndexes(ixs, docs[k], k).Success?
  {
    var d := docs[k];
    forall n | n in ixs ensures EntryFor(d, k, ixs[n].path) in ixs[n].entries {
      SyncedHas(ixs[n], docs, k);
    }
    RemovePresent(ixs, d, k);
  }

  /** Removing entries that every index holds succeeds. */
  lemma RemovePresent(ixs: map<string, Index>, d: Document, k: Key)
    requires IndexesValid(ixs)
    requires forall n :: n in ixs ==> EntryFor(d, k, ixs[n].path) in ixs[n].entries
    ensures RemoveFromIndexes(ixs, d, k) ==
      Success(map n | n in ixs :: Indexes.Delete(ixs[n], EntryFor(d, k, ixs[n].path).value, k).value)
  {
  }

  /** Removing a stored document's entries keeps one index in agreement. */
  lemma RemoveKeepsSyncedOne(ixs: map<string, Index>, docs: map<Key, Document>, k: Key, n: string)
    requires IndexesValid(ixs) && k in docs
    requires n in ixs && Synced(ixs[n], docs)
    requires RemoveFromIndexes(ixs, docs[k], k).Success?
    ensures Synced(RemoveFromIndexes(ixs, docs[k], k).value[n], docs - {k})
  {
    Indexes.DeleteKeepsSynced(ixs[n], docs, k);
  }

  /** Insert keeps an index that agrees with the store in agreement. */
  lemma InsertKeepsSynced(info: TableInfo, s: TableState, d: Document, n: string)
    requires StateValid(info, s)
    requires Insert(info, s, d).Success?
    requires n in s.indexes && Synced(s.indexes[n], s.docs)
    ensures var s' := Insert(info, s, d).value.1;
      n in s'.indexes && Synced(s'.indexes[n], s'.docs)
  {
    var vd := Validate(d, info.constraints).value;
    var k := NextKey(info, s, vd).value.0;
    AddKeepsSynced(s.indexes, s.docs, vd, k, n);
  }

  /** When every index agrees with the store, an insert that passes
      validation and key generation is refused by the indexes exactly when
      it would give two documents the same value in a unique index. */
  lemma InsertIndexFailure(info: TableInfo, s: TableState, d: Document)
    requires StateValid(info, s)
    requires forall n :: n in s.indexes ==> Synced(s.indexes[n], s.docs)
    requires Validate(d, info.constraints).Success?
    requires NextKey(info, s, Validate(d, info.constraints).value).Success?
    requires NextKey(info, s, Validate(d, info.constraints).value).value.0 !in s.docs
    ensures var vd := Validate(d, info.constraints).value;
      var k := NextKey(info, s, vd).value.0;
      Insert(info, s, d).Failure? <==>
        exists n :: n in s.indexes && UniqueViolated(s.indexes[n].path, s.indexes[n].unique, s.docs[k := vd])
  {
    var vd := Validate(d, info.constraints).value;
    var k := NextKey(info, s, vd).value.0;
    assert Insert(info, s, d).Failure? <==> AddToIndexes(s.indexes, vd, k).Failure?;
    AddFailsOnViolation(s.indexes, s.docs, vd, k);
  }

  /** On a store whose indexes agree with it, Delete of a stored key
      succeeds and keeps them in agreement. */
  lemma DeleteKeepsSynced(info: TableInfo, s: TableState, k: Key)
    requires StateValid(info, s)
    requires forall n :: n in s.indexes ==> Synced(s.indexes[n], s.docs)
    requires k in s.docs
    ensures Delete(info, s, k).Success?
    ensures forall n :: n in s.indexes ==>
      n in Delete(info, s, k).value.indexes && Synced(Delete(info, s, k).value.indexes[n], Delete(info, s, k).value.docs)
  {
    RemoveKeepsSynced(s.indexes, s.docs, k);
  }

  lemma RemoveThenStore(docs: map<Key, Document>, k: Key, d: Document)
    ensures (docs - {k})[k := d] == docs[k := d]
  {
  }

  /** Replace keeps an index that agrees with the store in agreement. */
  lemma ReplaceKeepsSynced(info: TableInfo, s: TableState, k: Key, d: Document, n: string)
    requires StateValid(info, s)
    requires Replace(info, s, k, d).Success?
    requires n in s.indexes && Synced(s.indexes[n], s.docs)
    ensures n in Replace(info, s, k, d).value.indexes
    ensures Synced(Replace(info, s, k, d).value.indexes[n], Replace(info, s, k, d).value.docs)
  {
    var vd := Validate(d, info.constraints).value;
    var rm := RemoveFromIndexes(s.indexes, s.docs[k], k);
    assert rm.Success?;
    var ixs := rm.value;
    var ad := AddToIndexes(ixs, vd, k);
    assert ad.Success?;
    assert Replace(info, s, k, d).value == TableState(s.docs[k := vd], s.sequence, ad.value);
    RemoveKeepsSyncedOne(s.indexes, s.docs, k, n);
    AddKeepsSynced(ixs, s.docs - {k}, vd, k, n);
    RemoveThenStore(s.docs, k, vd);
  }

  // ---- Properties: every operation keeps the state valid -----------------

  lemma InsertValid(info: TableInfo, s: TableState, d: Document)
    requires StateValid(info, s)
    requires Insert(info, s, d).Success?
    ensures StateValid(info, Insert(info, s, d).value.1)
  {
    var vd := Validate(d, info.constraints).value;
    var (k, s') := Insert(info, s, d).value;
    if PrimaryKeyConstraint(info.constraints).None? {
      UintRoundTrip(s.sequence + 1, k);
      assert forall k' :: k' in s.docs ==> Generated(k', s'.sequence);
    }
  }

  lemma DeleteValid(info: TableInfo, s: TableState, k: Key)
    requires StateValid(info, s)
    requires Delete(info, s, k).Success?
    ensures StateValid(info, Delete(info, s, k).value)
  {
  }

  lemma ReplaceValid(info: TableInfo, s: TableState, k: Key, d: Document)
    requires StateValid(info, s)
    requires Replace(info, s, k, d).Success?
    ensures StateValid(info, Replace(info, s, k, d).value)
  {
  }

  lemma TruncateValid(info: TableInfo, s: TableState)
    requires StateValid(info, s)
    ensures StateValid(info, Truncate(s))
    ensures forall n :: n in Truncate(s).indexes ==> Synced(Truncate(s).indexes[n], Truncate(s).docs)
  {
  }

  lemma CreateIndexValid(info: TableInfo, s: TableState, name: string, path: Path, unique: bool)
    requires StateValid(info, s)
    requires CreateIndex(s, name, path, unique).Success?
    ensures StateValid(info, CreateIndex(s, name, path, unique).value)
  {
  }

  /** Replacing the indexes by other valid ones, as a rebuild does, keeps
      the state valid. */
  lemma ReIndexValid(info: TableInfo, s: TableState, ixs: map<string, Index>)
    requires StateValid(info, s) && IndexesValid(ixs)
    ensures StateValid(info, s.(indexes := ixs))
  {
  }

  /** Indexes(): one entry per registered index, none for another table's. */
  lemma ByPathCount(ixs: map<string, Index>)
    requires IndexesValid(ixs)
    ensures |ByPath(ixs)| == |ixs|
  {
    var r := ByPath(ixs);
    assert r.Keys == Paths(ixs, ixs.Keys);
    PathsCount(ixs, ixs.Keys);
    assert |r| == |r.Keys|;
    assert |ixs| == |ixs.Keys|;
  }

  function Paths(ixs: map<string, Index>, names: set<string>): set<Path>
    requires names <= ixs.Keys
  {
    set n | n in names :: ixs[n].path
  }

  lemma {:induction false} PathsCount(ixs: map<string, Index>, names: set<string>)
    requires IndexesValid(ixs) && names <= ixs.Keys
    ensures |Paths(ixs, names)| == |names|
    decreases |names|
  {
    if names != {} {
      var n :| n in names;
      var rest := names - {n};
      PathsCount(ixs, rest);
      assert Paths(ixs, names) == Paths(ixs, rest) + {ixs[n].path};
      assert ixs[n].path !in Paths(ixs, rest);
    }
  }

  // ---- Iteration order ----------------------------------------------------

  /** A stored document as handed to an iteration's visitor, with its key. */
  datatype Stored = Stored(key: Key, doc: Document)

  lemma {:induction false} LeastExists(ks: set<Key>)
    requires ks != {}
    ensures exists k :: k in ks && forall j :: j in ks && j != k ==> Below(k, j)
    decreases |ks|
  {
    var x :| x in ks;
    if ks != {x} {
      LeastExists(ks - {x});
      var m :| m in ks - {x} && forall j :: j in ks - {x} && j != m ==> Below(m, j);
      LeastWithOneMore(ks, x, m);
    }
  }

  /** The least of `ks` without `x` or `x` itself is the least of `ks`. */
  lemma LeastWithOneMore(ks: set<Key>, x: Key, m: Key)
    requires x in ks && m in ks && m != x
    requires forall j :: j in ks - {x} && j != m ==> Below(m, j)
    ensures exists k :: k in ks && forall j :: j in ks && j != k ==> Below(k, j)
  {
    BelowTotal(x, m);
    if Below(x, m) {
      forall j | j in ks && j != x ensures Below(x, j) {
        if j != m {
          BelowTransitive(x, m, j);
        }
      }
    } else {
      assert forall j :: j in ks && j != m ==> Below(m, j);
    }
  }

  /** The least key of a non-empty set. */
  ghost function Least(ks: set<Key>): (k: Key)
    requires ks != {}
    ensures k in ks && forall j :: j in ks && j != k ==> Below(k, j)
  {
    LeastExists(ks);
    var k :| k in ks && forall j :: j in ks && j != k ==> Below(k, j);
    k
  }

  lemma LeastUnique(ks: set<Key>, k: Key)
    requires k in ks && forall j :: j in ks && j != k ==> Below(k, j)
    ensures k == Least(ks)
  {
    var m := Least(ks);
    if m != k {
      BelowAsymmetric(k, m);
    }
  }

  /** The stored documents in ascending key order: the order of the store. */
  ghost function KeyOrder(docs: map<Key, Document>): seq<Stored>
    decreases |docs|
  {
    if docs == map[] then []
    else
      var k := Least(docs.Keys);
      assert (docs - {k}).Keys == docs.Keys - {k};
      [Stored(k, docs[k])] + KeyOrder(docs - {k})
  }

  /** Iteration starts with the least key and goes on with the rest. */
  lemma KeyOrderFirst(docs: map<Key, Document>, k: Key)
    requires k in docs && forall j :: j in docs && j != k ==> Below(k, j)
    ensures KeyOrder(docs) == [Stored(k, docs[k])] + KeyOrder(docs - {k})
  {
    LeastUnique(docs.Keys, k);
  }

  /** Iteration order visits every stored document once, with its key, in
      strictly ascending key order. */
  lemma KeyOrderSpec(docs: map<Key, Document>)
    ensures |KeyOrder(docs)| == |docs|
    ensures forall i :: 0 <= i < |KeyOrder(docs)| ==>
      KeyOrder(docs)[i].key in docs && KeyOrder(docs)[i].doc == docs[KeyOrder(docs)[i].key]
    ensures forall k :: k in docs ==> Stored(k, docs[k]) in KeyOrder(docs)
    ensures forall i, j :: 0 <= i < j < |KeyOrder(docs)| ==> Below(KeyOrder(docs)[i].key, KeyOrder(docs)[j].key)
  {
    KeyOrderLength(docs);
    KeyOrderElements(docs);
    KeyOrderCovers(docs);
    KeyOrderAscending(docs);
  }

  lemma {:induction false} KeyOrderLength(docs: map<Key, Document>)
    ensures |KeyOrder(docs)| == |docs|
    decreases |docs|
  {
    if docs != map[] {
      var k := Least(docs.Keys);
      assert (docs - {k}).Keys == docs.Keys - {k};
      KeyOrderLength(docs - {k});
    }
  }

  lemma {:induction false} KeyOrderElements(docs: map<Key, Document>)
    ensures forall i :: 0 <= i < |KeyOrder(docs)| ==>
      KeyOrder(docs)[i].key in docs && KeyOrder(docs)[i].doc == docs[KeyOrder(docs)[i].key]
    decreases |docs|
  {
    if docs != map[] {
      var k := Least(docs.Keys);
      var rest := docs - {k};
      assert rest.Keys == docs.Keys - {k};
      KeyOrderElements(rest);
      var r := KeyOrder(docs);
      var t := KeyOrder(rest);
      assert r == [Stored(k, docs[k])] + t;
      forall i | 0 <= i < |r| ensures r[i].key in docs && r[i].doc == docs[r[i].key] {
        if i > 0 {
          assert r[i] == t[i - 1];
        }
      }
    }
  }

  lemma {:induction false} KeyOrderCovers(docs: map<Key, Document>)
    ensures forall k :: k in docs ==> Stored(k, docs[k]) in KeyOrder(docs)
    decreases |docs|
  {
    if docs != map[] {
      var k := Least(docs.Keys);
      var rest := docs - {k};
      assert rest.Keys == docs.Keys - {k};
      KeyOrderCovers(rest);
      assert KeyOrder(docs) == [Stored(k, docs[k])] + KeyOrder(rest);
      forall k' | k' in docs && k' != k ensures Stored(k', docs[k']) in KeyOrder(rest) {
        assert k' in rest;
      }
    }
  }

  lemma {:induction false} KeyOrderAscending(docs: map<Key, Document>)
    ensures forall i, j :: 0 <= i < j < |KeyOrder(docs)| ==> Below(KeyOrder(docs)[i].key, KeyOrder(docs)[j].key)
    decreases |docs|
  {
    if docs != map[] {
      var k := Least(docs.Keys);
      var rest := docs - {k};
      assert rest.Keys == docs.Keys - {k};
      KeyOrderAscending(rest);
      KeyOrderElements(rest);
      var r := KeyOrder(docs);
      var t := KeyOrder(rest);
      assert r == [Stored(k, docs[k])] + t;
      forall i, j | 0 <= i < j < |r| ensures Below(r[i].key, r[j].key) {
        assert r[j] == t[j - 1];
        if i > 0 {
          assert r[i] == t[i - 1];
        }
      }
    }
  }

  /** Two visits never hand over the same key. */
  lemma KeyOrderDistinct(docs: map<Key, Document>, i: nat, j: nat)
    requires i < |KeyOrder(docs)| && j < |KeyOrder(docs)| && i != j
    ensures KeyOrder(docs)[i].key != KeyOrder(docs)[j].key
  {
    KeyOrderSpec(docs);
    if i < j {
      BelowIrreflexive(KeyOrder(docs)[i].key);
    } else {
      BelowIrreflexive(KeyOrder(docs)[j].key);
    }
  }

  /** An empty store is iterated with no visitor call and no error. */
  lemma IterateEmpty(visit: (nat, Stored) -> Option<string>, visited: seq<Stored>, err: Option<string>)
    requires VisitedUntilError(KeyOrder(map[]), visit, visited, err)
    ensures err.None? && visited == []
  {
  }
}
