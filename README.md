# genji document table — a Dafny model

This project models the document table of the genji embedded database, as
its table tests describe it. A table stores documents under keys. A document
is an ordered list of named fields whose values are Null, Bool, Integer,
Double, Text, Blob, Array or a nested document. The table supports:

- **Insert.** It validates and converts a document against the table's field
  constraints: declared types, not-null and the primary key. It gives the
  document a key, which is either the encoded primary-key value or the next
  number of a per-table counter. It refuses a key that is already stored. It
  stores the document and adds an entry to every index of the table.
- **Lookup and changes.** `GetDocument`, `Delete`, `Replace` and `Truncate`.
- **Iterate.** Hands each stored document, in key order, to a visitor until
  the visitor returns an error.
- **Indexes.** Each index covers one path of the table's documents. A
  document without that path is indexed as Null, and Null sorts before every
  other value. `ReIndex` rebuilds the table's own indexes from its documents.
  `Indexes()` lists them keyed by path.

The model has three layers:

- **A pure specification.** Module `TableSpec` gives a table state (documents,
  counter and indexes) and one function per operation. Each function maps the
  state before to a result and the state after. Its lemmas state what the
  tests observe: not-found errors, duplicates, "nothing else changes",
  consecutive generated keys across a reopen, indexes in agreement with the
  store, iteration order, and that every operation keeps the state valid.
- **A stateful class.** Class `Tables.Table` has a map of documents, a counter
  and a map of indexes. Its methods change these fields in place. Each method
  is proved to follow its `TableSpec` function and to keep the table's
  invariant. Helpers loop over the indexes one at a time; `Iterate` loops
  over the documents in key order.
- **Test scenarios.** Modules `TableScenarios`, `ConstraintScenarios` and
  `IndexScenarios` replay each case of `database/table_test.go` against the
  class. Each one proves the outcome that case asserts.

A few things are abstract:

- **Keys and encodings.** These are strings of integer digits compared
  lexicographically. They stand for byte strings compared bytewise. Index
  encodings are injective; primary-key encodings are injective within one
  type (see "## Left out"). The model orders generated keys by their
  numbers, which the stored varint bytes do not (see "## Left out").
- **Double.** A Double carries an integral payload, and conversion between
  Integer and Double is exact.
- **Reopening a database.** This is modelled as opening a table on the state
  the last session left. The counter is recomputed from the stored keys.

Files:

- `wrappers.dfy`: Option, Result and the error kinds.
- `documents.dfy`: values, documents, paths, and conversion to a type.
- `keys.dfy`: key order and the encodings.
- `visiting.dfy`: the stop-at-first-error visit contract.
- `constraints.dfy`: field constraints and validation.
- `indexes.dfy`: a single index.
- `table_spec.dfy`: the table as a value.
- `table.dfy`: the class.
- `table_scenarios.dfy`, `constraint_scenarios.dfy`, `index_scenarios.dfy`:
  the test cases.

## Model

| member | source | states |
|---|---|---|
| Documents.FieldIndex | database/table_test.go:126-130 | the position found holds the first field with that name; None only when no field has it |
| Documents.GetByField | database/table_test.go:126-130 | a field value is returned exactly when the document has a field of that name, and it is that field's value |
| Documents.SetValue | database/table_test.go:227-254 | after replacing the value at a path, reading the path gives the new value |
| Documents.SetThenGetBelow | database/table_test.go:227-254 | after a replacement at `p`, a path below `p` reads from the new value |
| Documents.GetAboveSet | database/table_test.go:227-254 | a replacement below `p` shows at `p` as the same replacement inside `p`'s value |
| Documents.SetDisjoint | database/table_test.go:227-254 | a replacement at `p` leaves every path that neither extends `p` nor is extended by it unchanged |
| Documents.SetSame | database/table_test.go:227-254 | writing back the value a path holds changes nothing |
| Documents.ValueAtAppend | database/table_test.go:196-224 | resolving `p + q` is resolving `p` and then `q` |
| Documents.Convert | database/table_test.go:334-368 | a Double converts to an equal Integer, and an Integer to a Double; Null and values already of the type are kept; a Double outside 64 bits and any other type are refused with IncompatibleType |
| Keys.BelowIrreflexive | database/table_test.go:56-75 | no key sorts before itself |
| Keys.BelowTransitive | database/table_test.go:56-75 | key order is transitive |
| Keys.BelowTotal | database/table_test.go:56-75 | any two different keys are ordered one way or the other |
| Keys.BelowAsymmetric | database/table_test.go:56-75 | two keys are never both below each other |
| Keys.UintRoundTrip | database/table_test.go:186-193 | decoding an encoded counter number gives the number back, and an encoding that decodes re-encodes to itself |
| Keys.UintOrder | database/table_test.go:152-193 | in the model's abstract encoding, generated keys sort in the order of their numbers |
| Keys.Int64Order | database/table_test.go:214-216 | the primary-key encoding of integers keeps their order |
| Keys.KeyInjective | database/table_test.go:196-224 | two primary-key values of one type with the same encoding are equal |
| Keys.DigitsInjective | database/table_test.go:196-224 | texts, or blobs, with equal digit strings are equal |
| Keys.EmptyKey | database/table_test.go:257-285 | a primary-key encoding is empty exactly for Null, the empty text and the empty blob |
| Keys.IndexedPrefixFree | database/table_test.go:287-332 | no index encoding is a prefix of another one |
| Keys.IndexedInjective | database/table_test.go:287-332 | different values have different index encodings |
| Keys.NullFirst | database/table_test.go:317-321 | the index encoding of Null sorts before that of every other value |
| Keys.TypeRankOrder | database/table_test.go:624-632 | a value of a lower-ranked type sorts before one of a higher-ranked type, whatever follows |
| Keys.IntegerIndexOrder | database/table_test.go:624-632 | the index encoding of integers keeps their order |
| Keys.TerminatedPrefixFree | database/table_test.go:287-332 | a self-delimited digit string cannot be a proper prefix of another one |
| Visiting.StopsAtFirstError | database/table_test.go:77-97 | if the first failing call is call n, exactly n + 1 items are visited and that call's error is returned |
| Visiting.VisitsAll | database/table_test.go:56-75 | a visitor that never fails sees every item, in order, with no error |
| Visiting.Stopped | database/table_test.go:77-97 | a visit that stops at the item after the accepted ones meets the stop-at-first-error contract |
| Constraints.PrimaryKeyConstraint | database/table_test.go:200-204 | picks the first primary-key constraint of the table; None exactly when there is none |
| Constraints.Validate | database/table_test.go:371-447 | a validated document satisfies every not-null constraint; a failure is IncompatibleType or NotNullViolation |
| Constraints.PrimaryKeyOf | database/table_test.go:196-224 | the key is the encoding of the value at the primary-key path; refused with PrimaryKeyNotFound when the path is absent or the key is empty |
| Constraints.PrimaryKeyRejects | database/table_test.go:257-285 | the primary key is refused exactly when the path is absent or holds Null, the empty text or the empty blob |
| Constraints.ConvertAllHolds | database/table_test.go:334-368 | when no two constraints name the same path, every declared type holds in the converted document |
| Constraints.ValidatedSatisfies | database/table_test.go:334-421 | a validated document satisfies every declared type and every not-null constraint |
| Constraints.ValidatedUnrelated | database/table_test.go:364-367 | a path with no typed constraint at or below it keeps its value through validation; constraints above it are allowed |
| Constraints.ConvertAllConverts | database/table_test.go:227-254 | a typed path with no other typed constraint at or below it is stored as the conversion of the value it held, even under a typed ancestor such as `foo` above `foo[0]` |
| Constraints.ConvertAtKeepsValue | database/table_test.go:227-254 | one conversion keeps the value of every path with no typed constraint at or below it |
| Constraints.ConvertAllPresence | database/table_test.go:371-424 | conversion never changes whether a path is absent or holds Null |
| Constraints.ValidateNotNull | database/table_test.go:371-447 | whatever the declared types, a document with a not-null path absent or Null is refused; when its declared types apply, it is accepted exactly when every not-null path is set, and a refusal is then NotNullViolation; a failed conversion is IncompatibleType |
| Constraints.ConvertAtKeeps | database/table_test.go:334-368 | converting at one path keeps any type already holding at another path |
| Constraints.ValidateUntyped | database/table_test.go:371-421 | without declared types, validation succeeds exactly when no not-null path is missing or Null, and keeps the document as it is |
| Indexes.EntryBelowTransitive | database/table_test.go:311-329 | index entry order is transitive |
| Indexes.EntryBelowTotal | database/table_test.go:311-329 | any two different entries are ordered |
| Indexes.InsertSorted | database/table_test.go:287-332 | adding an entry keeps the entries sorted, holds exactly the old entries and the new one, and grows by one unless it was there |
| Indexes.RemoveSorted | database/table_test.go:460-488 | removing an entry keeps the entries sorted, holds exactly the old entries but that one, and shrinks by one when it was there |
| Indexes.Set | database/table_test.go:287-332 | a unique index refuses a value another key already has, with DuplicateValue; otherwise the entry is added and the index stays valid |
| Indexes.Delete | database/table_test.go:460-488 | an entry is removed exactly when the index holds it; otherwise IndexEntryNotFound |
| Indexes.IndexedValue | database/table_test.go:305-321 | the indexed value is the value at the index path, or Null when the path is absent |
| Indexes.SyncedCount | database/table_test.go:642-652 | an index in agreement with the store holds one entry per document |
| Indexes.NullsFirst | database/table_test.go:317-321 | in a valid index, every entry before a Null entry is Null |
| Indexes.MissingSortsFirst | database/table_test.go:317-321 | the entry of a document lacking the indexed path sorts before that of a document with a non-Null value there |
| Indexes.Seek | database/table_test.go:311-329 | the start of an ascending iteration is the first entry not below the pivot |
| Indexes.AtOrAboveExact | database/table_test.go:311-329 | an ascending iteration from a pivot meets exactly the entries at or above it |
| Indexes.Hits | database/table_test.go:311-329 | the hits are the entries from the start position on, in order |
| Indexes.AnyPivotAll | database/table_test.go:311-329 | an iteration from the zero value starts at the first entry |
| Indexes.TypedHits | database/table_test.go:624-652 | when every document holds a value of type t at the path, iterating from type t meets one entry per document |
| Indexes.AscendGreaterOrEqual | database/table_test.go:311-329 | visits the hits from the pivot in order, stopping at the visitor's first error |
| Indexes.SetKeepsSynced | database/table_test.go:287-332 | adding a new document's entry keeps an index in agreement with the store |
| Indexes.SetFailsOnViolation | database/table_test.go:287-332 | adding a new document's entry fails exactly when a unique index would hold one value for two documents |
| Indexes.DeleteKeepsSynced | database/table_test.go:460-488 | removing a stored document's entry succeeds and keeps the index in agreement |
| Indexes.Rebuild | database/table_test.go:583-659 | a rebuilt index keeps its path and mode and agrees with the documents; refused with DuplicateValue exactly when a unique index would hold one value twice |
| Indexes.SyncedDetermined | database/table_test.go:583-659 | two valid indexes on one path that agree with the same documents hold the same entries |
| Indexes.SameSetSorted | database/table_test.go:583-659 | two sorted entry lists with the same entries are equal |
| TableSpec.NextKey | database/table_test.go:136-224 | without a primary key, the key is the counter's next number and the counter advances; with one, the key is the primary-key encoding and the counter is kept |
| TableSpec.AddToIndexes | database/table_test.go:287-332 | every index gets the document's entry; fails with DuplicateValue exactly when one index refuses it |
| TableSpec.RemoveFromIndexes | database/table_test.go:460-488 | every index loses the document's entry; fails with IndexEntryNotFound exactly when one index lacks it |
| TableSpec.Get | database/table_test.go:100-132 | a lookup succeeds exactly for a stored key, with the stored document; otherwise DocumentNotFound |
| TableSpec.EmptiedIndexes | database/table_test.go:550-571 | the same indexes, on the same paths and modes, with no entry |
| TableSpec.CreateIndex | database/table_test.go:596-619 | registers a new, empty index and changes nothing else; IndexAlreadyExists when the name or the path is already indexed |
| TableSpec.ByPath | database/table_test.go:672-716 | every index of the table is listed under its path, and every listed path is one of the table's |
| TableSpec.InsertStores | database/table_test.go:110-132 | a successful insert stores the validated document under a new, non-empty key and changes no other document |
| TableSpec.InsertGenerated | database/table_test.go:136-150 | without a primary key, the key is the next counter number, never already stored, and the counter advances by one; the only possible failure is DuplicateValue from a unique index |
| TableSpec.ConsecutiveKeys | database/table_test.go:136-150 | two inserts in a row return different, non-empty keys numbered one after the other |
| TableSpec.InsertGeneratedSucceeds | database/table_test.go:56-63 | without a primary key or a unique index, a valid insert always succeeds and adds one document |
| TableSpec.ReopenContinues | database/table_test.go:152-194 | after a reopen, the next generated key is numbered one more than the last key generated before it |
| TableSpec.ReopenValid | database/table_test.go:176-182 | the counter recomputed from the stored keys gives a valid table |
| TableSpec.InsertPrimaryKey | database/table_test.go:196-224 | the key is the encoding of the validated document's value at the primary-key path, and inserting the same document again fails with DuplicateDocument |
| TableSpec.InsertRejectsEmptyKey | database/table_test.go:257-285 | with a primary key, an absent, Null, empty-text or empty-blob key value makes the insert fail with PrimaryKeyNotFound |
| TableSpec.InsertValidates | database/table_test.go:371-447 | an insert refused by validation reports the validation error |
| TableSpec.DeleteRemoves | database/table_test.go:460-488 | delete removes exactly that document, the others are unchanged, and a second delete fails with DocumentNotFound |
| TableSpec.AbsentKey | database/table_test.go:451-498 | lookup, delete and replace of an absent key fail with DocumentNotFound |
| TableSpec.ReplaceStores | database/table_test.go:500-538 | replace stores the validated new document under the same key and leaves every other document unchanged |
| TableSpec.TruncateEmpties | database/table_test.go:541-571 | truncate leaves no document and every index empty but registered, and truncating twice is truncating once |
| TableSpec.InsertIndexes | database/table_test.go:287-332 | an insert adds to every index the entry of the value at its path, Null's entry when the path is absent, and keeps the old entries |
| TableSpec.AddKeepsSynced | database/table_test.go:287-332 | adding a new document's entries keeps an index in agreement with the store |
| TableSpec.AddFailsOnViolation | database/table_test.go:287-332 | adding entries fails exactly when a unique index would hold one value for two documents |
| TableSpec.RemoveKeepsSynced | database/table_test.go:460-488 | removing a stored document's entries succeeds and keeps every index in agreement |
| TableSpec.InsertKeepsSynced | database/table_test.go:287-332 | insert keeps an index that agrees with the store in agreement |
| TableSpec.InsertIndexFailure | database/table_test.go:287-332 | a valid insert under a new key is refused exactly when a unique index would hold one value twice |
| TableSpec.DeleteKeepsSynced | database/table_test.go:460-488 | delete of a stored key succeeds and keeps every index in agreement |
| TableSpec.ReplaceKeepsSynced | database/table_test.go:500-538 | replace keeps an index that agrees with the store in agreement |
| TableSpec.InsertValid | database/table_test.go:135-447 | insert keeps the table invariant: valid indexes on distinct paths, generated keys within the counter, not-null constraints hold |
| TableSpec.DeleteValid | database/table_test.go:451-488 | delete keeps the table invariant |
| TableSpec.ReplaceValid | database/table_test.go:491-538 | replace keeps the table invariant |
| TableSpec.TruncateValid | database/table_test.go:541-571 | truncate keeps the table invariant and leaves every index in agreement with the empty store |
| TableSpec.CreateIndexValid | database/table_test.go:596-619 | creating an index keeps the table invariant |
| TableSpec.ReIndexValid | database/table_test.go:574-659 | replacing the indexes by valid ones keeps the table invariant |
| TableSpec.ByPathCount | database/table_test.go:704-715 | the listing has exactly as many entries as the table has indexes |
| TableSpec.Least | database/table_test.go:56-75 | the least key of a non-empty set is in it and below every other key of it |
| TableSpec.KeyOrderSpec | database/table_test.go:56-75 | iteration order visits every stored document once, with its key, in strictly ascending key order |
| TableSpec.KeyOrderDistinct | database/table_test.go:66-74 | two visits never hand over the same key |
| TableSpec.IterateEmpty | database/table_test.go:43-54 | an empty table is iterated with no visitor call and no error |
| Tables.LastNumber | database/table_test.go:176-193 | the number found is the largest generated number among the stored keys, 0 when there is none |
| Tables.AddEntries | database/table_test.go:287-332 | adds the document's entry to each index in turn; the result is the specification's |
| Tables.RemoveEntries | database/table_test.go:460-488 | removes the document's entry from each index in turn; the result is the specification's |
| Tables.RebuildAll | database/table_test.go:583-659 | rebuilds each index from the documents; fails with DuplicateValue exactly when a unique index would hold one value twice |
| Tables.Table.constructor | database/table_test.go:24-33 | a new table is empty and valid |
| Tables.Table.Open | database/table_test.go:176-182 | a reopened table keeps its documents and indexes, recomputes its counter from the stored keys, and is valid |
| Tables.Table.Insert | database/table_test.go:135-447 | returns and stores what the specification's insert gives; on an error, nothing changes |
| Tables.Table.GetDocument | database/table_test.go:100-132 | the specification's lookup on the current documents |
| Tables.Table.Delete | database/table_test.go:451-488 | the state after is the specification's delete; on an error, nothing changes |
| Tables.Table.Replace | database/table_test.go:491-538 | the state after is the specification's replace; on an error, nothing changes |
| Tables.Table.Truncate | database/table_test.go:541-571 | the state after is the specification's truncate |
| Tables.Table.CreateIndex | database/table_test.go:596-619 | the state after is the specification's index creation; on an error, nothing changes |
| Tables.Table.ReIndex | database/table_test.go:574-659 | documents and counter unchanged; succeeds exactly when no unique index would hold one value twice, then every index is rebuilt on its path and agrees with the documents; on an error, nothing changes |
| Tables.Table.Iterate | database/table_test.go:42-97 | visits the stored documents in ascending key order until the visitor's first error, which it returns |
| Tables.Table.Indexes | database/table_test.go:662-716 | this table's indexes keyed by path |
| TableScenarios.InsertPlain | database/table_test.go:56-63 | an insert into a table without constraints or unique indexes succeeds under the next generated key and adds the document |
| TableScenarios.InsertAll | database/table_test.go:56-63 | inserting n documents adds n documents, each one of those inserted |
| TableScenarios.IterateEmptyTable | database/table_test.go:43-54 | iterating an empty table succeeds with zero visitor calls |
| TableScenarios.IterateAllDocuments | database/table_test.go:56-75 | after ten inserts, iteration succeeds and visits ten distinct keys |
| TableScenarios.CountVisitsAll | database/table_test.go:66-74 | a never-failing visitor sees each stored key exactly once |
| TableScenarios.IterateStopsOnError | database/table_test.go:77-97 | a visitor failing from its fifth call stops the iteration after exactly five calls, with its error |
| TableScenarios.GetMissingDocument | database/table_test.go:101-108 | a lookup in an empty table fails with DocumentNotFound |
| TableScenarios.GetInsertedDocument | database/table_test.go:110-132 | the first inserted document is fetched back with `fieldc` = Integer 40 |
| TableScenarios.GenerateKeys | database/table_test.go:136-150 | two inserts of one document return two non-empty, different keys |
| TableScenarios.GenerateKeysAfterReopen | database/table_test.go:152-194 | the key generated after a reopen is numbered one more than the key generated before it |
| TableScenarios.DeleteMissing | database/table_test.go:452-458 | delete of an absent key fails with DocumentNotFound |
| TableScenarios.DeleteRightDocument | database/table_test.go:460-488 | delete succeeds, a second delete fails with DocumentNotFound, and the other document is still there, without `fieldc` |
| TableScenarios.DeleteUnindexed | database/table_test.go:460-488 | on a table without indexes, delete succeeds exactly for a stored key and removes only that document |
| TableScenarios.ReplaceMissing | database/table_test.go:492-498 | replace of an absent key fails with DocumentNotFound |
| TableScenarios.ReplaceRightDocument | database/table_test.go:500-538 | after the replace, the first key holds `fielda` = "e" and the second still `fielda` = "c" |
| TableScenarios.ReplaceUnindexed | database/table_test.go:500-538 | on a table without constraints or indexes, replace succeeds exactly for a stored key and changes only that document |
| TableScenarios.TruncateEmptyTable | database/table_test.go:542-548 | truncating an empty table leaves it empty |
| TableScenarios.TruncateTable | database/table_test.go:550-571 | after truncating a table of two documents, iteration succeeds with zero visitor calls |
| ConstraintScenarios.PathKeyValidates | database/table_test.go:196-216 | the document passes validation unchanged, and its primary-key path `foo.a[1]` holds Integer 10 |
| ConstraintScenarios.PrimaryKeyFromPath | database/table_test.go:196-225 | the insert returns the encoding of 10, the document is fetched under it, and a second insert fails with DuplicateDocument |
| ConstraintScenarios.NestedValidates | database/table_test.go:227-254 | `{"foo": [100]}` validates to the document holding Integer 100, whether 100 was read as Integer or Double |
| ConstraintScenarios.NestedStores | database/table_test.go:227-254 | the insert stores the converted document under the first generated key |
| ConstraintScenarios.ConvertNested | database/table_test.go:227-254 | the stored document holds Integer 100 at `foo[0]` |
| ConstraintScenarios.EmptyBlobKey | database/table_test.go:257-285 | inserting an empty blob as an Integer primary key fails and stores nothing |
| ConstraintScenarios.MixedValidates | database/table_test.go:334-368 | validation turns `bar` = Double 10 into Integer 10 and keeps `foo` and `baz` |
| ConstraintScenarios.MixedStores | database/table_test.go:334-368 | the insert stores the converted document under the first generated key |
| ConstraintScenarios.ConvertFields | database/table_test.go:334-368 | the stored document holds `foo` = Integer 1, `bar` = Integer 10, `baz` = Text "baaaaz" |
| ConstraintScenarios.NotNullValidates | database/table_test.go:371-424 | with or without a declared Integer type, a document without `foo` or with Null there is refused with NotNullViolation, and one with Double 1 passes |
| ConstraintScenarios.NotNullField | database/table_test.go:371-424 | with or without a declared type, inserts with `foo` missing or Null fail with NotNullViolation, and one with `foo` set succeeds |
| ConstraintScenarios.NotNullItemValidates | database/table_test.go:426-448 | a not-null `foo[1]` refuses a one-element array and accepts a two-element one |
| ConstraintScenarios.NotNullItem | database/table_test.go:426-448 | the insert with a one-element array fails with NotNullViolation, the one with two elements succeeds |
| IndexScenarios.CountFrom | database/table_test.go:621-629 | counting the hits of an iteration from a pivot gives the number of hits |
| IndexScenarios.InsertSynced | database/table_test.go:287-332 | an insert into a table without constraints or unique indexes keeps an index in agreement with the store |
| IndexScenarios.MissingFirst | database/table_test.go:311-331 | of two indexed documents, the one lacking the path is met first and the other second |
| IndexScenarios.FooPresence | database/table_test.go:305-309 | the first document indexes as Double 10 at `foo`; the second has no `foo` |
| IndexScenarios.FooIndexedTable | database/table_test.go:287-309 | after the two inserts, the `foo` index agrees with the two stored documents |
| IndexScenarios.IndexUpdatedOnInsert | database/table_test.go:287-332 | iterating the index from the zero value visits two entries, the second key first, then the first |
| IndexScenarios.ReIndexWithoutIndexes | database/table_test.go:575-581 | rebuilding a table without indexes succeeds |
| IndexScenarios.NumberedIntegers | database/table_test.go:594-597 | each numbered document holds an Integer at `a` and at `b` |
| IndexScenarios.NumberedTable | database/table_test.go:583-619 | a table of the ten numbered documents with empty indexes on `a` and `b` |
| IndexScenarios.RebuiltCount | database/table_test.go:621-652 | a rebuilt index on `a` or `b` meets one Integer entry per document |
| IndexScenarios.ReIndexNumbered | database/table_test.go:619-652 | after rebuilding, each of the table's indexes meets ten entries from the first Integer |
| IndexScenarios.ReIndexRightIndexes | database/table_test.go:583-659 | rebuilding the first table's indexes gives them ten entries each and leaves the second table's indexes with none |
| IndexScenarios.NoIndexesListed | database/table_test.go:663-670 | a table without indexes lists none |
| IndexScenarios.ListedPaths | database/table_test.go:704-715 | the listing of two indexes on `a` and `b` has two entries, under `a` and under `b` |
| IndexScenarios.ListedTable | database/table_test.go:672-702 | the first table ends up with its two indexes on `a` and `b`; the index on the other table is not among them |
| IndexScenarios.AllIndexesListed | database/table_test.go:672-716 | the table's listing has exactly two entries, under `a` and under `b` |

## Left out

- The msgpack codec and the in-memory storage engine: documents are stored as values, not encoded bytes.
- Transactions, `Begin`, `Commit` and rollback: an operation that fails leaves the table state as it was, standing for the enclosing transaction being rolled back. Engine errors (I/O, conflicts, closed transactions) are not modelled.
- Reopening a database as a process event: it is modelled only as `Tables.Table.Open` recomputing the counter from the stored keys.
- The byte formats of `key.AppendInt64` and `binary.Uvarint`: keys are abstract digit strings. The model keeps their injectivity and the order the tests rely on.
- Keys.UintOrder: generated keys are ordered by number, so `TableSpec.KeyOrder` and `Tables.Table.Iterate` visit them in numeric order. The stored keys are `binary.Uvarint` bytes (`database/table_test.go:186-190`), little-endian base 128, and they do not sort by number: 256 (`80 02`) sorts before 129 (`81 01`). The two orders agree up to 255: once a table has generated key 256, which sorts between 128 (`80 01`) and 129, the model's iteration order differs from the stored byte order. No test observes this.
- Keys.EncodeKey: primary-key values of different types can share a key: `Bool(true)`, `Integer(1)` and `Double(1)` all encode as `[1]`, and `Text("a")` and `Blob([97])` both as `[97]`. `Keys.KeyInjective` is proved only within one type. So a table whose primary key has no declared type treats such values as the same key, and the second insert fails with DuplicateDocument. With a declared type, `Constraints.Validate` converts a key value to that type or refuses it, so `Keys.KeyInjective` applies to the stored keys.
- The SQL path parser: paths are taken already parsed into segments.
- Floating point: a Double carries an integral payload, so conversion between Integer and Double is exact.
- The JSON reader: the two documents the tests read from JSON are written out as values. The number 100 in `{"foo": [100]}` is covered both as Integer and as Double.
- The benchmarks (`database/table_test.go:719-771`): they measure time only.
- `DescendLessOrEqual` and `ReIndex` of one named index: no test here uses them.
- The global namespace of index names across tables: each table owns its index map, so an index name is unique only within its table.
- Indexes.EntryBelow: values of different types are ordered by type first, so an Integer and a Double never compare by numeric value.
- Indexes.Set: a unique index treats Null as an ordinary value, so two documents lacking the path collide.
- Tables.Table.Iterate: the visitor is a pure function of the call's position and the document, so a visitor's own state (the tests' counters and maps) is rebuilt from the sequence of visited documents.
- Tables.Table.CreateIndex: creating an index does not fill it from existing documents. The tests show such an index staying empty until `ReIndex` (`database/table_test.go:583-659`). As a consequence, until `ReIndex` runs, `Delete` and `Replace` of a document stored before the index was created fail with IndexEntryNotFound, because its entry is missing; no test exercises this. The table invariant does not require indexes to agree with the documents, so `TableSpec.DeleteKeepsSynced` and `TableSpec.ReplaceKeepsSynced` assume indexes that agree with them.
- ConstraintScenarios.EmptyBlobKey: like the test (`database/table_test.go:257-285`), it states only that the insert fails. With the key declared as Integer, the error is IncompatibleType from conversion; `TableSpec.InsertRejectsEmptyKey` states the PrimaryKeyNotFound case for an untyped key.
- TableScenarios.TruncateEmptyTable: the test checks only that truncate succeeds. The model's truncate cannot fail, so the scenario states what follows: the table stays empty.
