/** Secondary indexes. An index belongs to one table and indexes one path: it
    holds one entry per document, the indexed encoding of the document's
    value at that path (Null when the path is absent) paired with the
    document's key, kept in ascending order of value and then key. A unique
    index holds each value at most once. */
module Indexes {
  import opened Wrappers
  import opened Documents
  import opened Keys
  import opened Visiting

  datatype Entry = Entry(value: seq<int>, key: Key)

  /** Entries are ordered by value, then by document key. */
  predicate EntryBelow(a: Entry, b: Entry) {
    Below(a.value, b.value) || (a.value == b.value && Below(a.key, b.key))
  }

  lemma EntryBelowIrreflexive(a: Entry)
    ensures !EntryBelow(a, a)
  {
    BelowIrreflexive(a.value);
    BelowIrreflexive(a.key);
  }

  lemma EntryBelowTransitive(a: Entry, b: Entry, c: Entry)
    requires EntryBelow(a, b) && EntryBelow(b, c)
    ensures EntryBelow(a, c)
  {
    if Below(a.value, b.value) && Below(b.value, c.value) {
      BelowTransitive(a.value, b.value, c.value);
    } else if a.value == b.value && b.value == c.value {
      BelowTransitive(a.key, b.key, c.key);
    }
  }

  lemma EntryBelowTotal(a: Entry, b: Entry)
    ensures a == b || EntryBelow(a, b) || EntryBelow(b, a)
  {
    BelowTotal(a.value, b.value);
    BelowTotal(a.key, b.key);
  }

  /** Strictly ascending, hence also free of repetitions. */
  predicate Sorted(s: seq<Entry>) {
    forall i, j :: 0 <= i < j < |s| ==> EntryBelow(s[i], s[j])
  }

  lemma {:induction false} SortedCons(h: Entry, s: seq<Entry>)
    requires Sorted(s)
    requires forall x :: x in s ==> EntryBelow(h, x)
    ensures Sorted([h] + s)
    ensures h !in s
  {
    var r := [h] + s;
    forall i, j | 0 <= i < j < |r| ensures EntryBelow(r[i], r[j]) {
      if i == 0 {
        assert r[j] == s[j - 1];
      } else {
        assert r[i] == s[i - 1] && r[j] == s[j - 1];
      }
    }
    if h in s {
      EntryBelowIrreflexive(h);
    }
  }

  lemma {:induction false} SortedTail(s: seq<Entry>)
    requires Sorted(s) && s != []
    ensures Sorted(s[1..])
    ensures forall x :: x in s[1..] ==> EntryBelow(s[0], x)
    ensures s[0] !in s[1..]
  {
    forall x | x in s[1..] ensures EntryBelow(s[0], x) {
      var j :| 0 <= j < |s[1..]| && s[1..][j] == x;
      assert s[j + 1] == x;
    }
    assert s == [s[0]] + s[1..];
    SortedCons(s[0], s[1..]);
  }

  /** `s` with `e` added in its place (unchanged when `e` is already there). */
  function InsertSorted(s: seq<Entry>, e: Entry): (r: seq<Entry>)
    requires Sorted(s)
    ensures Sorted(r)
    ensures forall x :: x in r <==> x in s || x == e
    ensures |r| == if e in s then |s| else |s| + 1
  {
    if s == [] then [e]
    else
      SortedTail(s);
      if s[0] == e then s
      else if EntryBelow(e, s[0]) then
        assert forall x :: x in s ==> EntryBelow(e, x) by {
          forall x | x in s ensures EntryBelow(e, x) {
            if x != s[0] {
              EntryBelowTransitive(e, s[0], x);
            }
          }
        }
        SortedCons(e, s);
        [e] + s
      else
        EntryBelowTotal(e, s[0]);
        var t := InsertSorted(s[1..], e);
        SortedCons(s[0], t);
        [s[0]] + t
  }

  /** `s` without `e`. */
  function RemoveSorted(s: seq<Entry>, e: Entry): (r: seq<Entry>)
    requires Sorted(s)
    ensures Sorted(r)
    ensures forall x :: x in r <==> x in s && x != e
    ensures |r| == if e in s then |s| - 1 else |s|
  {
    if s == [] then []
    else
      SortedTail(s);
      if s[0] == e then s[1..]
      else
        var t := RemoveSorted(s[1..], e);
        SortedCons(s[0], t);
        [s[0]] + t
  }

  /** A secondary index: the path it indexes, whether it is unique, and its
      entries. (The index's name is the key it is registered under.) */
  datatype Index = Index(path: Path, unique: bool, entries: seq<Entry>)

  /** No two entries of a unique index hold the same value. */
  predicate UniqueValues(s: seq<Entry>) {
    forall x, y :: x in s && y in s && x != y ==> x.value != y.value
  }

  predicate IndexValid(ix: Index) {
    Sorted(ix.entries) && (ix.unique ==> UniqueValues(ix.entries))
  }

  /** Adds the entry (value, key). A unique index refuses a value it already
      holds for another key. */
  function Set(ix: Index, value: seq<int>, key: Key): (r: Result<Index, Error>)
    requires IndexValid(ix)
    ensures r.Failure? <==> ix.unique && exists x :: x in ix.entries && x.value == value && x.key != key
    ensures r.Failure? ==> r.error == DuplicateValue
    ensures r.Success? ==> IndexValid(r.value) && r.value.path == ix.path && r.value.unique == ix.unique
    ensures r.Success? ==> forall x :: x in r.value.entries <==> x in ix.entries || x == Entry(value, key)
  {
    if ix.unique && exists x :: x in ix.entries && x.value == value && x.key != key then Failure(DuplicateValue)
    else Success(ix.(entries := InsertSorted(ix.entries, Entry(value, key))))
  }

  /** Removes the entry (value, key); IndexEntryNotFound when it is absent. */
  function Delete(ix: Index, value: seq<int>, key: Key): (r: Result<Index, Error>)
    requires IndexValid(ix)
    ensures r.Success? <==> Entry(value, key) in ix.entries
    ensures r.Failure? ==> r.error == IndexEntryNotFound
    ensures r.Success? ==> IndexValid(r.value) && r.value.path == ix.path && r.value.unique == ix.unique
    ensures r.Success? ==> forall x :: x in r.value.entries <==> x in ix.entries && x != Entry(value, key)
    ensures r.Success? ==> |r.value.entries| == |ix.entries| - 1
  {
    if Entry(value, key) !in ix.entries then Failure(IndexEntryNotFound)
    else Success(ix.(entries := RemoveSorted(ix.entries, Entry(value, key))))
  }

  // ---- Agreement with the stored documents --------------------------------

  /** The value a document is indexed under: Null when the path is absent. */
  function IndexedValue(d: Document, p: Path): (v: Value)
    ensures GetValue(d, p).None? ==> v == Null
    ensures GetValue(d, p).Some? ==> v == GetValue(d, p).value
  {
    match GetValue(d, p)
    case None => Null
    case Some(v) => v
  }

  function EntryFor(d: Document, k: Key, p: Path): Entry {
    Entry(EncodeIndexed(IndexedValue(d, p)), k)
  }

  /** The index holds exactly one entry per stored document, for the
      document's value at the index path. */
  predicate Synced(ix: Index, docs: map<Key, Document>) {
    && (forall x :: x in ix.entries ==> x.key in docs && x == EntryFor(docs[x.key], x.key, ix.path))
    && (forall k :: k in docs ==> EntryFor(docs[k], k, ix.path) in ix.entries)
  }

  lemma SyncedHas(ix: Index, docs: map<Key, Document>, k: Key)
    requires Synced(ix, docs) && k in docs
    ensures EntryFor(docs[k], k, ix.path) in ix.entries
  {
  }

  /** Two stored documents have the same value at the path of a unique index. */
  predicate UniqueViolated(p: Path, unique: bool, docs: map<Key, Document>) {
    unique && exists k1, k2 :: k1 in docs && k2 in docs && k1 != k2 && IndexedValue(docs[k1], p) == IndexedValue(docs[k2], p)
  }

  /** An index in agreement with the documents holds as many entries as there
      are documents. */
  lemma SyncedCount(ix: Index, docs: map<Key, Document>)
    requires IndexValid(ix) && Synced(ix, docs)
    ensures |ix.entries| == |docs|
  {
    KeysCount(ix.entries, docs.Keys);
  }

  lemma {:induction false} KeysCount(s: seq<Entry>, ks: set<Key>)
    requires Sorted(s)
    requires forall i, j :: 0 <= i < |s| && 0 <= j < |s| && s[i].key == s[j].key ==> s[i] == s[j]
    requires forall x :: x in s ==> x.key in ks
    requires forall k :: k in ks ==> exists x :: x in s && x.key == k
    ensures |s| == |ks|
  {
    if s == [] {
      assert forall k :: k !in ks;
      assert ks == {};
    } else {
      SortedTail(s);
      var t := s[1..];
      var ks' := ks - {s[0].key};
      forall i, j | 0 <= i < |t| && 0 <= j < |t| && t[i].key == t[j].key ensures t[i] == t[j] {
        assert t[i] == s[i + 1] && t[j] == s[j + 1];
      }
      forall x | x in t ensures x.key in ks' {
        var j :| 0 <= j < |t| && t[j] == x;
        assert s[j + 1] == x;
      }
      forall k | k in ks' ensures exists x :: x in t && x.key == k {
        var x :| x in s && x.key == k;
        assert x != s[0];
      }
      KeysCount(t, ks');
    }
  }

  /** Within an index in agreement with the documents, the entries of the
      documents indexed as Null come before all others. */
  lemma NullsFirst(ix: Index, docs: map<Key, Document>, i: nat, j: nat)
    requires IndexValid(ix) && Synced(ix, docs)
    requires i < j < |ix.entries|
    requires ix.entries[j].value == EncodeIndexed(Null)
    ensures ix.entries[i].value == EncodeIndexed(Null)
  {
    var x, y := ix.entries[i], ix.entries[j];
    assert x in ix.entries;
    var v := IndexedValue(docs[x.key], ix.path);
    if v != Null {
      NullFirst(v);
      assert EntryBelow(x, y);
      if x.value == y.value {
        IndexedInjective(v, Null);
      } else {
        BelowAsymmetric(x.value, y.value);
      }
    }
  }

  /** In an index in agreement with the documents, the entry of a document
      lacking the indexed path sorts before the entry of any document that
      has a non-Null value there. */
  lemma MissingSortsFirst(ix: Index, docs: map<Key, Document>, k1: Key, k2: Key)
    requires IndexValid(ix) && Synced(ix, docs)
    requires k1 in docs && k2 in docs
    requires GetValue(docs[k1], ix.path).None?
    requires IndexedValue(docs[k2], ix.path) != Null
    ensures EntryBelow(EntryFor(docs[k1], k1, ix.path), EntryFor(docs[k2], k2, ix.path))
  {
    NullFirst(IndexedValue(docs[k2], ix.path));
  }

  // ---- Range iteration ----------------------------------------------------

  /** Where an ascending iteration starts: every value, every value of one
      type and above, or every value at or above a given one. */
  datatype Pivot = Any | AnyOfType(t: ValueType) | From(v: Value)

  function PivotKey(p: Pivot): seq<int> {
    match p
    case Any => []
    case AnyOfType(t) => [Tag(t)]
    case From(v) => EncodeIndexed(v)
  }

  /** The position of the first entry whose value is not below `pk`. */
  function Seek(s: seq<Entry>, pk: seq<int>): (i: nat)
    ensures i <= |s|
    ensures forall j :: 0 <= j < i ==> Below(s[j].value, pk)
    ensures i < |s| ==> !Below(s[i].value, pk)
  {
    if s == [] || !Below(s[0].value, pk) then 0 else 1 + Seek(s[1..], pk)
  }

  /** In a sorted index the entries from the seek position on are exactly
      those whose value is at or above the pivot. */
  lemma AtOrAboveExact(s: seq<Entry>, pk: seq<int>)
    requires Sorted(s)
    ensures forall x :: x in s[Seek(s, pk)..] <==> x in s && !Below(x.value, pk)
  {
    var i := Seek(s, pk);
    forall x | x in s && !Below(x.value, pk) ensures x in s[i..] {
      var j :| 0 <= j < |s| && s[j] == x;
      assert s[i..][j - i] == x;
    }
    forall x | x in s[i..] ensures !Below(x.value, pk) {
      var j :| i <= j < |s| && s[j] == x;
      if j > i && Below(x.value, pk) {
        assert EntryBelow(s[i], s[j]);
        if s[i].value != x.value {
          BelowTransitive(s[i].value, x.value, pk);
        }
      }
    }
  }

  /** What a visitor of an ascending iteration is handed: the entry, and
      whether its value equals the pivot value. */
  datatype Hit = Hit(value: seq<int>, key: Key, isEqual: bool)

  function HitOf(e: Entry, p: Pivot): Hit {
    Hit(e.value, e.key, p.From? && e.value == EncodeIndexed(p.v))
  }

  /** The hits of an ascending iteration from `p`, in order. */
  function Hits(ix: Index, p: Pivot): (hs: seq<Hit>)
    ensures |hs| == |ix.entries| - Seek(ix.entries, PivotKey(p))
    ensures forall j :: 0 <= j < |hs| ==>
      hs[j] == HitOf(ix.entries[Seek(ix.entries, PivotKey(p)) + j], p)
  {
    var i := Seek(ix.entries, PivotKey(p));
    seq(|ix.entries| - i, j requires 0 <= j < |ix.entries| - i => HitOf(ix.entries[i + j], p))
  }

  /** Iterating from Any visits every entry. */
  lemma AnyPivotAll(ix: Index)
    ensures Seek(ix.entries, PivotKey(Any)) == 0
  {
  }

  /** Iterating from a type visits every entry of that type. */
  lemma TypePivotKeepsType(ix: Index, v: Value, k: Key)
    requires IndexValid(ix) && Entry(EncodeIndexed(v), k) in ix.entries
    ensures Entry(EncodeIndexed(v), k) in ix.entries[Seek(ix.entries, PivotKey(AnyOfType(TypeOf(v))))..]
  {
    var pk := PivotKey(AnyOfType(TypeOf(v)));
    var e := EncodeIndexed(v);
    assert e[1..] == Body(v);
    assert Below(e, pk) == (|pk| > 0 && (e[0] < pk[0] || (e[0] == pk[0] && Below(e[1..], pk[1..]))));
    AtOrAboveExact(ix.entries, pk);
  }

  /** An index in agreement with documents that all hold a value of type
      `t` at its path yields one hit per document from the pivot of `t`. */
  lemma TypedHits(ix: Index, docs: map<Key, Document>, t: ValueType)
    requires IndexValid(ix) && Synced(ix, docs)
    requires forall k :: k in docs ==> TypeOf(IndexedValue(docs[k], ix.path)) == t
    ensures |Hits(ix, AnyOfType(t))| == |docs|
  {
    SyncedCount(ix, docs);
    if ix.entries != [] {
      var x := ix.entries[0];
      assert x in ix.entries;
      var e := EncodeIndexed(IndexedValue(docs[x.key], ix.path));
      assert x.value == e && e[0] == Tag(t);
      assert [Tag(t)][1..] == [];
      assert !Below(e[1..], []);
      assert !Below(x.value, PivotKey(AnyOfType(t)));
      assert Seek(ix.entries, PivotKey(AnyOfType(t))) == 0;
    }
  }

  /** The first position is the only one with every entry before it below
      the pivot and itself not below. */
  lemma SeekUnique(s: seq<Entry>, pk: seq<int>, i: nat)
    requires i <= |s|
    requires forall j :: 0 <= j < i ==> Below(s[j].value, pk)
    requires i < |s| ==> !Below(s[i].value, pk)
    ensures i == Seek(s, pk)
  {
  }

  /** Positions the iteration on the first entry at or above `pk`. */
  method SeekTo(s: seq<Entry>, pk: seq<int>) returns (i: nat)
    ensures i == Seek(s, pk)
  {
    i := 0;
    while i < |s| && Below(s[i].value, pk)
      invariant i <= |s|
      invariant forall j :: 0 <= j < i ==> Below(s[j].value, pk)
    {
      i := i + 1;
    }
    SeekUnique(s, pk, i);
  }

  /** Ascending iteration from the pivot, handing each hit to `visit` until
      it returns an error. */
  method AscendGreaterOrEqual(ix: Index, pivot: Pivot, visit: (nat, Hit) -> Option<string>)
    returns (err: Option<string>, visited: seq<Hit>)
    ensures VisitedUntilError(Hits(ix, pivot), visit, visited, err)
  {
    var i := SeekTo(ix.entries, PivotKey(pivot));
    ghost var hits := Hits(ix, pivot);
    visited := [];
    var j := 0;
    while i + j < |ix.entries|
      invariant i + j <= |ix.entries|
      invariant visited == hits[..j]
      invariant forall m :: 0 <= m < j ==> visit(m, hits[m]).None?
    {
      var h := HitOf(ix.entries[i + j], pivot);
      assert h == hits[j];
      PrefixStep(hits, j);
      var e := visit(j, h);
      if e.Some? {
        StoppedAt(hits, visit, j, e);
        return e, visited + [h];
      }
      visited := visited + [h];
      j := j + 1;
    }
    assert hits[..j] == hits;
    return None, visited;
  }

  // ---- Rebuilding and keeping an index in agreement ----------------------

  function Restrict(docs: map<Key, Document>, ks: set<Key>): (r: map<Key, Document>)
    ensures r.Keys == docs.Keys * ks
    ensures forall k :: k in r ==> r[k] == docs[k]
  {
    map k | k in docs && k in ks :: docs[k]
  }

  /** Adding a new document's entry keeps an index in agreement, when it
      succeeds. */
  lemma SetKeepsSynced(ix: Index, docs: map<Key, Document>, k: Key, d: Document)
    requires IndexValid(ix) && Synced(ix, docs) && k !in docs
    requires Set(ix, EntryFor(d, k, ix.path).value, k).Success?
    ensures Synced(Set(ix, EntryFor(d, k, ix.path).value, k).value, docs[k := d])
  {
  }

  /** Adding a new document's entry fails only when two documents would then
      share a value in a unique index. */
  lemma SetFailsOnViolation(ix: Index, docs: map<Key, Document>, k: Key, d: Document)
    requires IndexValid(ix) && Synced(ix, docs) && k !in docs
    ensures Set(ix, EntryFor(d, k, ix.path).value, k).Failure? <==> UniqueViolated(ix.path, ix.unique, docs[k := d])
  {
    var docs' := docs[k := d];
    var e := EntryFor(d, k, ix.path);
    if Set(ix, e.value, k).Failure? {
      var x :| x in ix.entries && x.value == e.value && x.key != k;
      IndexedInjective(IndexedValue(docs[x.key], ix.path), IndexedValue(d, ix.path));
      assert x.key in docs' && k in docs';
    }
  }

  /** An index in agreement with the documents witnesses that no two of them
      share a value of a unique index. */
  lemma SyncedNoViolation(ix: Index, docs: map<Key, Document>)
    requires IndexValid(ix) && Synced(ix, docs)
    ensures !UniqueViolated(ix.path, ix.unique, docs)
  {

  }

  /** Removing a stored document's entry always succeeds on an index in
      agreement, and keeps it in agreement. */
  lemma DeleteKeepsSynced(ix: Index, docs: map<Key, Document>, k: Key)
    requires IndexValid(ix) && Synced(ix, docs) && k in docs
    ensures Delete(ix, EntryFor(docs[k], k, ix.path).value, k).Success?
    ensures Synced(Delete(ix, EntryFor(docs[k], k, ix.path).value, k).value, docs - {k})
  {
  }

  /** The index agrees with the documents whose keys are in `done`. */
  predicate SyncedOn(ix: Index, docs: map<Key, Document>, done: set<Key>) {
    && (forall x :: x in ix.entries ==> x.key in docs && x.key in done && x == EntryFor(docs[x.key], x.key, ix.path))
    && (forall k :: k in docs && k in done ==> EntryFor(docs[k], k, ix.path) in ix.entries)
  }

  lemma SyncedOnRestrict(ix: Index, docs: map<Key, Document>, done: set<Key>)
    ensures SyncedOn(ix, docs, done) <==> Synced(ix, Restrict(docs, done))
  {
  }

  /** One step of a rebuild: adding the entry of one more document. */
  lemma RebuildStep(acc: Index, docs: map<Key, Document>, done: set<Key>, k: Key)
    requires IndexValid(acc) && SyncedOn(acc, docs, done)
    requires k in docs && k !in done
    ensures Set(acc, EntryFor(docs[k], k, acc.path).value, k).Failure? ==> UniqueViolated(acc.path, acc.unique, docs)
    ensures Set(acc, EntryFor(docs[k], k, acc.path).value, k).Success? ==>
      SyncedOn(Set(acc, EntryFor(docs[k], k, acc.path).value, k).value, docs, done + {k})
  {
    SyncedOnRestrict(acc, docs, done);
    var sub := Restrict(docs, done);
    assert Restrict(docs, done + {k}) == sub[k := docs[k]];
    SetFailsOnViolation(acc, sub, k, docs[k]);
    if Set(acc, EntryFor(docs[k], k, acc.path).value, k).Failure? {
      var sub' := sub[k := docs[k]];
      var k1, k2 :| k1 in sub' && k2 in sub' && k1 != k2 && IndexedValue(sub'[k1], acc.path) == IndexedValue(sub'[k2], acc.path);
      assert k1 in docs && k2 in docs;
    } else {
      SetKeepsSynced(acc, sub, k, docs[k]);
      SyncedOnRestrict(Set(acc, EntryFor(docs[k], k, acc.path).value, k).value, docs, done + {k});
    }
  }

  /** Empties the index and adds one entry per document. Fails with
      DuplicateValue exactly when two documents share a value of a unique
      index; otherwise the result agrees with the documents. */
  method Rebuild(ix: Index, docs: map<Key, Document>) returns (r: Result<Index, Error>)
    ensures r.Success? <==> !UniqueViolated(ix.path, ix.unique, docs)
    ensures r.Failure? ==> r.error == DuplicateValue
    ensures r.Success? ==> r.value.path == ix.path && r.value.unique == ix.unique
    ensures r.Success? ==> IndexValid(r.value) && Synced(r.value, docs)
  {
    var acc := Index(ix.path, ix.unique, []);
    var rest := docs.Keys;
    ghost var done: set<Key> := {};
    RebuildStart(ix, docs);
    while rest != {}
      invariant RebuildInv(ix, acc, docs, done, rest)
      decreases |rest|
    {
      var k :| k in rest;
      var s := AddEntry(ix, acc, docs, done, rest, k);
      if s.Failure? {
        return Failure(s.error);
      }
      acc := s.value;
      rest := rest - {k};
      done := done + {k};
    }
    RebuildDone(acc, docs, done);
    return Success(acc);
  }

  /** What a rebuild keeps from one document to the next: the keys still to
      add and those added partition the documents, and the index agrees with
      the documents added. */
  ghost predicate RebuildInv(ix: Index, acc: Index, docs: map<Key, Document>, done: set<Key>, rest: set<Key>) {
    && rest + done == docs.Keys && rest !! done
    && acc.path == ix.path && acc.unique == ix.unique
    && IndexValid(acc) && SyncedOn(acc, docs, done)
  }

  /** Adds the entry of document `k` to a partly rebuilt index. */
  method AddEntry(ix: Index, acc: Index, docs: map<Key, Document>, ghost done: set<Key>, ghost rest: set<Key>, k: Key)
    returns (s: Result<Index, Error>)
    requires RebuildInv(ix, acc, docs, done, rest) && k in rest
    ensures s.Failure? ==> s.error == DuplicateValue && UniqueViolated(ix.path, ix.unique, docs)
    ensures s.Success? ==> RebuildInv(ix, s.value, docs, done + {k}, rest - {k})
  {
    RebuildStep(acc, docs, done, k);
    s := Set(acc, EntryFor(docs[k], k, ix.path).value, k);
  }

  lemma RebuildStart(ix: Index, docs: map<Key, Document>)
    ensures RebuildInv(ix, Index(ix.path, ix.unique, []), docs, {}, docs.Keys)
  {
  }

  lemma RebuildDone(acc: Index, docs: map<Key, Document>, done: set<Key>)
    requires IndexValid(acc) && SyncedOn(acc, docs, done) && done == docs.Keys
    ensures Synced(acc, docs) && !UniqueViolated(acc.path, acc.unique, docs)
  {
    SyncedNoViolation(acc, docs);
  }

  /** Two indexes on the same path in agreement with the same documents hold
      the same entries in the same order: a rebuilt index is determined by
      the documents. */
  lemma {:induction false} SyncedDetermined(a: Index, b: Index, docs: map<Key, Document>)
    requires IndexValid(a) && IndexValid(b) && a.path == b.path
    requires Synced(a, docs) && Synced(b, docs)
    ensures a.entries == b.entries
  {
    assert forall x :: x in a.entries <==> x in b.entries;
    SameSetSorted(a.entries, b.entries);
  }

  lemma {:induction false} SameSetSorted(s: seq<Entry>, t: seq<Entry>)
    requires Sorted(s) && Sorted(t)
    requires forall x :: x in s <==> x in t
    ensures s == t
    decreases |s|
  {
    assert s != [] ==> s[0] in t;
    assert t != [] ==> t[0] in s;
    if s != [] && t != [] {
      SortedTail(s);
      SortedTail(t);
      if s[0] != t[0] {
        assert s[0] in t && t[0] in s;
        assert s[0] in t[1..] && t[0] in s[1..];
        EntryBelowIrreflexive(s[0]);
        EntryBelowTransitive(s[0], t[0], s[0]);
      }
      forall x ensures x in s[1..] <==> x in t[1..] {
        assert x in s <==> x == s[0] || x in s[1..];
        assert x in t <==> x == t[0] || x in t[1..];
      }
      SameSetSorted(s[1..], t[1..]);
      assert s == [s[0]] + s[1..] && t == [t[0]] + t[1..];
    }
  }
}
