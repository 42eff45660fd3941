/** Field constraints of a table and the check applied to a document before
    it is stored: values at typed paths are converted to the declared type,
    then not-null paths must hold a non-Null value. Also the primary-key
    extraction used by key generation. */
module Constraints {
  import opened Wrappers
  import opened Documents
  import opened Keys

  /** A constraint on the value at `path`: an optional declared type, and
      whether it is the primary key or must not be null. */
  datatype FieldConstraint = FieldConstraint(path: Path, typ: Option<ValueType>, isPrimaryKey: bool, isNotNull: bool)

  /** What a table is created with (a missing TableInfo is one with no constraints). */
  datatype TableInfo = TableInfo(constraints: seq<FieldConstraint>)

  /** The first primary-key constraint, if any. */
  function PrimaryKeyConstraint(cs: seq<FieldConstraint>): (r: Option<FieldConstraint>)
    ensures r.Some? ==> r.value in cs && r.value.isPrimaryKey
    ensures r.None? <==> forall c :: c in cs ==> !c.isPrimaryKey
    ensures r.Some? ==> exists i :: 0 <= i < |cs| && cs[i] == r.value && forall j :: 0 <= j < i ==> !cs[j].isPrimaryKey
  {
    if cs == [] then None
    else if cs[0].isPrimaryKey then Some(cs[0])
    else PrimaryKeyConstraint(cs[1..])
  }

  predicate MissingOrNull(d: Document, p: Path) {
    GetValue(d, p).None? || GetValue(d, p).value.Null?
  }

  /** A declared type holds at a path when the path is absent or holds Null
      or a value of that type. */
  predicate TypeHolds(d: Document, c: FieldConstraint) {
    c.typ.Some? && GetValue(d, c.path).Some? ==>
      GetValue(d, c.path).value.Null? || TypeOf(GetValue(d, c.path).value) == c.typ.value
  }

  predicate Disjoint(p: seq<Segment>, q: seq<Segment>) {
    !(p <= q) && !(q <= p)
  }

  /** Applies one constraint's declared type. */
  function ConvertAt(d: Document, c: FieldConstraint): Result<Document, Error> {
    if c.typ.None? || GetValue(d, c.path).None? then Success(d)
    else
      match Convert(GetValue(d, c.path).value, c.typ.value)
      case Failure(e) => Failure(e)
      case Success(w) => Success(SetValue(d, c.path, w))
  }

  /** Applies the declared types in declaration order; the first failure wins. */
  function ConvertAll(d: Document, cs: seq<FieldConstraint>): (r: Result<Document, Error>)
    ensures r.Failure? ==> r.error == IncompatibleType
    decreases |cs|
  {
    if cs == [] then Success(d)
    else
      match ConvertAt(d, cs[0])
      case Failure(e) => Failure(e)
      case Success(d1) => ConvertAll(d1, cs[1..])
  }

  /** The document as it is stored, or the first constraint failure. */
  function Validate(d: Document, cs: seq<FieldConstraint>): (r: Result<Document, Error>)
    ensures r.Failure? ==> r.error == IncompatibleType || r.error == NotNullViolation
    ensures r.Success? ==> forall c :: c in cs && c.isNotNull ==> !MissingOrNull(r.value, c.path)
  {
    match ConvertAll(d, cs)
    case Failure(e) => Failure(e)
    case Success(vd) =>
      if exists c :: c in cs && c.isNotNull && MissingOrNull(vd, c.path) then Failure(NotNullViolation)
      else Success(vd)
  }

  /** The key a primary-key constraint gives a (validated) document: the
      encoding of the value at its path; PrimaryKeyNotFound when the path is
      absent or the encoding is empty. */
  function PrimaryKeyOf(d: Document, c: FieldConstraint): (r: Result<Key, Error>)
    ensures r.Success? ==> |r.value| > 0
    ensures r.Success? <==> GetValue(d, c.path).Some? && |EncodeKey(GetValue(d, c.path).value)| > 0
    ensures r.Success? ==> r.value == EncodeKey(GetValue(d, c.path).value)
    ensures r.Failure? ==> r.error == PrimaryKeyNotFound
  {
    match GetValue(d, c.path)
    case None => Failure(PrimaryKeyNotFound)
    case Some(v) =>
      var k := EncodeKey(v);
      if |k| == 0 then Failure(PrimaryKeyNotFound) else Success(k)
  }

  /** A primary key is rejected exactly when its path is absent or holds
      Null, the empty text or the empty blob. */
  lemma PrimaryKeyRejects(d: Document, c: FieldConstraint)
    ensures PrimaryKeyOf(d, c).Failure? <==>
      GetValue(d, c.path).None? || GetValue(d, c.path).value in {Null, Text(""), Blob([])}
  {
    if GetValue(d, c.path).Some? {
      EmptyKey(GetValue(d, c.path).value);
    }
  }

  // ---- What validation guarantees ----------------------------------------

  lemma DocOfSetValue(d: Document, p: Path, nv: Value)
    requires GetValue(d, p).Some?
    ensures Doc(SetValue(d, p, nv)) == SetValueAt(Doc(d), p, nv)
  {
  }

  /** One conversion step makes its own declared type hold. */
  lemma ConvertAtHolds(d: Document, c: FieldConstraint)
    requires ConvertAt(d, c).Success?
    ensures TypeHolds(ConvertAt(d, c).value, c)
  {
  }

  /** One conversion step keeps every other path's declared type holding. */
  lemma {:induction false} ConvertAtKeeps(d: Document, c: FieldConstraint, c': FieldConstraint)
    requires ConvertAt(d, c).Success?
    requires TypeHolds(d, c') && c'.path != c.path
    ensures TypeHolds(ConvertAt(d, c).value, c')
  {
    if c.typ.None? || GetValue(d, c.path).None? || c'.typ.None? {
      return;
    }
    var p, q := c.path, c'.path;
    var v := GetValue(d, p).value;
    var w := Convert(v, c.typ.value).value;
    var d' := SetValue(d, p, w);
    assert ConvertAt(d, c).value == d';
    DocOfSetValue(d, p, w);
    if Disjoint(p, q) {
      SetDisjoint(Doc(d), p, q, w);
    } else if p <= q {
      var rest := q[|p|..];
      assert q == p + rest;
      if w == v {
        SetSame(Doc(d), p);
      } else {
        // Only a number converts to something else, and a number has no
        // value below it.
        assert NumberOf(w).Some?;
        SetThenGetBelow(Doc(d), p, rest, w);
        assert rest != [];
        assert ValueAt(w, rest) == None;
      }
    } else {
      var rest := p[|q|..];
      assert p == q + rest;
      assert rest != [];
      GetAboveSet(Doc(d), q, rest, w);
      var u := ValueAt(Doc(d), q).value;
      assert ValueAt(u, rest).Some?;
      assert u.Doc? || u.Array?;
    }
  }

  /** The rest of the conversions keep a declared type holding at a path
      that none of them names. */
  lemma {:induction false} ConvertAllKeeps(d: Document, cs: seq<FieldConstraint>, c': FieldConstraint)
    requires ConvertAll(d, cs).Success?
    requires TypeHolds(d, c')
    requires forall c :: c in cs ==> c.path != c'.path
    ensures TypeHolds(ConvertAll(d, cs).value, c')
    decreases |cs|
  {
    if cs != [] {
      ConvertAtKeeps(d, cs[0], c');
      ConvertAllKeeps(ConvertAt(d, cs[0]).value, cs[1..], c');
    }
  }

  predicate DistinctPaths(cs: seq<FieldConstraint>) {
    forall i, j :: 0 <= i < j < |cs| ==> cs[i].path != cs[j].path
  }

  /** When no two constraints name the same path, every declared type holds
      in the converted document. */
  lemma {:induction false} ConvertAllHolds(d: Document, cs: seq<FieldConstraint>)
    requires ConvertAll(d, cs).Success?
    requires DistinctPaths(cs)
    ensures forall c :: c in cs ==> TypeHolds(ConvertAll(d, cs).value, c)
    decreases |cs|
  {
    if cs != [] {
      var d1 := ConvertAt(d, cs[0]).value;
      ConvertAtHolds(d, cs[0]);
      forall c | c in cs[1..]
        ensures c.path != cs[0].path
      {
        var j :| 0 <= j < |cs[1..]| && cs[1..][j] == c;
        assert cs[j + 1] == c;
      }
      ConvertAllKeeps(d1, cs[1..], cs[0]);
      assert DistinctPaths(cs[1..]) by {
        forall i, j | 0 <= i < j < |cs[1..]| ensures cs[1..][i].path != cs[1..][j].path {
          assert cs[1..][i] == cs[i + 1] && cs[1..][j] == cs[j + 1];
        }
      }
      ConvertAllHolds(d1, cs[1..]);
      assert forall c :: c in cs ==> c == cs[0] || c in cs[1..];
    }
  }

  /** A stored document satisfies every constraint of its table: the value
      at each typed path is Null or of the declared type, and each not-null
      path holds a non-Null value. */
  lemma ValidatedSatisfies(d: Document, cs: seq<FieldConstraint>)
    requires Validate(d, cs).Success?
    requires DistinctPaths(cs)
    ensures forall c :: c in cs ==> TypeHolds(Validate(d, cs).value, c)
    ensures forall c :: c in cs && c.isNotNull ==> !MissingOrNull(Validate(d, cs).value, c.path)
  {
    ConvertAllHolds(d, cs);
  }

  /** One conversion step keeps the value of every path with no typed
      constraint at or below it: a value above such a path converts only to
      itself, because only a number converts to something else and a number
      has nothing below it. */
  lemma {:induction false} ConvertAtKeepsValue(d: Document, c: FieldConstraint, q: Path)
    requires ConvertAt(d, c).Success?
    requires c.typ.Some? ==> !(q <= c.path)
    ensures GetValue(ConvertAt(d, c).value, q) == GetValue(d, q)
  {
    if c.typ.None? || GetValue(d, c.path).None? {
      return;
    }
    var p := c.path;
    var v := GetValue(d, p).value;
    var w := Convert(v, c.typ.value).value;
    assert ConvertAt(d, c).value == SetValue(d, p, w);
    DocOfSetValue(d, p, w);
    if Disjoint(p, q) {
      SetDisjoint(Doc(d), p, q, w);
    } else {
      var rest := q[|p|..];
      assert q == p + rest && rest != [];
      ValueAtAppend(Doc(d), p, rest);
      if w == v {
        SetSame(Doc(d), p);
      } else {
        assert NumberOf(v).Some? && NumberOf(w).Some?;
        SetThenGetBelow(Doc(d), p, rest, w);
      }
    }
  }

  /** The rest of the conversions keep the value of a path with no typed
      constraint at or below it. */
  lemma {:induction false} ConvertAllUnrelated(d: Document, cs: seq<FieldConstraint>, q: Path)
    requires ConvertAll(d, cs).Success?
    requires forall c :: c in cs && c.typ.Some? ==> !(q <= c.path)
    ensures GetValue(ConvertAll(d, cs).value, q) == GetValue(d, q)
    decreases |cs|
  {
    if cs != [] {
      ConvertAtKeepsValue(d, cs[0], q);
      assert forall c' :: c' in cs[1..] ==> c' in cs;
      ConvertAllUnrelated(ConvertAt(d, cs[0]).value, cs[1..], q);
    }
  }

  /** Paths with no typed constraint at or below them are stored unchanged. */
  lemma ValidatedUnrelated(d: Document, cs: seq<FieldConstraint>, q: Path)
    requires Validate(d, cs).Success?
    requires forall c :: c in cs && c.typ.Some? ==> !(q <= c.path)
    ensures GetValue(Validate(d, cs).value, q) == GetValue(d, q)
  {
    ConvertAllUnrelated(d, cs, q);
  }

  /** A typed path with no other typed constraint at or below it is stored
      as the conversion of the value the document had there; constraints on
      the paths above it are allowed. */
  lemma {:induction false} ConvertAllConverts(d: Document, cs: seq<FieldConstraint>, i: nat)
    requires ConvertAll(d, cs).Success?
    requires i < |cs| && cs[i].typ.Some? && GetValue(d, cs[i].path).Some?
    requires forall j :: 0 <= j < |cs| && j != i && cs[j].typ.Some? ==> !(cs[i].path <= cs[j].path)
    ensures Convert(GetValue(d, cs[i].path).value, cs[i].typ.value).Success?
    ensures GetValue(ConvertAll(d, cs).value, cs[i].path) ==
            Some(Convert(GetValue(d, cs[i].path).value, cs[i].typ.value).value)
    decreases |cs|
  {
    var c := cs[0];
    var d1 := ConvertAt(d, c).value;
    if i == 0 {
      var w := Convert(GetValue(d, c.path).value, c.typ.value).value;
      assert GetValue(d1, c.path) == Some(w);
      forall c' | c' in cs[1..] && c'.typ.Some?
        ensures !(c.path <= c'.path)
      {
        var j :| 0 <= j < |cs[1..]| && cs[1..][j] == c';
        assert cs[j + 1] == c';
      }
      ConvertAllUnrelated(d1, cs[1..], c.path);
    } else {
      ConvertAtKeepsValue(d, c, cs[i].path);
      forall j | 0 <= j < |cs[1..]| && j != i - 1 && cs[1..][j].typ.Some?
        ensures !(cs[1..][i - 1].path <= cs[1..][j].path)
      {
        assert cs[1..][j] == cs[j + 1];
      }
      ConvertAllConverts(d1, cs[1..], i - 1);
    }
  }

  /** One conversion step never changes whether a path is absent or holds
      Null: Null stays Null, and a number, which has nothing below it, is
      replaced by a number. */
  lemma {:induction false} ConvertAtPresence(d: Document, c: FieldConstraint, q: Path)
    requires ConvertAt(d, c).Success?
    ensures MissingOrNull(ConvertAt(d, c).value, q) <==> MissingOrNull(d, q)
  {
    if c.typ.None? || GetValue(d, c.path).None? {
      return;
    }
    if !(q <= c.path) {
      ConvertAtKeepsValue(d, c, q);
      return;
    }
    var p := c.path;
    var v := GetValue(d, p).value;
    var w := Convert(v, c.typ.value).value;
    assert ConvertAt(d, c).value == SetValue(d, p, w);
    DocOfSetValue(d, p, w);
    if q != p {
      var rest := p[|q|..];
      assert p == q + rest && rest != [];
      GetAboveSet(Doc(d), q, rest, w);
      var u := ValueAt(Doc(d), q).value;
      assert ValueAt(u, rest).Some?;
      assert u.Doc? || u.Array?;
    }
  }

  /** The conversions never change whether a path is absent or holds Null. */
  lemma {:induction false} ConvertAllPresence(d: Document, cs: seq<FieldConstraint>, q: Path)
    requires ConvertAll(d, cs).Success?
    ensures MissingOrNull(ConvertAll(d, cs).value, q) <==> MissingOrNull(d, q)
    decreases |cs|
  {
    if cs != [] {
      ConvertAtPresence(d, cs[0], q);
      ConvertAllPresence(ConvertAt(d, cs[0]).value, cs[1..], q);
    }
  }

  /** Whatever the declared types, a document whose not-null path is absent
      or Null is refused, and one whose declared types apply and whose
      not-null paths are all set is accepted. */
  lemma ValidateNotNull(d: Document, cs: seq<FieldConstraint>)
    ensures (exists c :: c in cs && c.isNotNull && MissingOrNull(d, c.path)) ==> Validate(d, cs).Failure?
    ensures ConvertAll(d, cs).Success? ==>
      (Validate(d, cs).Success? <==> forall c :: c in cs && c.isNotNull ==> !MissingOrNull(d, c.path))
    ensures ConvertAll(d, cs).Success? && Validate(d, cs).Failure? ==> Validate(d, cs).error == NotNullViolation
    ensures ConvertAll(d, cs).Failure? ==> Validate(d, cs) == Failure(IncompatibleType)
  {
    if ConvertAll(d, cs).Success? {
      forall c | c in cs
        ensures MissingOrNull(ConvertAll(d, cs).value, c.path) <==> MissingOrNull(d, c.path)
      {
        ConvertAllPresence(d, cs, c.path);
      }
    }
  }

  /** Without declared types, validation stores the document as it is, and
      accepts it exactly when every not-null path holds a non-Null value. */
  lemma {:induction false} ValidateUntyped(d: Document, cs: seq<FieldConstraint>)
    requires forall c :: c in cs ==> c.typ.None?
    ensures Validate(d, cs).Success? <==> forall c :: c in cs && c.isNotNull ==> !MissingOrNull(d, c.path)
    ensures Validate(d, cs).Success? ==> Validate(d, cs).value == d
  {
    ConvertAllUntyped(d, cs);
  }

  lemma {:induction false} ConvertAllUntyped(d: Document, cs: seq<FieldConstraint>)
    requires forall c :: c in cs ==> c.typ.None?
    ensures ConvertAll(d, cs) == Success(d)
    decreases |cs|
  {
    if cs != [] {
      assert forall c :: c in cs[1..] ==> c in cs;
      ConvertAllUntyped(d, cs[1..]);
    }
  }
}
