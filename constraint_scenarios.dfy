/** The documented behaviour of inserts into tables with field constraints:
    a primary key taken from a path, type conversion and not-null checks. */
module ConstraintScenarios {
  import opened Wrappers
  import opened Documents
  import opened Keys
  import opened Constraints
  import opened Tables
  import TableSpec
  import TableScenarios

  // ---- Primary key at a path ----------------------------------------------

  /** A table whose primary key is the Integer at `foo.a[1]`. */
  function PathKeyInfo(): TableInfo {
    TableInfo([FieldConstraint([FieldSel("foo"), FieldSel("a"), IndexSel(1)], Some(IntegerType), true, false)])
  }

  /** The document {"foo": {"a": [0, 10]}}. */
  function PathKeyDocument(): Document {
    [Field("foo", Doc([Field("a", Array([Integer(0), Integer(10)]))]))]
  }

  /** The document passes validation unchanged and its key is the encoding
      of 10. */
  lemma PathKeyValidates()
    ensures Validate(PathKeyDocument(), PathKeyInfo().constraints) == Success(PathKeyDocument())
    ensures PrimaryKeyConstraint(PathKeyInfo().constraints) == Some(PathKeyInfo().constraints[0])
    ensures GetValue(PathKeyDocument(), PathKeyInfo().constraints[0].path) == Some(Integer(10))
  {
    var d := PathKeyDocument();
    var c := PathKeyInfo().constraints[0];
    assert GetValue(d, c.path) == Some(Integer(10));
    assert ConvertAt(d, c) == Success(d) by {
      assert SetValue(d, c.path, Integer(10)) == d by {
        SetSame(Doc(d), c.path);
      }
    }
    assert ConvertAll(d, [c]) == Success(d);
  }

  /** The key of the inserted document is the encoding of its value at the
      primary-key path, the document can be fetched with it, and inserting
      it again is refused as a duplicate. */
  method PrimaryKeyFromPath() returns (k: Result<Key, Error>, fetched: Result<Document, Error>, again: Result<Key, Error>)
    ensures k == Success(EncodeInt64(10))
    ensures fetched == Success(PathKeyDocument())
    ensures again == Failure(DuplicateDocument)
  {
    var t := new Table(PathKeyInfo());
    PathKeyValidates();
    k := t.Insert(PathKeyDocument());
    fetched := t.GetDocument(k.value);
    again := t.Insert(PathKeyDocument());
  }

  // ---- Converting nested values -------------------------------------------

  /** A table declaring `foo` an Array and `foo[0]` an Integer. */
  function NestedInfo(): TableInfo {
    TableInfo([FieldConstraint([FieldSel("foo")], Some(ArrayType), false, false),
               FieldConstraint([FieldSel("foo"), IndexSel(0)], Some(IntegerType), false, false)])
  }

  /** {"foo": [100]}, with the number decoded as `v`. */
  function NestedDocument(v: Value): Document {
    [Field("foo", Array([v]))]
  }

  lemma NestedValidates(v: Value)
    requires v == Integer(100) || v == Double(100)
    ensures Validate(NestedDocument(v), NestedInfo().constraints) == Success(NestedDocument(Integer(100)))
  {
    var cs := NestedInfo().constraints;
    var d := NestedDocument(v);
    assert ConvertAt(d, cs[0]) == Success(d) by {
      SetSame(Doc(d), cs[0].path);
    }
    NestedItemConverts(v);
    assert ConvertAll(NestedDocument(Integer(100)), cs[2..]) == Success(NestedDocument(Integer(100)));
  }

  lemma NestedItemConverts(v: Value)
    requires v == Integer(100) || v == Double(100)
    ensures ConvertAt(NestedDocument(v), NestedInfo().constraints[1]) == Success(NestedDocument(Integer(100)))
  {
    var c := NestedInfo().constraints[1];
    var d := NestedDocument(v);
    assert GetValue(d, c.path) == Some(v);
    assert Convert(v, IntegerType) == Success(Integer(100));
    assert SetValue(d, c.path, Integer(100)) == NestedDocument(Integer(100)) by {
      assert FieldIndex(d, "foo") == Some(0);
      assert SetValueAt(Array([v]), [IndexSel(0)], Integer(100)) == Array([Integer(100)]) by {
        assert [IndexSel(0)][1..] == [];
        assert [v][0 := Integer(100)] == [Integer(100)];
      }
      assert c.path[1..] == [IndexSel(0)];
      assert d[0 := Field("foo", Array([Integer(100)]))] == NestedDocument(Integer(100));
    }
  }

  /** Inserted into an empty table the document is stored converted, under
      the first generated key. */
  lemma NestedStores(v: Value)
    requires v == Integer(100) || v == Double(100)
    ensures TableSpec.Insert(NestedInfo(), TableSpec.Empty(), NestedDocument(v)) ==
      Success((EncodeUint(1), TableSpec.TableState(map[EncodeUint(1) := NestedDocument(Integer(100))], 1, map[])))
  {
    NestedValidates(v);
    TableScenarios.InsertIntoEmpty(NestedInfo(), NestedDocument(v), NestedDocument(Integer(100)));
  }

  /** The number at `foo[0]` is stored as the Integer 100, whether it was
      decoded as an Integer or a Double. */
  method ConvertNested(v: Value) returns (at: Option<Value>)
    requires v == Integer(100) || v == Double(100)
    ensures at == Some(Integer(100))
  {
    var t := new Table(NestedInfo());
    NestedStores(v);
    NestedValidates(v);
    // `foo[0]` holds the conversion of `v`; the Array constraint on `foo`
    // lies above it.
    assert FieldIndex(NestedDocument(v), "foo") == Some(0);
    ConvertAllConverts(NestedDocument(v), NestedInfo().constraints, 1);
    var k := t.Insert(NestedDocument(v));
    var d := t.GetDocument(k.value);
    at := GetValue(d.value, [FieldSel("foo"), IndexSel(0)]);
  }

  // ---- Missing or empty primary key ---------------------------------------

  /** A table whose primary key is the Integer at `foo`. */
  function IntegerKeyInfo(): TableInfo {
    TableInfo([FieldConstraint([FieldSel("foo")], Some(IntegerType), true, false)])
  }

  /** An empty blob at `foo` cannot be converted to the declared Integer, so
      the insert fails and nothing is stored. */
  method EmptyBlobKey() returns (r: Result<Key, Error>, count: nat)
    ensures r.Failure? && count == 0
  {
    var t := new Table(IntegerKeyInfo());
    var d := [Field("foo", Blob([]))];
    assert GetValue(d, [FieldSel("foo")]) == Some(Blob([]));
    assert Validate(d, IntegerKeyInfo().constraints).Failure?;
    r := t.Insert(d);
    count := |t.docs|;
  }

  // ---- Converting top-level fields ----------------------------------------

  /** A table declaring `foo` and `bar` Integers. */
  function TypedFieldsInfo(): TableInfo {
    TableInfo([FieldConstraint([FieldSel("foo")], Some(IntegerType), false, false),
               FieldConstraint([FieldSel("bar")], Some(IntegerType), false, false)])
  }

  function MixedDocument(): Document {
    [Field("foo", Integer(1)), Field("bar", Double(10)), Field("baz", Text("baaaaz"))]
  }

  function ConvertedDocument(): Document {
    [Field("foo", Integer(1)), Field("bar", Integer(10)), Field("baz", Text("baaaaz"))]
  }

  lemma MixedValidates()
    ensures Validate(MixedDocument(), TypedFieldsInfo().constraints) == Success(ConvertedDocument())
  {
    var cs := TypedFieldsInfo().constraints;
    var d := MixedDocument();
    assert ConvertAt(d, cs[0]) == Success(d) by {
      SetSame(Doc(d), cs[0].path);
    }
    MixedBarConverts();
    assert ConvertAll(ConvertedDocument(), cs[2..]) == Success(ConvertedDocument());
  }

  lemma MixedBarConverts()
    ensures ConvertAt(MixedDocument(), TypedFieldsInfo().constraints[1]) == Success(ConvertedDocument())
  {
    var c := TypedFieldsInfo().constraints[1];
    var d := MixedDocument();
    assert FieldIndex(d, "bar") == Some(1);
    assert GetValue(d, c.path) == Some(Double(10));
    assert SetValue(d, c.path, Integer(10)) == ConvertedDocument() by {
      assert d[1 := Field("bar", Integer(10))] == ConvertedDocument();
    }
  }

  /** Inserted into an empty table the document is stored converted, under
      the first generated key. */
  lemma MixedStores()
    ensures TableSpec.Insert(TypedFieldsInfo(), TableSpec.Empty(), MixedDocument()) ==
      Success((EncodeUint(1), TableSpec.TableState(map[EncodeUint(1) := ConvertedDocument()], 1, map[])))
  {
    MixedValidates();
    TableScenarios.InsertIntoEmpty(TypedFieldsInfo(), MixedDocument(), ConvertedDocument());
  }

  lemma ConvertedFields()
    ensures GetByField(ConvertedDocument(), "foo") == Some(Integer(1))
    ensures GetByField(ConvertedDocument(), "bar") == Some(Integer(10))
    ensures GetByField(ConvertedDocument(), "baz") == Some(Text("baaaaz"))
  {
    var d := ConvertedDocument();
    assert FieldIndex(d, "foo") == Some(0);
    assert FieldIndex(d, "bar") == Some(1);
    assert FieldIndex(d, "baz") == Some(2);
  }

  /** The Integer stays, the Double at a field declared Integer becomes an
      Integer, and the undeclared text field is kept as it was. */
  method ConvertFields() returns (foo: Option<Value>, bar: Option<Value>, baz: Option<Value>)
    ensures foo == Some(Integer(1)) && bar == Some(Integer(10)) && baz == Some(Text("baaaaz"))
  {
    var t := new Table(TypedFieldsInfo());
    MixedStores();
    ConvertedFields();
    var k := t.Insert(MixedDocument());
    var d := t.GetDocument(k.value);
    foo := GetByField(d.value, "foo");
    bar := GetByField(d.value, "bar");
    baz := GetByField(d.value, "baz");
  }

  // ---- Not-null fields ----------------------------------------------------

  /** A table requiring `foo` to be present and non-null, of type `typ`
      when one is declared. */
  function NotNullInfo(typ: Option<ValueType>): TableInfo {
    TableInfo([FieldConstraint([FieldSel("foo")], typ, false, true)])
  }

  lemma NotNullValidates(typ: Option<ValueType>)
    requires typ == None || typ == Some(IntegerType)
    ensures Validate([Field("bar", Double(1))], NotNullInfo(typ).constraints) == Failure(NotNullViolation)
    ensures Validate([Field("foo", Null)], NotNullInfo(typ).constraints) == Failure(NotNullViolation)
    ensures Validate([Field("foo", Double(1))], NotNullInfo(typ).constraints).Success?
  {
    var c := NotNullInfo(typ).constraints[0];
    var missing, isNull, present := [Field("bar", Double(1))], [Field("foo", Null)], [Field("foo", Double(1))];
    assert GetValue(missing, c.path) == None;
    assert ConvertAll(missing, [c]) == Success(missing);
    assert GetValue(isNull, c.path) == Some(Null);
    assert ConvertAll(isNull, [c]) == Success(isNull) by {
      SetSame(Doc(isNull), c.path);
    }
    assert GetValue(present, c.path) == Some(Double(1));
    if typ == None {
      assert ConvertAll(present, [c]) == Success(present);
    } else {
      var converted := SetValue(present, c.path, Integer(1));
      assert ConvertAll(present, [c]) == Success(converted);
      assert GetValue(converted, c.path) == Some(Integer(1));
    }
  }

  /** With or without a declared type, a document missing `foo` or holding
      Null there is refused, and one holding a number there is stored. */
  method NotNullField(typ: Option<ValueType>) returns (missing: Result<Key, Error>, isNull: Result<Key, Error>, present: Result<Key, Error>)
    requires typ == None || typ == Some(IntegerType)
    ensures missing == Failure(NotNullViolation) && isNull == Failure(NotNullViolation)
    ensures present.Success?
  {
    var t := new Table(NotNullInfo(typ));
    NotNullValidates(typ);
    missing := t.Insert([Field("bar", Double(1))]);
    isNull := t.Insert([Field("foo", Null)]);
    present := t.Insert([Field("foo", Double(1))]);
  }

  /** A table requiring `foo[1]` to be present and non-null. */
  function NotNullItemInfo(): TableInfo {
    TableInfo([FieldConstraint([FieldSel("foo"), IndexSel(1)], None, false, true)])
  }

  lemma NotNullItemValidates()
    ensures Validate([Field("foo", Array([Integer(1)]))], NotNullItemInfo().constraints) == Failure(NotNullViolation)
    ensures Validate([Field("foo", Array([Integer(1), Integer(2)]))], NotNullItemInfo().constraints).Success?
  {
    var c := NotNullItemInfo().constraints[0];
    var short, long := [Field("foo", Array([Integer(1)]))], [Field("foo", Array([Integer(1), Integer(2)]))];
    assert GetValue(short, c.path) == None;
    assert ConvertAll(short, [c]) == Success(short);
    assert GetValue(long, c.path) == Some(Integer(2));
    assert ConvertAll(long, [c]) == Success(long);
  }

  /** An array too short to hold a value at the not-null position is
      refused; one that holds a value there is stored. */
  method NotNullItem() returns (short: Result<Key, Error>, long: Result<Key, Error>)
    ensures short == Failure(NotNullViolation) && long.Success?
  {
    var t := new Table(NotNullItemInfo());
    NotNullItemValidates();
    short := t.Insert([Field("foo", Array([Integer(1)]))]);
    long := t.Insert([Field("foo", Array([Integer(1), Integer(2)]))]);
  }
}
