/** The value and document model the table stores: a closed tagged union of
    values, documents as ordered lists of named fields, paths such as
    `foo.a[1]` that select a nested value, replacement of the value a path
    selects, and conversion of a value to a declared type. */
module Documents {
  import opened Wrappers

  newtype byte = x: int | 0 <= x < 256

  /** A 64-bit signed integer, the payload of an Integer value. */
  newtype int64 = x: int | -0x8000_0000_0000_0000 <= x < 0x8000_0000_0000_0000

  predicate InInt64Range(x: int) {
    -0x8000_0000_0000_0000 <= x < 0x8000_0000_0000_0000
  }

  /** A Double carries an integral payload only: the model does not describe
      floating point, so a conversion between the numeric types is exact. */
  datatype Value =
    | Null
    | Bool(b: bool)
    | Integer(i: int64)
    | Double(d: int)
    | Text(s: string)
    | Blob(data: seq<byte>)
    | Array(items: seq<Value>)
    | Doc(fields: seq<Field>)

  datatype Field = Field(name: string, value: Value)

  /** A document is its fields in insertion order. */
  type Document = seq<Field>

  datatype ValueType =
    | NullType | BoolType | IntegerType | DoubleType | TextType | BlobType | ArrayType | DocumentType

  function TypeOf(v: Value): ValueType {
    match v
    case Null => NullType
    case Bool(_) => BoolType
    case Integer(_) => IntegerType
    case Double(_) => DoubleType
    case Text(_) => TextType
    case Blob(_) => BlobType
    case Array(_) => ArrayType
    case Doc(_) => DocumentType
  }

  /** One step of a path: a field name or an array position. */
  datatype Segment = FieldSel(name: string) | IndexSel(index: nat)

  /** A parsed path; the parser never produces an empty one. */
  type Path = p: seq<Segment> | |p| > 0 witness [FieldSel("")]

  /** The position of the first field called `name`, if there is one. */
  function FieldIndex(fs: seq<Field>, name: string): (r: Option<nat>)
    ensures r.Some? ==> r.value < |fs| && fs[r.value].name == name
    ensures r.Some? ==> forall j :: 0 <= j < r.value ==> fs[j].name != name
    ensures r.None? ==> forall j :: 0 <= j < |fs| ==> fs[j].name != name
  {
    if fs == [] then None
    else if fs[0].name == name then Some(0)
    else
      match FieldIndex(fs[1..], name)
      case None => None
      case Some(i) => Some(i + 1)
  }

  /** The value of the first field called `name`; None when there is none. */
  function GetByField(d: Document, name: string): (r: Option<Value>)
    ensures r.Some? <==> exists j :: 0 <= j < |d| && d[j].name == name
    ensures r.Some? ==> exists j :: 0 <= j < |d| && d[j].name == name && d[j].value == r.value
  {
    match FieldIndex(d, name)
    case None => None
    case Some(i) => Some(d[i].value)
  }

  /** The value `p` selects inside `v`. None when a field is absent, an array
      is too short, or a segment meets a value of the wrong shape. */
  function ValueAt(v: Value, p: seq<Segment>): Option<Value>
    decreases p
  {
    if p == [] then Some(v)
    else
      match p[0]
      case FieldSel(n) =>
        if v.Doc? then
          match FieldIndex(v.fields, n)
          case None => None
          case Some(i) => ValueAt(v.fields[i].value, p[1..])
        else None
      case IndexSel(i) =>
        if v.Array? && i < |v.items| then ValueAt(v.items[i], p[1..]) else None
  }

  function GetValue(d: Document, p: Path): Option<Value> {
    ValueAt(Doc(d), p)
  }

  /** `v` with the value that `p` selects replaced by `nv`. */
  function SetValueAt(v: Value, p: seq<Segment>, nv: Value): (r: Value)
    requires ValueAt(v, p).Some?
    ensures |p| > 0 ==> TypeOf(r) == TypeOf(v)
    decreases p
  {
    if p == [] then nv
    else
      match p[0]
      case FieldSel(n) =>
        var i := FieldIndex(v.fields, n).value;
        Doc(v.fields[i := Field(n, SetValueAt(v.fields[i].value, p[1..], nv))])
      case IndexSel(i) =>
        Array(v.items[i := SetValueAt(v.items[i], p[1..], nv)])
  }

  /** `d` with the value at `p` replaced by `nv`. */
  function SetValue(d: Document, p: Path, nv: Value): (r: Document)
    requires GetValue(d, p).Some?
    ensures GetValue(r, p) == Some(nv)
  {
    SetThenGetBelow(Doc(d), p, [], nv);
    assert p + [] == p;
    SetValueAt(Doc(d), p, nv).fields
  }

  lemma FieldIndexSameNames(fs: seq<Field>, gs: seq<Field>, name: string)
    requires |fs| == |gs|
    requires forall j :: 0 <= j < |fs| ==> fs[j].name == gs[j].name
    ensures FieldIndex(fs, name) == FieldIndex(gs, name)
  {
    if fs != [] && fs[0].name != name {
      FieldIndexSameNames(fs[1..], gs[1..], name);
    }
  }

  /** Selecting `p + q` is selecting `p`, then `q` inside the result. */
  lemma {:induction false} ValueAtAppend(v: Value, p: seq<Segment>, q: seq<Segment>)
    ensures ValueAt(v, p + q) == if ValueAt(v, p).Some? then ValueAt(ValueAt(v, p).value, q) else None
    decreases p
  {
    if p == [] {
      assert p + q == q;
    } else {
      assert (p + q)[0] == p[0];
      assert (p + q)[1..] == p[1..] + q;
      match p[0]
      case FieldSel(n) =>
        if v.Doc? && FieldIndex(v.fields, n).Some? {
          ValueAtAppend(v.fields[FieldIndex(v.fields, n).value].value, p[1..], q);
        }
      case IndexSel(i) =>
        if v.Array? && i < |v.items| {
          ValueAtAppend(v.items[i], p[1..], q);
        }
    }
  }

  /** After replacing the value at `p`, everything below `p` is read from the
      new value; in particular (q = []) the path now selects `nv`. */
  lemma {:induction false} SetThenGetBelow(v: Value, p: seq<Segment>, q: seq<Segment>, nv: Value)
    requires ValueAt(v, p).Some?
    ensures ValueAt(SetValueAt(v, p, nv), p + q) == ValueAt(nv, q)
    decreases p
  {
    if p == [] {
      assert p + q == q;
    } else {
      assert (p + q)[0] == p[0];
      assert (p + q)[1..] == p[1..] + q;
      match p[0]
      case FieldSel(n) =>
        var i := FieldIndex(v.fields, n).value;
        var w := SetValueAt(v.fields[i].value, p[1..], nv);
        var fs := v.fields[i := Field(n, w)];
        FieldIndexSameNames(v.fields, fs, n);
        SetThenGetBelow(v.fields[i].value, p[1..], q, nv);
      case IndexSel(i) =>
        SetThenGetBelow(v.items[i], p[1..], q, nv);
    }
  }

  /** Replacing a value below `p` leaves the value at `p` in place, updated
      only below. */
  lemma {:induction false} GetAboveSet(v: Value, p: seq<Segment>, q: seq<Segment>, nv: Value)
    requires ValueAt(v, p + q).Some?
    ensures ValueAt(v, p).Some? && ValueAt(ValueAt(v, p).value, q).Some?
    ensures ValueAt(SetValueAt(v, p + q, nv), p) == Some(SetValueAt(ValueAt(v, p).value, q, nv))
    decreases p
  {
    ValueAtAppend(v, p, q);
    if p == [] {
      assert p + q == q;
    } else {
      assert (p + q)[0] == p[0];
      assert (p + q)[1..] == p[1..] + q;
      match p[0]
      case FieldSel(n) =>
        var i := FieldIndex(v.fields, n).value;
        var w := SetValueAt(v.fields[i].value, p[1..] + q, nv);
        var fs := v.fields[i := Field(n, w)];
        FieldIndexSameNames(v.fields, fs, n);
        GetAboveSet(v.fields[i].value, p[1..], q, nv);
      case IndexSel(i) =>
        GetAboveSet(v.items[i], p[1..], q, nv);
    }
  }

  /** Replacing the value at `p` leaves every path that neither extends `p`
      nor is extended by it unchanged. */
  lemma {:induction false} SetDisjoint(v: Value, p: seq<Segment>, q: seq<Segment>, nv: Value)
    requires ValueAt(v, p).Some?
    requires !(p <= q) && !(q <= p)
    ensures ValueAt(SetValueAt(v, p, nv), q) == ValueAt(v, q)
    decreases p
  {
    var r := SetValueAt(v, p, nv);
    if p[0] == q[0] {
      match p[0]
      case FieldSel(n) =>
        var i := FieldIndex(v.fields, n).value;
        var fs := v.fields[i := Field(n, SetValueAt(v.fields[i].value, p[1..], nv))];
        FieldIndexSameNames(v.fields, fs, n);
        SetDisjoint(v.fields[i].value, p[1..], q[1..], nv);
      case IndexSel(i) =>
        SetDisjoint(v.items[i], p[1..], q[1..], nv);
    } else {
      match p[0]
      case FieldSel(n) =>
        var i := FieldIndex(v.fields, n).value;
        var fs := v.fields[i := Field(n, SetValueAt(v.fields[i].value, p[1..], nv))];
        if q[0].FieldSel? {
          FieldIndexSameNames(v.fields, fs, q[0].name);
        }
      case IndexSel(i) =>
    }
  }

  /** Writing back the value a path already selects changes nothing. */
  lemma {:induction false} SetSame(v: Value, p: seq<Segment>)
    requires ValueAt(v, p).Some?
    ensures SetValueAt(v, p, ValueAt(v, p).value) == v
    decreases p
  {
    if p != [] {
      match p[0]
      case FieldSel(n) =>
        var i := FieldIndex(v.fields, n).value;
        SetSame(v.fields[i].value, p[1..]);
        assert v.fields[i := Field(n, v.fields[i].value)] == v.fields;
      case IndexSel(i) =>
        SetSame(v.items[i], p[1..]);
        assert v.items[i := v.items[i]] == v.items;
    }
  }

  /** The numeric value of an Integer or a Double. */
  function NumberOf(v: Value): Option<int> {
    match v
    case Integer(i) => Some(i as int)
    case Double(d) => Some(d)
    case _ => None
  }

  /** Conversion of a value to a declared type, applied before storage.
      Null and values already of type `t` are kept; Integer and Double
      convert into each other exactly (a Double converts to Integer only when
      it fits in 64 bits); every other pairing is IncompatibleType. */
  function Convert(v: Value, t: ValueType): (r: Result<Value, Error>)
    ensures r.Success? ==> (r.value.Null? <==> v.Null?)
    ensures r.Success? && !v.Null? ==> TypeOf(r.value) == t
    ensures r.Success? && NumberOf(v).None? ==> r.value == v
    ensures r.Success? && NumberOf(v).Some? ==> NumberOf(r.value) == NumberOf(v)
    ensures r.Failure? ==> r.error == IncompatibleType
    ensures v.Null? || TypeOf(v) == t ==> r == Success(v)
    ensures v.Integer? && t == DoubleType ==> r.Success?
    ensures v.Double? && t == IntegerType ==> (r.Success? <==> InInt64Range(v.d))
    ensures NumberOf(v).None? && !v.Null? && TypeOf(v) != t ==> r.Failure?
  {
    if v.Null? || TypeOf(v) == t then Success(v)
    else
      match v
      case Integer(i) =>
        if t == DoubleType then Success(Double(i as int)) else Failure(IncompatibleType)
      case Double(d) =>
        if t == IntegerType && InInt64Range(d) then Success(Integer(d as int64)) else Failure(IncompatibleType)
      case _ => Failure(IncompatibleType)
  }
}
