/** Key encodings. Storage keys and encoded values are abstract strings of
    digits compared lexicographically, standing for byte strings compared
    bytewise. Three encodings are modelled:
    - EncodeKey: the encoding of a primary-key value, as stored (raw payload:
      an Integer is EncodeInt64 of it, a text its characters, a blob its bytes);
    - EncodeUint: the encoding of a generated document number;
    - EncodeIndexed: the encoding an index stores, a type tag followed by a
      self-delimiting body, so that Null sorts before every other value. */
module Keys {
  import opened Wrappers
  import opened Documents

  type Key = seq<int>

  /** Strict lexicographic order: a proper prefix sorts first. */
  predicate Below(a: seq<int>, b: seq<int>)
    decreases |a|
  {
    |b| > 0 && (|a| == 0 || a[0] < b[0] || (a[0] == b[0] && Below(a[1..], b[1..])))
  }

  lemma {:induction false} BelowIrreflexive(a: seq<int>)
    ensures !Below(a, a)
    decreases |a|
  {
    if |a| > 0 {
      BelowIrreflexive(a[1..]);
    }
  }

  lemma {:induction false} BelowTransitive(a: seq<int>, b: seq<int>, c: seq<int>)
    requires Below(a, b) && Below(b, c)
    ensures Below(a, c)
    decreases |a|
  {
    if |a| > 0 && a[0] == b[0] && b[0] == c[0] {
      BelowTransitive(a[1..], b[1..], c[1..]);
    }
  }

  lemma {:induction false} BelowTotal(a: seq<int>, b: seq<int>)
    ensures a == b || Below(a, b) || Below(b, a)
    decreases |a|
  {
    if |a| > 0 && |b| > 0 && a[0] == b[0] {
      BelowTotal(a[1..], b[1..]);
      if a[1..] == b[1..] {
        assert a == [a[0]] + a[1..] && b == [b[0]] + b[1..];
      }
    }
  }

  lemma {:induction false} BelowAsymmetric(a: seq<int>, b: seq<int>)
    ensures !(Below(a, b) && Below(b, a))
    decreases |a|
  {
    if |a| > 0 && |b| > 0 && a[0] == b[0] {
      BelowAsymmetric(a[1..], b[1..]);
    }
  }

  /** Two strings that differ first at a digit keep that order whatever follows. */
  lemma {:induction false} BelowExtend(a: seq<int>, b: seq<int>, s: seq<int>, t: seq<int>)
    requires |a| > 0 && |b| > 0 && a[0] < b[0]
    ensures Below(a + s, b + t)
  {
    assert (a + s)[0] == a[0] && (b + t)[0] == b[0];
  }

  // ---- Fixed-shape encodings -------------------------------------------

  /** The order-preserving encoding of a 64-bit integer. */
  function EncodeInt64(i: int64): (k: Key)
    ensures |k| > 0
  {
    [i as int]
  }

  /** The encoding of a generated document number. */
  function EncodeUint(n: nat): (k: Key)
    ensures |k| > 0
  {
    [n]
  }

  function DecodeUint(k: Key): Option<nat> {
    if |k| == 1 && k[0] >= 0 then Some(k[0]) else None
  }

  /** Decoding undoes the counter encoding. The empty body suffices because
      the model encodes a number as the one-digit string `[n]`. */
  lemma UintRoundTrip(n: nat, k: Key)
    ensures DecodeUint(EncodeUint(n)) == Some(n)
    ensures DecodeUint(k).Some? ==> EncodeUint(DecodeUint(k).value) == k
  {
  }

  /** Generated keys sort by number; this holds because a number is encoded
      as the one-digit string `[n]`, which is not the byte order of the
      varint the engine stores. */
  lemma UintOrder(a: nat, b: nat)
    ensures Below(EncodeUint(a), EncodeUint(b)) <==> a < b
  {
  }

  /** The integer key encoding keeps numeric order; this holds because an
      integer is encoded as the one-digit string `[i]`. */
  lemma Int64Order(a: int64, b: int64)
    ensures Below(EncodeInt64(a), EncodeInt64(b)) <==> a < b
  {
  }

  // ---- Digit strings ---------------------------------------------------

  /** The digit string of a text or a blob: one digit per character or
      byte, given by `digit`. */
  function Digits<T>(xs: seq<T>, digit: T -> nat): (ds: seq<int>)
    ensures |ds| == |xs| && forall i :: 0 <= i < |ds| ==> ds[i] == digit(xs[i])
  {
    seq(|xs|, i requires 0 <= i < |xs| => digit(xs[i]))
  }

  /** A character's digit is its code point. */
  function CharDigit(c: char): nat {
    c as int
  }

  /** A byte's digit is its numeric value. */
  function ByteDigit(b: byte): nat {
    b as int
  }

  predicate NonNegative(ds: seq<int>) {
    forall i :: 0 <= i < |ds| ==> ds[i] >= 0
  }

  /** A digit string made self-delimiting: every digit is shifted up by one
      and a 0 ends the string. */
  function Terminated(ds: seq<int>): seq<int> {
    if ds == [] then [0] else [ds[0] + 1] + Terminated(ds[1..])
  }

  lemma {:induction false} TerminatedPrefixFree(a: seq<int>, b: seq<int>, s: seq<int>, t: seq<int>)
    requires NonNegative(a) && NonNegative(b)
    requires Terminated(a) + s == Terminated(b) + t
    ensures a == b && s == t
    decreases |a|
  {
    TerminatedHead(a, s);
    TerminatedHead(b, t);
    if a == [] {
      if b == [] {
        assert s == ([0] + s)[1..];
      }
    } else if b == [] {
    } else {
      var x := Terminated(a) + s;
      var y := Terminated(b) + t;
      assert x == [a[0] + 1] + (Terminated(a[1..]) + s);
      assert y == [b[0] + 1] + (Terminated(b[1..]) + t);
      assert x[0] == y[0];
      assert x[1..] == y[1..];
      TerminatedPrefixFree(a[1..], b[1..], s, t);
      assert a == [a[0]] + a[1..] && b == [b[0]] + b[1..];
    }
  }

  lemma TerminatedHead(a: seq<int>, s: seq<int>)
    ensures |Terminated(a) + s| > 0
    ensures (Terminated(a) + s)[0] == if a == [] then 0 else a[0] + 1
  {
  }

  // ---- Primary-key and index encodings -----------------------------------

  /** Type tags in the order values of different types sort; 0 is kept for
      end-of-list markers, so every tag is positive and Null's is the least. */
  function Tag(t: ValueType): (tag: int)
    ensures 1 <= tag <= 8
    ensures tag == 1 <==> t == NullType
  {
    match t
    case NullType => 1
    case BoolType => 2
    case IntegerType => 3
    case DoubleType => 4
    case TextType => 5
    case BlobType => 6
    case ArrayType => 7
    case DocumentType => 8
  }

  lemma TagInjective(t: ValueType, u: ValueType)
    ensures Tag(t) == Tag(u) ==> t == u
  {
  }

  /** The self-delimiting body of a value. */
  function Body(v: Value): seq<int>
    decreases v, 0
  {
    match v
    case Null => []
    case Bool(b) => [if b then 1 else 0]
    case Integer(i) => EncodeInt64(i)
    case Double(d) => [d]
    case Text(s) => Terminated(Digits(s, CharDigit))
    case Blob(b) => Terminated(Digits(b, ByteDigit))
    case Array(items) => ItemsBody(items)
    case Doc(fields) => FieldsBody(fields)
  }

  function ItemsBody(vs: seq<Value>): seq<int>
    decreases vs, 2
  {
    if vs == [] then [0] else EncodeIndexed(vs[0]) + ItemsBody(vs[1..])
  }

  function FieldsBody(fs: seq<Field>): seq<int>
    decreases fs, 2
  {
    if fs == [] then [0]
    else [1] + Terminated(Digits(fs[0].name, CharDigit)) + EncodeIndexed(fs[0].value) + FieldsBody(fs[1..])
  }

  /** The encoding an index stores for a value. */
  function EncodeIndexed(v: Value): (e: seq<int>)
    ensures |e| > 0 && e[0] == Tag(TypeOf(v))
    decreases v, 1
  {
    [Tag(TypeOf(v))] + Body(v)
  }

  /** The encoding of a primary-key value. */
  function EncodeKey(v: Value): Key {
    match v
    case Null => []
    case Bool(b) => [if b then 1 else 0]
    case Integer(i) => EncodeInt64(i)
    case Double(d) => [d]
    case Text(s) => Digits(s, CharDigit)
    case Blob(b) => Digits(b, ByteDigit)
    case Array(items) => ItemsBody(items)
    case Doc(fields) => FieldsBody(fields)
  }

  /** No index encoding is a prefix of another one: equal strings that begin
      with two encodings begin with the same encoding. */
  lemma {:induction false} IndexedPrefixFree(a: Value, b: Value, s: seq<int>, t: seq<int>)
    requires EncodeIndexed(a) + s == EncodeIndexed(b) + t
    ensures a == b && s == t
    decreases a
  {
    var x := EncodeIndexed(a) + s;
    var y := EncodeIndexed(b) + t;
    assert x[0] == Tag(TypeOf(a)) && y[0] == Tag(TypeOf(b));
    TagInjective(TypeOf(a), TypeOf(b));
    assert x[1..] == Body(a) + s;
    assert y[1..] == Body(b) + t;
    assert Body(a) + s == Body(b) + t;
    match a
    case Null =>
    case Bool(_) =>
      assert (Body(a) + s)[0] == Body(a)[0];
      assert (Body(b) + t)[0] == Body(b)[0];
      assert s == (Body(a) + s)[1..] && t == (Body(b) + t)[1..];
    case Integer(_) =>
      assert (Body(a) + s)[0] == Body(a)[0];
      assert (Body(b) + t)[0] == Body(b)[0];
      assert s == (Body(a) + s)[1..] && t == (Body(b) + t)[1..];
    case Double(_) =>
      assert (Body(a) + s)[0] == Body(a)[0];
      assert (Body(b) + t)[0] == Body(b)[0];
      assert s == (Body(a) + s)[1..] && t == (Body(b) + t)[1..];
    case Text(sa) =>
      TerminatedPrefixFree(Digits(sa, CharDigit), Digits(b.s, CharDigit), s, t);
      DigitsInjective(sa, b.s, CharDigit);
    case Blob(ba) =>
      TerminatedPrefixFree(Digits(ba, ByteDigit), Digits(b.data, ByteDigit), s, t);
      DigitsInjective(ba, b.data, ByteDigit);
    case Array(xs) =>
      ItemsPrefixFree(xs, b.items, s, t);
    case Doc(fs) =>
      FieldsPrefixFree(fs, b.fields, s, t);
  }

  lemma {:induction false} ItemsPrefixFree(xs: seq<Value>, ys: seq<Value>, s: seq<int>, t: seq<int>)
    requires ItemsBody(xs) + s == ItemsBody(ys) + t
    ensures xs == ys && s == t
    decreases xs
  {
    var x := ItemsBody(xs) + s;
    var y := ItemsBody(ys) + t;
    ItemsHead(xs, s);
    ItemsHead(ys, t);
    if xs == [] {
      if ys == [] {
        assert s == x[1..] && t == y[1..];
      }
    } else if ys == [] {
    } else {
      assert x == EncodeIndexed(xs[0]) + (ItemsBody(xs[1..]) + s);
      assert y == EncodeIndexed(ys[0]) + (ItemsBody(ys[1..]) + t);
      IndexedPrefixFree(xs[0], ys[0], ItemsBody(xs[1..]) + s, ItemsBody(ys[1..]) + t);
      ItemsPrefixFree(xs[1..], ys[1..], s, t);
      assert xs == [xs[0]] + xs[1..] && ys == [ys[0]] + ys[1..];
    }
  }

  lemma {:induction false} FieldsPrefixFree(fs: seq<Field>, gs: seq<Field>, s: seq<int>, t: seq<int>)
    requires FieldsBody(fs) + s == FieldsBody(gs) + t
    ensures fs == gs && s == t
    decreases fs
  {
    var x := FieldsBody(fs) + s;
    var y := FieldsBody(gs) + t;
    FieldsHead(fs, s);
    FieldsHead(gs, t);
    if fs == [] {
      if gs == [] {
        assert s == x[1..] && t == y[1..];
      }
    } else if gs == [] {
    } else {
      FieldNamesAgree(fs, gs, s, t);
      IndexedPrefixFree(fs[0].value, gs[0].value, FieldsBody(fs[1..]) + s, FieldsBody(gs[1..]) + t);
      FieldsPrefixFree(fs[1..], gs[1..], s, t);
      assert fs[0] == gs[0];
      assert fs == [fs[0]] + fs[1..] && gs == [gs[0]] + gs[1..];
    }
  }

  /** Two field sequences with a common encoded prefix start with the same
      name, and their encodings agree after it. */
  lemma FieldNamesAgree(fs: seq<Field>, gs: seq<Field>, s: seq<int>, t: seq<int>)
    requires fs != [] && gs != []
    requires FieldsBody(fs) + s == FieldsBody(gs) + t
    ensures fs[0].name == gs[0].name
    ensures EncodeIndexed(fs[0].value) + (FieldsBody(fs[1..]) + s) == EncodeIndexed(gs[0].value) + (FieldsBody(gs[1..]) + t)
  {
    var rs := EncodeIndexed(fs[0].value) + (FieldsBody(fs[1..]) + s);
    var rt := EncodeIndexed(gs[0].value) + (FieldsBody(gs[1..]) + t);
    var xs := Terminated(Digits(fs[0].name, CharDigit)) + rs;
    var ys := Terminated(Digits(gs[0].name, CharDigit)) + rt;
    FieldsBodyCons(fs, s);
    FieldsBodyCons(gs, t);
    assert ([1] + xs)[1..] == xs;
    assert ([1] + ys)[1..] == ys;
    TerminatedPrefixFree(Digits(fs[0].name, CharDigit), Digits(gs[0].name, CharDigit), rs, rt);
    DigitsInjective(fs[0].name, gs[0].name, CharDigit);
  }

  lemma FieldsBodyCons(fs: seq<Field>, s: seq<int>)
    requires fs != []
    ensures FieldsBody(fs) + s ==
      [1] + (Terminated(Digits(fs[0].name, CharDigit)) + (EncodeIndexed(fs[0].value) + (FieldsBody(fs[1..]) + s)))
  {
    var a, b, c, d := [1], Terminated(Digits(fs[0].name, CharDigit)), EncodeIndexed(fs[0].value), FieldsBody(fs[1..]);
    assert FieldsBody(fs) == a + b + c + d;
    Assoc(a + b + c, d, s);
    Assoc(a + b, c, d + s);
    Assoc(a, b, c + (d + s));
  }

  lemma Assoc<T>(x: seq<T>, y: seq<T>, z: seq<T>)
    ensures (x + y) + z == x + (y + z)
  {
  }

  lemma ItemsHead(xs: seq<Value>, s: seq<int>)
    ensures |ItemsBody(xs) + s| > 0
    ensures (ItemsBody(xs) + s)[0] == if xs == [] then 0 else Tag(TypeOf(xs[0]))
  {
  }

  lemma FieldsHead(fs: seq<Field>, s: seq<int>)
    ensures |FieldsBody(fs) + s| > 0
    ensures (FieldsBody(fs) + s)[0] == if fs == [] then 0 else 1
  {
  }

  /** Distinct digits give distinct digit strings. */
  lemma DigitsInjective<T>(a: seq<T>, b: seq<T>, digit: T -> nat)
    requires forall x, y :: digit(x) == digit(y) ==> x == y
    requires Digits(a, digit) == Digits(b, digit)
    ensures a == b
  {
    assert forall i | 0 <= i < |a| :: digit(a[i]) == Digits(a, digit)[i] == Digits(b, digit)[i] == digit(b[i]);
  }

  /** The index encoding is injective: an index never mixes up two values. */
  lemma IndexedInjective(a: Value, b: Value)
    requires EncodeIndexed(a) == EncodeIndexed(b)
    ensures a == b
  {
    assert EncodeIndexed(a) + [] == EncodeIndexed(b) + [];
    IndexedPrefixFree(a, b, [], []);
  }

  /** Within one type, the primary-key encoding is injective; a table with a
      typed primary key therefore maps distinct key values to distinct keys. */
  lemma KeyInjective(a: Value, b: Value)
    requires TypeOf(a) == TypeOf(b)
    requires EncodeKey(a) == EncodeKey(b)
    ensures a == b
  {
    match a
    case Text(sa) => DigitsInjective(sa, b.s, CharDigit);
    case Blob(ba) => DigitsInjective(ba, b.data, ByteDigit);
    case Array(_) =>
      assert EncodeIndexed(a) == [Tag(ArrayType)] + EncodeKey(a);
      IndexedInjective(a, b);
    case Doc(_) =>
      assert EncodeIndexed(a) == [Tag(DocumentType)] + EncodeKey(a);
      IndexedInjective(a, b);
    case _ =>
  }

  /** The primary-key encoding is empty exactly for Null, the empty text and
      the empty blob. */
  lemma EmptyKey(v: Value)
    ensures |EncodeKey(v)| == 0 <==> v == Null || v == Text("") || v == Blob([])
  {
    match v
    case Array(items) => if items == [] {} else {}
    case Doc(fields) => if fields == [] {} else {}
    case _ =>
  }

  /** Values of a lower-ranked type sort first in an index, whatever follows
      their encodings; Null, ranked lowest, sorts before every other value. */
  lemma TypeRankOrder(a: Value, b: Value, s: seq<int>, t: seq<int>)
    requires Tag(TypeOf(a)) < Tag(TypeOf(b))
    ensures Below(EncodeIndexed(a) + s, EncodeIndexed(b) + t)
  {
    BelowExtend(EncodeIndexed(a), EncodeIndexed(b), s, t);
  }

  lemma NullFirst(v: Value)
    requires v != Null
    ensures Below(EncodeIndexed(Null), EncodeIndexed(v))
  {
    TypeRankOrder(Null, v, [], []);
    assert EncodeIndexed(Null) + [] == EncodeIndexed(Null);
    assert EncodeIndexed(v) + [] == EncodeIndexed(v);
  }

  /** Integers keep their numeric order in the index encoding. */
  lemma IntegerIndexOrder(a: int64, b: int64)
    ensures Below(EncodeIndexed(Integer(a)), EncodeIndexed(Integer(b))) <==> a < b
  {
    var x := EncodeIndexed(Integer(a));
    var y := EncodeIndexed(Integer(b));
    assert Body(Integer(a)) == [a as int] && Body(Integer(b)) == [b as int];
    assert x == [3, a as int] && y == [3, b as int];
    assert x[1..] == [a as int] && y[1..] == [b as int];
    assert Below(x, y) == Below(x[1..], y[1..]);
    assert Below([a as int], [b as int]) == (a < b || (a == b && Below([], [])));
  }
}
