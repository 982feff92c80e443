/** JSON documents as `serde_json` holds them. An object keeps its fields in some iteration order
    that carries no meaning; `Canon` is the order in which the source writes and hashes them. */
module JsonValues {
  import opened Bytes
  import opened Ordering

  /** A number is an integer of the 64-bit ranges or a finite double, kept as its bits. */
  datatype Json =
    | Null
    | Bool(flag: bool)
    | Int(value: int)
    | Float(bits: u64)
    | Str(text: bytes)
    | Arr(items: seq<Json>)
    | Obj(fields: seq<Field>)

  datatype Field = Field(key: bytes, value: Json)

  function FieldKey(f: Field): Key {
    f.key
  }

  predicate Finite(bits: u64) {
    (bits / 0x10_0000_0000_0000) % 2048 != 2047
  }

  /** What the value type can hold: no object repeats a key, numbers are in range, strings are UTF-8. */
  predicate WellFormed(v: Json, utf8: bytes -> bool) {
    match v
    case Null => true
    case Bool(_) => true
    case Int(i) => -0x8000_0000_0000_0000 <= i < 0x1_0000_0000_0000_0000
    case Float(bits) => Finite(bits)
    case Str(text) => utf8(text)
    case Arr(items) => forall i :: 0 <= i < |items| ==> WellFormed(items[i], utf8)
    case Obj(fields) =>
      && Distinct(fields, FieldKey)
      && forall i :: 0 <= i < |fields| ==> utf8(fields[i].key) && WellFormed(fields[i].value, utf8)
  }

  /** Equal up to the order of object fields, at every depth. */
  predicate Same(a: Json, b: Json)
    decreases a
  {
    match a
    case Null => b.Null?
    case Bool(_) => a == b
    case Int(_) => a == b
    case Float(_) => a == b
    case Str(_) => a == b
    case Arr(items) =>
      b.Arr? && |items| == |b.items| && forall i :: 0 <= i < |items| ==> Same(items[i], b.items[i])
    case Obj(fields) =>
      b.Obj? && |fields| == |b.fields| && forall i :: 0 <= i < |fields| ==> Matched(fields[i], b.fields)
  }

  /** Some field has the key and the same value. */
  predicate Matched(f: Field, fields: seq<Field>)
    decreases f
  {
    exists j :: 0 <= j < |fields| && f.key == fields[j].key && Same(f.value, fields[j].value)
  }

  /** Every object's fields in byte order of their keys. */
  function Canon(v: Json): Json {
    match v
    case Null => v
    case Bool(_) => v
    case Int(_) => v
    case Float(_) => v
    case Str(_) => v
    case Arr(items) => Arr(seq(|items|, i requires 0 <= i < |items| => Canon(items[i])))
    case Obj(fields) =>
      Obj(Sort(seq(|fields|, i requires 0 <= i < |fields| => Field(fields[i].key, Canon(fields[i].value))), FieldKey))
  }

  /** The fields in place, each value canonical. */
  function CanonFields(fields: seq<Field>): (r: seq<Field>)
    ensures |r| == |fields|
    ensures forall i :: 0 <= i < |r| ==> r[i] == Field(fields[i].key, Canon(fields[i].value))
  {
    seq(|fields|, i requires 0 <= i < |fields| => Field(fields[i].key, Canon(fields[i].value)))
  }

  function CanonItems(items: seq<Json>): (r: seq<Json>)
    ensures |r| == |items|
    ensures forall i :: 0 <= i < |r| ==> r[i] == Canon(items[i])
  {
    seq(|items|, i requires 0 <= i < |items| => Canon(items[i]))
  }

  lemma {:induction false} CanonObj(fields: seq<Field>)
    ensures Canon(Obj(fields)) == Obj(Sort(CanonFields(fields), FieldKey))
  {
    assert seq(|fields|, i requires 0 <= i < |fields| => Field(fields[i].key, Canon(fields[i].value)))
      == CanonFields(fields);
  }

  lemma {:induction false} CanonArr(items: seq<Json>)
    ensures Canon(Arr(items)) == Arr(CanonItems(items))
  {
    assert seq(|items|, i requires 0 <= i < |items| => Canon(items[i])) == CanonItems(items);
  }

  /** Sorting looks at the keys only, so it commutes with making the values canonical. */
  lemma {:induction false} SortThenCanon(fields: seq<Field>)
    ensures CanonFields(Sort(fields, FieldKey)) == Sort(CanonFields(fields), FieldKey)
  {
    hide Canon, Insert;
    if fields != [] {
      SortThenCanon(fields[1..]);
      assert CanonFields(fields)[1..] == CanonFields(fields[1..]);
      InsertThenCanon(fields[0], Sort(fields[1..], FieldKey));
    } else {
      assert CanonFields(fields) == [];
    }
  }

  lemma {:induction false} InsertThenCanon(f: Field, sorted: seq<Field>)
    ensures CanonFields(Insert(f, sorted, FieldKey))
      == Insert(Field(f.key, Canon(f.value)), CanonFields(sorted), FieldKey)
  {
    hide Canon, Less, CanonFields;
    var g := Field(f.key, Canon(f.value));
    if sorted != [] && Less(FieldKey(sorted[0]), FieldKey(f)) {
      InsertThenCanon(f, sorted[1..]);
      CanonCons(sorted[0], Insert(f, sorted[1..], FieldKey));
      CanonCons(sorted[0], sorted[1..]);
      assert sorted == [sorted[0]] + sorted[1..];
      assert CanonFields(sorted)[1..] == CanonFields(sorted[1..]);
    } else {
      CanonCons(f, sorted);
    }
  }

  lemma {:induction false} CanonCons(f: Field, rest: seq<Field>)
    ensures CanonFields([f] + rest) == [Field(f.key, Canon(f.value))] + CanonFields(rest)
  {
    hide Canon;
  }

  lemma {:induction false} CanonDistinct(fields: seq<Field>)
    ensures Distinct(CanonFields(fields), FieldKey) == Distinct(fields, FieldKey)
    ensures Keys(CanonFields(fields), FieldKey) == Keys(fields, FieldKey)
  {
    if fields != [] {
      CanonDistinct(fields[1..]);
      assert CanonFields(fields)[1..] == CanonFields(fields[1..]);
      KeysSplit(fields, FieldKey);
      KeysSplit(CanonFields(fields), FieldKey);
    } else {
      assert CanonFields(fields) == [];
    }
  }

  /** Two lists with distinct keys that hold the same fields sort to the same list. */
  lemma {:induction false} SortOfSame(a: seq<Field>, b: seq<Field>)
    requires Distinct(a, FieldKey) && Distinct(b, FieldKey) && |a| == |b|
    requires forall x :: x in a ==> x in b
    ensures Sort(a, FieldKey) == Sort(b, FieldKey)
  {
    DistinctCover(a, b, FieldKey);
    SortAscending(a, FieldKey);
    SortAscending(b, FieldKey);
    var sa, sb := Sort(a, FieldKey), Sort(b, FieldKey);
    forall x ensures x in sa <==> x in sb {
      SortMember(a, FieldKey, x);
      SortMember(b, FieldKey, x);
    }
    AscendingUnique(sa, sb, FieldKey);
  }

  /** Two documents have one canonical form exactly when they differ in field order only. */
  lemma {:induction false} CanonExact(a: Json, b: Json, utf8: bytes -> bool)
    requires WellFormed(a, utf8) && WellFormed(b, utf8)
    ensures Canon(a) == Canon(b) <==> Same(a, b)
    decreases a
  {
    if a.Arr? && b.Arr? {
      CanonArr(a.items);
      CanonArr(b.items);
      ItemsExact(a, b, utf8);
    } else if a.Obj? && b.Obj? {
      CanonObj(a.fields);
      CanonObj(b.fields);
      FieldsExact(a, b, utf8);
    }
  }

  lemma {:induction false} ItemsExact(a: Json, b: Json, utf8: bytes -> bool)
    requires WellFormed(a, utf8) && WellFormed(b, utf8) && a.Arr? && b.Arr?
    ensures CanonItems(a.items) == CanonItems(b.items) <==> Same(a, b)
    decreases a, 0
  {
    if |a.items| == |b.items| {
      forall i | 0 <= i < |a.items|
        ensures Canon(a.items[i]) == Canon(b.items[i]) <==> Same(a.items[i], b.items[i])
      {
        CanonExact(a.items[i], b.items[i], utf8);
      }
      var ca, cb := CanonItems(a.items), CanonItems(b.items);
      if ca == cb {
        assert forall i :: 0 <= i < |a.items| ==> ca[i] == cb[i];
      }
    } else {
      assert |CanonItems(a.items)| != |CanonItems(b.items)|;
    }
  }

  lemma {:induction false} FieldsExact(a: Json, b: Json, utf8: bytes -> bool)
    requires WellFormed(a, utf8) && WellFormed(b, utf8) && a.Obj? && b.Obj?
    ensures Sort(CanonFields(a.fields), FieldKey) == Sort(CanonFields(b.fields), FieldKey) <==> Same(a, b)
    decreases a, 0
  {
    hide Canon, Sort, CanonFields, Same, Distinct, Agree, Matched;
    SameObj(a, b);
    forall i, j | 0 <= i < |a.fields| && 0 <= j < |b.fields|
      ensures Agree(a.fields[i], b.fields[j])
    {
      CanonExact(a.fields[i].value, b.fields[j].value, utf8);
      AgreeMeans(a.fields[i], b.fields[j]);
    }
    FieldsMatch(a.fields, b.fields);
  }

  lemma {:induction false} SameObj(a: Json, b: Json)
    requires a.Obj? && b.Obj?
    ensures Same(a, b) <==> |a.fields| == |b.fields| && forall i :: 0 <= i < |a.fields| ==>
      Matched(a.fields[i], b.fields)
  {
  }

  lemma {:induction false} AgreeMeans(f: Field, g: Field)
    requires Canon(f.value) == Canon(g.value) <==> Same(f.value, g.value)
    ensures Agree(f, g)
  {
  }

  predicate Agree(f: Field, g: Field) {
    Canon(f.value) == Canon(g.value) <==> Same(f.value, g.value)
  }

  lemma {:induction false} FieldsMatch(a: seq<Field>, b: seq<Field>)
    requires Distinct(a, FieldKey) && Distinct(b, FieldKey)
    requires forall i, j :: 0 <= i < |a| && 0 <= j < |b| ==> Agree(a[i], b[j])
    ensures Sort(CanonFields(a), FieldKey) == Sort(CanonFields(b), FieldKey) <==>
      |a| == |b| && forall i :: 0 <= i < |a| ==> Matched(a[i], b)
  {
    hide Canon, Same, Sort, Distinct;
    var ca, cb := CanonFields(a), CanonFields(b);
    CanonDistinct(a);
    CanonDistinct(b);
    if |a| == |b| && forall i :: 0 <= i < |a| ==> Matched(a[i], b) {
      forall x | x in ca ensures x in cb {
        var i :| 0 <= i < |ca| && ca[i] == x;
        MatchedMeans(a[i], b);
      }
      SortOfSame(ca, cb);
    }
    if Sort(ca, FieldKey) == Sort(cb, FieldKey) {
      assert |ca| == |Sort(ca, FieldKey)|;
      forall i | 0 <= i < |a| ensures Matched(a[i], b) {
        SortMember(ca, FieldKey, ca[i]);
        SortMember(cb, FieldKey, ca[i]);
        MatchedMeans(a[i], b);
      }
    }
  }

  lemma {:induction false} MatchedMeans(f: Field, b: seq<Field>)
    requires forall j :: 0 <= j < |b| ==> Agree(f, b[j])
    ensures Matched(f, b) <==> Field(f.key, Canon(f.value)) in CanonFields(b)
  {
    hide Canon, Same;
    var cb := CanonFields(b);
    if Matched(f, b) {
      var j :| 0 <= j < |b| && f.key == b[j].key && Same(f.value, b[j].value);
      assert cb[j] == Field(f.key, Canon(f.value));
    }
    if Field(f.key, Canon(f.value)) in cb {
      var j :| 0 <= j < |cb| && cb[j] == Field(f.key, Canon(f.value));
      assert Agree(f, b[j]);
    }
  }

  /** A canonical value is its own canonical form. */
  lemma {:induction false} CanonIdempotent(v: Json)
    ensures Canon(Canon(v)) == Canon(v)
  {
    match v
    case Null =>
    case Bool(_) =>
    case Int(_) =>
    case Float(_) =>
    case Str(_) =>
    case Arr(items) =>
      CanonArr(items);
      CanonArr(CanonItems(items));
      forall i | 0 <= i < |items| ensures CanonItems(CanonItems(items))[i] == CanonItems(items)[i] {
        CanonIdempotent(items[i]);
      }
      assert CanonItems(CanonItems(items)) == CanonItems(items);
    case Obj(fields) =>
      var cs := CanonFields(fields);
      CanonObj(fields);
      forall i | 0 <= i < |fields| ensures CanonFields(cs)[i] == cs[i] {
        CanonIdempotent(fields[i].value);
      }
      assert CanonFields(cs) == cs;
      CanonOfSorted(cs);
  }

  lemma {:induction false} CanonOfSorted(cs: seq<Field>)
    requires CanonFields(cs) == cs
    ensures Canon(Obj(Sort(cs, FieldKey))) == Obj(Sort(cs, FieldKey))
  {
    hide Canon, Sort, CanonFields;
    var sorted := Sort(cs, FieldKey);
    CanonObj(sorted);
    SortThenCanon(cs);
    SortSorted(cs, FieldKey);
    SortFixed(sorted, FieldKey);
  }

  /** The canonical form is well formed with its value. */
  lemma {:induction false} CanonWellFormed(v: Json, utf8: bytes -> bool)
    requires WellFormed(v, utf8)
    ensures WellFormed(Canon(v), utf8)
  {
    match v
    case Null =>
    case Bool(_) =>
    case Int(_) =>
    case Float(_) =>
    case Str(_) =>
    case Arr(items) =>
      CanonArr(items);
      forall i | 0 <= i < |items| ensures WellFormed(CanonItems(items)[i], utf8) {
        CanonWellFormed(items[i], utf8);
      }
    case Obj(fields) =>
      forall i | 0 <= i < |fields| ensures WellFormed(CanonFields(fields)[i].value, utf8) {
        CanonWellFormed(fields[i].value, utf8);
      }
      FieldsWellFormed(fields, utf8);
  }

  lemma {:induction false} FieldsWellFormed(fields: seq<Field>, utf8: bytes -> bool)
    requires Distinct(fields, FieldKey)
    requires forall i :: 0 <= i < |fields| ==>
      utf8(fields[i].key) && WellFormed(CanonFields(fields)[i].value, utf8)
    ensures WellFormed(Canon(Obj(fields)), utf8)
  {
    hide Canon, Sort, Distinct;
    CanonObj(fields);
    var cs := CanonFields(fields);
    var sorted := Sort(cs, FieldKey);
    CanonDistinct(fields);
    SortAscending(cs, FieldKey);
    AscendingDistinct(sorted);
    forall i | 0 <= i < |sorted| ensures utf8(sorted[i].key) && WellFormed(sorted[i].value, utf8) {
      SortMember(cs, FieldKey, sorted[i]);
      var j :| 0 <= j < |cs| && cs[j] == sorted[i];
    }
  }

  lemma {:induction false} AscendingDistinct(fields: seq<Field>)
    requires Ascending(fields, FieldKey)
    ensures Distinct(fields, FieldKey)
  {
    hide Less;
    if |fields| > 1 {
      AscendingDistinct(fields[1..]);
      AscendingFloor(fields[1..], FieldKey, FieldKey(fields[0]));
    }
  }
}
