/** What `serde_json` makes of the text of a value. Its parser refuses the 128th container inside another, and
    with the `raw_value` feature it takes an object whose first key is a private marker for embedded JSON text.
    Every value without either parses back. */
module JsonParsing {
  import opened Wrappers
  import opened Bytes
  import opened Ordering
  import opened JsonValues

  /** Containers that may stand inside each other. */
  const MOST_NESTED: nat := 127

  /** `$serde_json::private::RawValue` */
  const RAW_KEY: bytes :=
    [0x24, 0x73, 0x65, 0x72, 0x64, 0x65, 0x5F, 0x6A, 0x73, 0x6F, 0x6E, 0x3A, 0x3A, 0x70, 0x72, 0x69, 0x76, 0x61, 0x74,
     0x65, 0x3A, 0x3A, 0x52, 0x61, 0x77, 0x56, 0x61, 0x6C, 0x75, 0x65]

  predicate Container(v: Json) {
    v.Arr? || v.Obj?
  }

  /** The items of an array or the values of an object. */
  function Children(v: Json): (cs: seq<Json>)
    ensures v.Arr? ==> cs == v.items
    ensures v.Obj? ==> |cs| == |v.fields| && forall i :: 0 <= i < |cs| ==> cs[i] == v.fields[i].value
    ensures !Container(v) ==> cs == []
    ensures forall i :: 0 <= i < |cs| ==> cs[i] < v
  {
    match v
    case Arr(items) => items
    case Obj(fields) => seq(|fields|, i requires 0 <= i < |fields| => fields[i].value)
    case _ => []
  }

  /** How many containers stand inside each other. */
  function Depth(v: Json): nat
    decreases v, |Children(v)| + 1
  {
    if Container(v) then 1 + Deepest(v, |Children(v)|) else 0
  }

  function Deepest(v: Json, n: nat): nat
    requires n <= |Children(v)|
    decreases v, n
  {
    if n == 0 then 0
    else
      var rest, last := Deepest(v, n - 1), Depth(Children(v)[n - 1]);
      if rest < last then last else rest
  }

  /** The marker is the least key, so that it comes first in the canonical text. */
  predicate Marked(fields: seq<Field>) {
    && (exists i :: 0 <= i < |fields| && fields[i].key == RAW_KEY)
    && forall i :: 0 <= i < |fields| ==> !Less(fields[i].key, RAW_KEY)
  }

  /** No object at any depth is marked. */
  predicate Unmarked(v: Json)
    decreases v
  {
    && (v.Obj? ==> !Marked(v.fields))
    && forall i :: 0 <= i < |Children(v)| ==> Unmarked(Children(v)[i])
  }

  /** The values whose canonical text parses back. */
  predicate ParsesBack(v: Json) {
    Depth(v) <= MOST_NESTED && Unmarked(v)
  }

  // ----- Depth, child by child -----

  predicate ChildrenWithin(v: Json, n: nat) {
    forall i :: 0 <= i < |Children(v)| ==> Depth(Children(v)[i]) <= n
  }

  lemma {:induction false} DeepestWithin(v: Json, k: nat, n: nat)
    requires k <= |Children(v)|
    ensures Deepest(v, k) <= n <==> forall i :: 0 <= i < k ==> Depth(Children(v)[i]) <= n
  {
    hide Depth, Children;
    if k > 0 {
      DeepestWithin(v, k - 1, n);
    }
  }

  lemma {:induction false} DepthWithin(v: Json, n: nat)
    requires Container(v)
    ensures Depth(v) <= n <==> n > 0 && ChildrenWithin(v, n - 1)
  {
    hide Deepest;
    if n > 0 {
      DeepestWithin(v, |Children(v)|, n - 1);
    }
  }

  // ----- Canonical form changes neither -----

  lemma {:induction false} CanonChild(v: Json, i: nat) returns (j: nat)
    requires i < |Children(v)|
    ensures j < |Children(Canon(v))| && Children(Canon(v))[j] == Canon(Children(v)[i])
  {
    hide Canon, Sort;
    if v.Arr? {
      CanonArr(v.items);
      j := i;
    } else {
      CanonObj(v.fields);
      var cs := CanonFields(v.fields);
      SortMember(cs, FieldKey, cs[i]);
      j :| 0 <= j < |Sort(cs, FieldKey)| && Sort(cs, FieldKey)[j] == cs[i];
    }
  }

  lemma {:induction false} ChildOfCanon(v: Json, j: nat) returns (i: nat)
    requires j < |Children(Canon(v))|
    ensures i < |Children(v)| && Children(Canon(v))[j] == Canon(Children(v)[i])
  {
    hide Sort;
    if v.Arr? {
      CanonArr(v.items);
      i := j;
    } else {
      CanonObj(v.fields);
      var cs := CanonFields(v.fields);
      var x := Sort(cs, FieldKey)[j];
      SortMember(cs, FieldKey, x);
      i :| 0 <= i < |cs| && cs[i] == x;
    }
  }

  lemma {:induction false} CanonSort(v: Json)
    ensures Canon(v).Arr? == v.Arr? && Canon(v).Obj? == v.Obj?
  {
  }

  /** The canonical form is as deep as the value. */
  lemma {:induction false} DepthCanon(v: Json)
    ensures Depth(Canon(v)) == Depth(v)
    decreases v
  {
    hide Canon, Depth, Children;
    CanonSort(v);
    if Container(v) {
      ChildrenDepthCanon(v, Depth(v));
      ChildrenDepthCanon(v, Depth(Canon(v)));
      DepthPositive(v);
      DepthPositive(Canon(v));
      DepthWithin(v, Depth(v));
      DepthWithin(v, Depth(Canon(v)));
      DepthWithin(Canon(v), Depth(v));
      DepthWithin(Canon(v), Depth(Canon(v)));
    } else {
      ScalarCanon(v);
    }
  }

  lemma {:induction false} DepthPositive(v: Json)
    requires Container(v)
    ensures Depth(v) > 0
  {
    hide Deepest;
  }

  lemma {:induction false} ScalarCanon(v: Json)
    requires !Container(v)
    ensures Canon(v) == v
  {
  }

  lemma {:induction false} ChildrenDepthCanon(v: Json, n: nat)
    ensures n > 0 ==> (ChildrenWithin(Canon(v), n - 1) <==> ChildrenWithin(v, n - 1))
    decreases v, 0
  {
    hide Canon, Depth;
    forall i | 0 <= i < |Children(v)| ensures Depth(Canon(Children(v)[i])) == Depth(Children(v)[i]) {
      DepthCanon(Children(v)[i]);
    }
    if n > 0 && ChildrenWithin(Canon(v), n - 1) {
      forall i | 0 <= i < |Children(v)| ensures Depth(Children(v)[i]) <= n - 1 {
        var j := CanonChild(v, i);
      }
    }
    if n > 0 && ChildrenWithin(v, n - 1) {
      forall j | 0 <= j < |Children(Canon(v))| ensures Depth(Children(Canon(v))[j]) <= n - 1 {
        var i := ChildOfCanon(v, j);
      }
    }
  }

  lemma {:induction false} MarkedCanon(fields: seq<Field>)
    ensures Marked(Sort(CanonFields(fields), FieldKey)) == Marked(fields)
  {
    hide Sort, Less, Canon;
    var cs := CanonFields(fields);
    var sorted := Sort(cs, FieldKey);
    forall k: bytes ensures HasKey(sorted, k) <==> HasKey(fields, k) {
      if HasKey(fields, k) {
        var i :| 0 <= i < |fields| && fields[i].key == k;
        SortMember(cs, FieldKey, cs[i]);
        var j :| 0 <= j < |sorted| && sorted[j] == cs[i];
      }
      if HasKey(sorted, k) {
        var j :| 0 <= j < |sorted| && sorted[j].key == k;
        SortMember(cs, FieldKey, sorted[j]);
        var i :| 0 <= i < |cs| && cs[i] == sorted[j];
        assert fields[i].key == k;
      }
    }
    MarkedKeys(sorted);
    MarkedKeys(fields);
  }

  predicate HasKey(fields: seq<Field>, k: bytes) {
    exists i :: 0 <= i < |fields| && fields[i].key == k
  }

  lemma {:induction false} MarkedKeys(fields: seq<Field>)
    ensures Marked(fields) <==> HasKey(fields, RAW_KEY) && forall k: bytes :: HasKey(fields, k) ==> !Less(k, RAW_KEY)
  {
    hide Less;
    if Marked(fields) {
      forall k: bytes | HasKey(fields, k) ensures !Less(k, RAW_KEY) {
        var i :| 0 <= i < |fields| && fields[i].key == k;
      }
    }
    forall i | 0 <= i < |fields| ensures HasKey(fields, fields[i].key) {
    }
  }

  lemma {:induction false} UnmarkedCanon(v: Json)
    ensures Unmarked(Canon(v)) == Unmarked(v)
    decreases v
  {
    hide Canon, Children, Sort, Marked;
    CanonSort(v);
    if v.Obj? {
      CanonObj(v.fields);
      MarkedCanon(v.fields);
    }
    forall i | 0 <= i < |Children(v)| ensures Unmarked(Canon(Children(v)[i])) == Unmarked(Children(v)[i]) {
      UnmarkedCanon(Children(v)[i]);
    }
    if Unmarked(Canon(v)) {
      forall i | 0 <= i < |Children(v)| ensures Unmarked(Children(v)[i]) {
        var j := CanonChild(v, i);
      }
    }
    if Unmarked(v) {
      forall j | 0 <= j < |Children(Canon(v))| ensures Unmarked(Children(Canon(v))[j]) {
        var i := ChildOfCanon(v, j);
      }
    }
  }

  // ----- The parser on the text of a value -----

  /** What parsing the text of `v` gives, with room for `room` more containers; `parse` is the parser itself,
      which is called again on the text behind a marker. */
  function Reread(v: Json, room: nat, parse: bytes -> Result<Json>): Result<Json>
    decreases v
  {
    match v
    case Arr(items) =>
      if room > 0 && forall i :: 0 <= i < |items| ==> Reread(items[i], room - 1, parse).Ok?
      then Ok(Arr(seq(|items|, i requires 0 <= i < |items| => Reread(items[i], room - 1, parse).value)))
      else Err
    case Obj(fields) =>
      if room == 0 then Err
      else if fields != [] && fields[0].key == RAW_KEY then
        if |fields| == 1 && fields[0].value.Str? then parse(fields[0].value.text) else Err
      else if forall i :: 0 <= i < |fields| ==> Reread(fields[i].value, room - 1, parse).Ok?
      then Ok(Obj(seq(|fields|, i requires 0 <= i < |fields| =>
        Field(fields[i].key, Reread(fields[i].value, room - 1, parse).value))))
      else Err
    case _ => Ok(v)
  }

  predicate OnlyRaw(v: Json) {
    v.Obj? && |v.fields| == 1 && v.fields[0].key == RAW_KEY
  }

  /** The parser never gives an object with the marker as its only key: where it reads the marker first it
      gives something else, and where it reads another key first that key is there as well. */
  ghost predicate NeverOnlyRaw(parse: bytes -> Result<Json>) {
    forall s :: parse(s).Ok? ==> !OnlyRaw(parse(s).value)
  }

  lemma {:induction false} CanonParts(w: Json, i: nat)
    requires Canon(w) == w && i < |Children(w)|
    ensures Canon(Children(w)[i]) == Children(w)[i]
  {
    hide Canon, Sort;
    var j := ChildOfCanon(w, i);
    CanonIdempotent(Children(w)[j]);
  }

  /** In ascending fields the least key stands first. */
  lemma {:induction false} MarkedFirst(fields: seq<Field>)
    requires Ascending(fields, FieldKey)
    ensures Marked(fields) <==> fields != [] && fields[0].key == RAW_KEY
  {
    hide Less, Ascending;
    LessTotal(RAW_KEY, RAW_KEY);
    forall i | 0 < i < |fields| ensures Less(fields[0].key, fields[i].key) && fields[i].key != fields[0].key {
      AscendingPairs(fields, FieldKey, 0, i);
      LessTotal(fields[0].key, fields[0].key);
    }
    if fields != [] && fields[0].key == RAW_KEY {
      forall i | 0 <= i < |fields| ensures !Less(fields[i].key, RAW_KEY) {
        LessTotal(fields[i].key, RAW_KEY);
      }
    }
  }

  lemma {:induction false} CanonAscending(w: Json, utf8: bytes -> bool)
    requires Canon(w) == w && w.Obj? && WellFormed(w, utf8)
    ensures Ascending(w.fields, FieldKey)
  {
    hide Canon, Sort, Distinct, WellFormed;
    CanonObj(w.fields);
    FieldsDistinct(w, utf8);
    CanonDistinct(w.fields);
    SortAscending(CanonFields(w.fields), FieldKey);
  }

  lemma {:induction false} FieldsDistinct(w: Json, utf8: bytes -> bool)
    requires w.Obj? && WellFormed(w, utf8)
    ensures Distinct(w.fields, FieldKey)
  {
  }

  lemma {:induction false} PartWellFormed(w: Json, utf8: bytes -> bool, i: nat)
    requires WellFormed(w, utf8) && i < |Children(w)|
    ensures WellFormed(Children(w)[i], utf8)
  {
  }

  /** For a canonical value: its text parses to it if and only if it has room and is unmarked. Otherwise the
      parser fails or gives another value. */
  lemma {:induction false} RereadExact(w: Json, room: nat, parse: bytes -> Result<Json>, utf8: bytes -> bool)
    requires Canon(w) == w && WellFormed(w, utf8) && NeverOnlyRaw(parse)
    ensures Depth(w) <= room && Unmarked(w) ==> Reread(w, room, parse) == Ok(w)
    ensures !(Depth(w) <= room && Unmarked(w)) ==>
      Reread(w, room, parse).Err? || Canon(Reread(w, room, parse).value) != w
    decreases w
  {
    hide Canon, Depth, Unmarked, WellFormed, Reread, NeverOnlyRaw;
    if Container(w) {
      DepthWithin(w, room);
      if room > 0 {
        forall i | 0 <= i < |Children(w)|
          ensures PartExact(Children(w)[i], room - 1, parse)
        {
          CanonParts(w, i);
          PartWellFormed(w, utf8, i);
          RereadExact(Children(w)[i], room - 1, parse, utf8);
        }
      }
      if w.Arr? {
        ArrayExact(w, room, parse);
      } else {
        CanonAscending(w, utf8);
        ObjectExact(w, room, parse);
      }
    } else {
      ScalarReread(w, room, parse);
    }
  }

  ghost predicate PartExact(w: Json, room: nat, parse: bytes -> Result<Json>) {
    && Canon(w) == w
    && (Depth(w) <= room && Unmarked(w) ==> Reread(w, room, parse) == Ok(w))
    && (!(Depth(w) <= room && Unmarked(w)) ==>
          Reread(w, room, parse).Err? || Canon(Reread(w, room, parse).value) != w)
  }

  lemma {:induction false} ScalarReread(w: Json, room: nat, parse: bytes -> Result<Json>)
    requires !Container(w)
    ensures Depth(w) == 0 && Unmarked(w) && Reread(w, room, parse) == Ok(w)
  {
  }

  lemma {:induction false} ArrayExact(w: Json, room: nat, parse: bytes -> Result<Json>)
    requires w.Arr? && Canon(w) == w
    requires room > 0 ==> forall i :: 0 <= i < |Children(w)| ==> PartExact(Children(w)[i], room - 1, parse)
    ensures room > 0 && ChildrenWithin(w, room - 1) && Unmarked(w) ==> Reread(w, room, parse) == Ok(w)
    ensures !(room > 0 && ChildrenWithin(w, room - 1) && Unmarked(w)) ==>
      Reread(w, room, parse).Err? || Canon(Reread(w, room, parse).value) != w
  {
    hide Canon, Depth;
    var r := Reread(w, room, parse);
    if r.Ok? {
      CanonArr(r.value.items);
      forall i | 0 <= i < |w.items| ensures PartExact(w.items[i], room - 1, parse) {
        assert Children(w)[i] == w.items[i];
      }
      if Canon(r.value) == w {
        forall i | 0 <= i < |w.items| ensures Canon(r.value.items[i]) == w.items[i] {
          assert CanonItems(r.value.items)[i] == w.items[i];
        }
      }
    }
    if room > 0 && ChildrenWithin(w, room - 1) && Unmarked(w) {
      forall i | 0 <= i < |w.items| ensures Reread(w.items[i], room - 1, parse) == Ok(w.items[i]) {
        assert Children(w)[i] == w.items[i] && PartExact(Children(w)[i], room - 1, parse);
      }
      assert r.value.items == w.items;
    }
  }

  lemma {:induction false} ObjectExact(w: Json, room: nat, parse: bytes -> Result<Json>)
    requires w.Obj? && Canon(w) == w && Ascending(w.fields, FieldKey) && NeverOnlyRaw(parse)
    requires room > 0 ==> forall i :: 0 <= i < |Children(w)| ==> PartExact(Children(w)[i], room - 1, parse)
    ensures room > 0 && ChildrenWithin(w, room - 1) && Unmarked(w) ==> Reread(w, room, parse) == Ok(w)
    ensures !(room > 0 && ChildrenWithin(w, room - 1) && Unmarked(w)) ==>
      Reread(w, room, parse).Err? || Canon(Reread(w, room, parse).value) != w
  {
    hide Canon, Depth, Ascending, Marked, PartExact;
    MarkedFirst(w.fields);
    if w.fields != [] && w.fields[0].key == RAW_KEY {
      var r := Reread(w, room, parse);
      if r.Ok? && Canon(r.value) == w {
        assert |w.fields| == 1;
        SoleKey(r.value);
      }
    } else if room > 0 {
      FieldsReread(w, room, parse);
    }
  }

  lemma {:induction false} SoleKey(u: Json)
    requires OnlyRaw(Canon(u))
    ensures OnlyRaw(u)
  {
    hide Canon, Sort;
    CanonSort(u);
    CanonObj(u.fields);
    var cs := CanonFields(u.fields);
    SortMember(cs, FieldKey, Sort(cs, FieldKey)[0]);
  }

  /** The fields of an object that does not start with the marker, one by one. */
  lemma {:induction false} FieldsReread(w: Json, room: nat, parse: bytes -> Result<Json>)
    requires w.Obj? && Canon(w) == w && Ascending(w.fields, FieldKey) && room > 0
    requires !(w.fields != [] && w.fields[0].key == RAW_KEY) && !Marked(w.fields)
    requires forall i :: 0 <= i < |Children(w)| ==> PartExact(Children(w)[i], room - 1, parse)
    ensures ChildrenWithin(w, room - 1) && Unmarked(w) ==> Reread(w, room, parse) == Ok(w)
    ensures !(ChildrenWithin(w, room - 1) && Unmarked(w)) ==>
      Reread(w, room, parse).Err? || Canon(Reread(w, room, parse).value) != w
  {
    hide Canon, Depth, Ascending, Marked, Sort, Reread;
    if ChildrenWithin(w, room - 1) && Unmarked(w) {
      forall i | 0 <= i < |w.fields| ensures Reread(w.fields[i].value, room - 1, parse) == Ok(w.fields[i].value) {
        assert Children(w)[i] == w.fields[i].value && PartExact(Children(w)[i], room - 1, parse);
      }
      FieldsKept(w.fields, room, parse);
    } else if Reread(w, room, parse).Ok? && Canon(Reread(w, room, parse).value) == w {
      FieldsReturned(w, room, parse);
      forall i | 0 <= i < |Children(w)| ensures Depth(Children(w)[i]) <= room - 1 && Unmarked(Children(w)[i]) {
        assert Children(w)[i] == w.fields[i].value && PartExact(Children(w)[i], room - 1, parse);
      }
    }
  }

  lemma {:induction false} FieldsKept(fields: seq<Field>, room: nat, parse: bytes -> Result<Json>)
    requires room > 0 && !(fields != [] && fields[0].key == RAW_KEY)
    requires forall i :: 0 <= i < |fields| ==> Reread(fields[i].value, room - 1, parse) == Ok(fields[i].value)
    ensures Reread(Obj(fields), room, parse) == Ok(Obj(fields))
  {
    assert Reread(Obj(fields), room, parse).value.fields == fields;
  }

  lemma {:induction false} FieldsReturned(w: Json, room: nat, parse: bytes -> Result<Json>)
    requires w.Obj? && Ascending(w.fields, FieldKey) && room > 0 && !(w.fields != [] && w.fields[0].key == RAW_KEY)
    requires Reread(w, room, parse).Ok? && Canon(Reread(w, room, parse).value) == w
    ensures forall i :: 0 <= i < |w.fields| ==>
      && Reread(w.fields[i].value, room - 1, parse).Ok?
      && Canon(Reread(w.fields[i].value, room - 1, parse).value) == w.fields[i].value
  {
    hide Canon, Ascending, Sort;
    var us := Reread(w, room, parse).value.fields;
    CanonObj(us);
    KeysInPlace(w.fields, CanonFields(us));
    forall i | 0 <= i < |w.fields| ensures Canon(us[i].value) == w.fields[i].value {
      assert CanonFields(us)[i] == w.fields[i];
    }
  }

  /** Fields whose keys stand in ascending order are sorted already. */
  lemma {:induction false} KeysInPlace(fields: seq<Field>, other: seq<Field>)
    requires Ascending(fields, FieldKey) && |other| == |fields|
    requires forall i :: 0 <= i < |fields| ==> other[i].key == fields[i].key
    ensures Ascending(other, FieldKey) && Sort(other, FieldKey) == other
  {
    hide Less, Sort;
    SameAscending(fields, other);
    AscendingIsSorted(other);
    SortFixed(other, FieldKey);
  }

  lemma {:induction false} SameAscending(fields: seq<Field>, other: seq<Field>)
    requires Ascending(fields, FieldKey) && |other| == |fields|
    requires forall i :: 0 <= i < |fields| ==> other[i].key == fields[i].key
    ensures Ascending(other, FieldKey)
  {
    hide Less;
    if |fields| > 1 {
      SameAscending(fields[1..], other[1..]);
    }
  }

  lemma {:induction false} AscendingIsSorted(fields: seq<Field>)
    requires Ascending(fields, FieldKey)
    ensures Sorted(fields, FieldKey)
  {
    hide Less;
    if |fields| > 1 {
      LessTotal(FieldKey(fields[0]), FieldKey(fields[1]));
      AscendingIsSorted(fields[1..]);
    }
  }

  // ----- The deep input -----

  /** `n` empty arrays inside each other. */
  function Nest(n: nat): Json {
    if n <= 1 then Arr([]) else Arr([Nest(n - 1)])
  }

  lemma {:induction false} NestDepth(n: nat)
    requires n > 0
    ensures Depth(Nest(n)) == n && Unmarked(Nest(n))
  {
    hide Children;
    var v := Nest(n);
    if n > 1 {
      NestDepth(n - 1);
      var cs := Children(v);
      assert cs == [Nest(n - 1)];
      assert Deepest(v, 0) == 0;
      assert Deepest(v, 1) == Depth(cs[0]);
    }
  }
}
