/** The laws asked of the JSON text codec can be met: the self-delimiting stream of a canonical value is such
    a text, and reading the value behind it, with the parser's limits, such a parser. */
module PropertyCodec {
  import opened Wrappers
  import opened Bytes
  import opened Ordering
  import opened JsonValues
  import opened JsonParsing
  import BuildIdentity
  import PropertyColumns

  /** A value no longer than its stream has no length the stream cannot hold. */
  lemma {:induction false} ShortIsReadable(v: Json, text: BuildIdentity.NumberText)
    requires NumbersInRange(v) && |BuildIdentity.Raw(v, text)| < U64_LIMIT
    ensures BuildIdentity.Readable(v)
    decreases v, BuildIdentity.Width(v) + 1
  {
    BuildIdentity.RawSplit(v, text);
    match v
    case Null =>
    case Bool(_) =>
    case Int(_) =>
    case Float(_) =>
    case Str(_) =>
    case Arr(items) => ShortItems(v, 0, text);
    case Obj(fields) => ShortFields(v, 0, text);
  }

  predicate NumbersInRange(v: Json) {
    match v
    case Null => true
    case Bool(_) => true
    case Int(_) => BuildIdentity.Number(v)
    case Float(_) => BuildIdentity.Number(v)
    case Str(_) => true
    case Arr(items) => forall i :: 0 <= i < |items| ==> NumbersInRange(items[i])
    case Obj(fields) => forall i :: 0 <= i < |fields| ==> NumbersInRange(fields[i].value)
  }

  lemma {:induction false} RawNotEmpty(v: Json, text: BuildIdentity.NumberText)
    ensures |BuildIdentity.Raw(v, text)| >= 1
  {
    BuildIdentity.RawSplit(v, text);
  }

  lemma {:induction false} ShortItems(v: Json, i: nat, text: BuildIdentity.NumberText)
    requires v.Arr? && NumbersInRange(v) && i <= |v.items| && |BuildIdentity.ItemsFrom(v, i, text)| < U64_LIMIT
    ensures |v.items| - i <= |BuildIdentity.ItemsFrom(v, i, text)|
    ensures forall k :: i <= k < |v.items| ==> BuildIdentity.Readable(v.items[k])
    decreases v, |v.items| - i
  {
    if i < |v.items| {
      RawNotEmpty(v.items[i], text);
      ShortIsReadable(v.items[i], text);
      ShortItems(v, i + 1, text);
    }
  }

  lemma {:induction false} ShortFields(v: Json, i: nat, text: BuildIdentity.NumberText)
    requires v.Obj? && NumbersInRange(v) && i <= |v.fields| && |BuildIdentity.FieldsFrom(v, i, text)| < U64_LIMIT
    ensures |v.fields| - i <= |BuildIdentity.FieldsFrom(v, i, text)|
    ensures forall k :: i <= k < |v.fields| ==>
      && |v.fields[k].key| < U64_LIMIT
      && BuildIdentity.Readable(v.fields[k].value)
    decreases v, |v.fields| - i
  {
    if i < |v.fields| {
      RawNotEmpty(v.fields[i].value, text);
      ShortIsReadable(v.fields[i].value, text);
      ShortFields(v, i + 1, text);
    }
  }

  lemma {:induction false} CanonNumbers(v: Json, utf8: bytes -> bool)
    requires WellFormed(v, utf8)
    ensures NumbersInRange(Canon(v))
  {
    match v
    case Null =>
    case Bool(_) =>
    case Int(_) =>
    case Float(_) =>
    case Str(_) =>
    case Arr(items) =>
      CanonArr(items);
      forall i | 0 <= i < |items| ensures NumbersInRange(CanonItems(items)[i]) {
        CanonNumbers(items[i], utf8);
      }
    case Obj(fields) =>
      CanonObj(fields);
      var sorted := Sort(CanonFields(fields), FieldKey);
      forall i | 0 <= i < |fields| ensures NumbersInRange(Canon(fields[i].value)) {
        CanonNumbers(fields[i].value, utf8);
      }
      forall i | 0 <= i < |sorted| ensures NumbersInRange(sorted[i].value) {
        SortMember(CanonFields(fields), FieldKey, sorted[i]);
      }
  }

  ghost predicate Behind(v: Json, s: bytes, text: BuildIdentity.NumberText, utf8: bytes -> bool) {
    WellFormed(v, utf8) && BuildIdentity.Readable(Canon(v)) && BuildIdentity.JsonStream(v, text) == s
  }

  /** The parser: the value behind the stream, read with the limits; it calls itself on shorter texts only. */
  ghost function ParseText(s: bytes, text: BuildIdentity.NumberText, utf8: bytes -> bool): Result<Json>
    decreases |s|
  {
    if v :| Behind(v, s, text, utf8)
    then Reread(Canon(v), MOST_NESTED, (t: bytes) => if |t| < |s| then ParseText(t, text, utf8) else Err)
    else Err
  }

  /** All strings inside are shorter than `n`. */
  predicate TextsBelow(v: Json, n: nat)
    decreases v
  {
    (v.Str? ==> |v.text| < n) && forall i :: 0 <= i < |Children(v)| ==> TextsBelow(Children(v)[i], n)
  }

  lemma {:induction false} ChildShorter(v: Json, i: nat, text: BuildIdentity.NumberText)
    requires i < |Children(v)|
    ensures |BuildIdentity.Raw(Children(v)[i], text)| <= |BuildIdentity.Raw(v, text)|
  {
    BuildIdentity.RawSplit(v, text);
    if v.Arr? {
      ItemShorter(v, 0, i, text);
    } else {
      FieldShorter(v, 0, i, text);
    }
  }

  lemma {:induction false} ItemShorter(v: Json, from: nat, i: nat, text: BuildIdentity.NumberText)
    requires v.Arr? && from <= i < |v.items|
    ensures |BuildIdentity.Raw(v.items[i], text)| <= |BuildIdentity.ItemsFrom(v, from, text)|
    decreases i - from
  {
    hide BuildIdentity.Raw;
    if from < i {
      ItemShorter(v, from + 1, i, text);
    }
  }

  lemma {:induction false} FieldShorter(v: Json, from: nat, i: nat, text: BuildIdentity.NumberText)
    requires v.Obj? && from <= i < |v.fields|
    ensures |BuildIdentity.Raw(v.fields[i].value, text)| <= |BuildIdentity.FieldsFrom(v, from, text)|
    decreases i - from
  {
    hide BuildIdentity.Raw;
    if from < i {
      FieldShorter(v, from + 1, i, text);
    }
  }

  lemma {:induction false} TextsShorter(v: Json, n: nat, text: BuildIdentity.NumberText)
    requires |BuildIdentity.Raw(v, text)| <= n
    ensures TextsBelow(v, n)
    decreases v
  {
    hide BuildIdentity.Raw;
    if v.Str? {
      StringText(v, text);
    }
    forall i | 0 <= i < |Children(v)| ensures TextsBelow(Children(v)[i], n) {
      ChildShorter(v, i, text);
      TextsShorter(Children(v)[i], n, text);
    }
  }

  lemma {:induction false} StringText(v: Json, text: BuildIdentity.NumberText)
    requires v.Str?
    ensures |v.text| < |BuildIdentity.Raw(v, text)|
  {
  }

  /** Only the parser's answers for the strings inside matter. */
  lemma {:induction false} RereadSame(v: Json, room: nat, f: bytes -> Result<Json>, g: bytes -> Result<Json>, n: nat)
    requires TextsBelow(v, n) && forall t :: |t| < n ==> f(t) == g(t)
    ensures Reread(v, room, f) == Reread(v, room, g)
    decreases v
  {
    hide Reread;
    if room == 0 || !Container(v) {
      NoRoomSame(v, room, f, g);
    } else {
      forall i | 0 <= i < |Children(v)| ensures PartsSame(Children(v)[i], room - 1, f, g) {
        RereadSame(Children(v)[i], room - 1, f, g, n);
      }
      if v.Arr? {
        forall i | 0 <= i < |v.items| ensures PartsSame(v.items[i], room - 1, f, g) {
          assert Children(v)[i] == v.items[i];
        }
        ItemsSame(v.items, room, f, g);
      } else {
        forall i | 0 <= i < |v.fields|
          ensures PartsSame(v.fields[i].value, room - 1, f, g) && TextsBelow(v.fields[i].value, n)
        {
          assert Children(v)[i] == v.fields[i].value;
        }
        FieldsSame(v.fields, room, f, g);
      }
    }
  }

  predicate PartsSame(v: Json, room: nat, f: bytes -> Result<Json>, g: bytes -> Result<Json>) {
    Reread(v, room, f) == Reread(v, room, g)
  }

  lemma {:induction false} NoRoomSame(v: Json, room: nat, f: bytes -> Result<Json>, g: bytes -> Result<Json>)
    requires room == 0 || !Container(v)
    ensures Reread(v, room, f) == Reread(v, room, g)
  {
  }

  lemma {:induction false} ItemsSame(items: seq<Json>, room: nat, f: bytes -> Result<Json>, g: bytes -> Result<Json>)
    requires room > 0 && forall i :: 0 <= i < |items| ==> PartsSame(items[i], room - 1, f, g)
    ensures Reread(Arr(items), room, f) == Reread(Arr(items), room, g)
  {
    var x, y := Reread(Arr(items), room, f), Reread(Arr(items), room, g);
    assert forall i :: 0 <= i < |items| ==> PartsSame(items[i], room - 1, f, g);
    if x.Ok? {
      assert x.value.items == y.value.items;
    }
  }

  lemma {:induction false} FieldsSame(fields: seq<Field>, room: nat, f: bytes -> Result<Json>, g: bytes -> Result<Json>)
    requires room > 0 && forall i :: 0 <= i < |fields| ==> PartsSame(fields[i].value, room - 1, f, g)
    requires forall i :: 0 <= i < |fields| && fields[i].value.Str? ==>
      f(fields[i].value.text) == g(fields[i].value.text)
    ensures Reread(Obj(fields), room, f) == Reread(Obj(fields), room, g)
  {
    var x, y := Reread(Obj(fields), room, f), Reread(Obj(fields), room, g);
    assert forall i :: 0 <= i < |fields| ==> PartsSame(fields[i].value, room - 1, f, g);
    if x.Ok? && !(fields != [] && fields[0].key == RAW_KEY) {
      assert x.value.fields == y.value.fields;
    }
  }

  ghost predicate Sound(parse: bytes -> Result<Json>, utf8: bytes -> bool) {
    forall s :: parse(s).Ok? ==> WellFormed(parse(s).value, utf8) && !OnlyRaw(parse(s).value)
  }

  /** Reading with a sound parser gives well-formed values, and never the bare marker. */
  lemma {:induction false} RereadSound(v: Json, room: nat, parse: bytes -> Result<Json>, utf8: bytes -> bool)
    requires WellFormed(v, utf8) && Sound(parse, utf8)
    ensures var r := Reread(v, room, parse); r.Ok? ==> WellFormed(r.value, utf8) && !OnlyRaw(r.value)
    decreases v
  {
    hide Distinct;
    if room > 0 {
      forall i | 0 <= i < |Children(v)|
        ensures var r := Reread(Children(v)[i], room - 1, parse); r.Ok? ==> WellFormed(r.value, utf8)
      {
        PartWellFormed(v, utf8, i);
        RereadSound(Children(v)[i], room - 1, parse, utf8);
      }
    }
    var r := Reread(v, room, parse);
    if v.Arr? && r.Ok? {
      forall i | 0 <= i < |v.items| ensures WellFormed(r.value.items[i], utf8) {
        assert Children(v)[i] == v.items[i];
      }
    } else if v.Obj? && r.Ok? && !(v.fields != [] && v.fields[0].key == RAW_KEY) {
      forall i | 0 <= i < |v.fields| ensures WellFormed(r.value.fields[i].value, utf8) {
        assert Children(v)[i] == v.fields[i].value;
      }
      SameKeysDistinct(v.fields, r.value.fields);
    }
  }

  lemma {:induction false} SameKeysDistinct(a: seq<Field>, b: seq<Field>)
    requires Distinct(a, FieldKey) && |a| == |b| && forall i :: 0 <= i < |a| ==> a[i].key == b[i].key
    ensures Distinct(b, FieldKey) && Keys(a, FieldKey) == Keys(b, FieldKey)
  {
    if a != [] {
      SameKeysDistinct(a[1..], b[1..]);
      KeysSplit(a, FieldKey);
      KeysSplit(b, FieldKey);
    }
  }

  lemma {:induction false} ParseTextSound(s: bytes, text: BuildIdentity.NumberText, utf8: bytes -> bool)
    ensures var r := ParseText(s, text, utf8); r.Ok? ==> WellFormed(r.value, utf8) && !OnlyRaw(r.value)
    decreases |s|
  {
    hide Canon, WellFormed, Reread, OnlyRaw;
    var inner := (t: bytes) => if |t| < |s| then ParseText(t, text, utf8) else Err;
    forall t ensures inner(t).Ok? ==> WellFormed(inner(t).value, utf8) && !OnlyRaw(inner(t).value) {
      if |t| < |s| {
        ParseTextSound(t, text, utf8);
      }
    }
    assert Sound(inner, utf8);
    forall v | Behind(v, s, text, utf8)
      ensures var r := Reread(Canon(v), MOST_NESTED, inner); r.Ok? ==> WellFormed(r.value, utf8) && !OnlyRaw(r.value)
    {
      CanonWellFormed(v, utf8);
      RereadSound(Canon(v), MOST_NESTED, inner, utf8);
    }
  }

  /** A stream has one value behind it. */
  lemma {:induction false} BehindOnce(u: Json, v: Json, s: bytes, text: BuildIdentity.NumberText, utf8: bytes -> bool)
    requires BuildIdentity.Lawful(text) && Behind(u, s, text, utf8) && Behind(v, s, text, utf8)
    ensures Canon(u) == Canon(v)
  {
    hide BuildIdentity.Raw, BuildIdentity.Lawful, Canon, WellFormed;
    BuildIdentity.RawCancel(Canon(u), Canon(v), text, [], []);
  }

  lemma {:induction false} IsBehind(v: Json, text: BuildIdentity.NumberText, utf8: bytes -> bool)
    requires WellFormed(v, utf8) && |BuildIdentity.JsonStream(v, text)| < U64_LIMIT
    ensures Behind(v, BuildIdentity.JsonStream(v, text), text, utf8)
  {
    hide BuildIdentity.Raw, Canon, WellFormed;
    CanonNumbers(v, utf8);
    ShortIsReadable(Canon(v), text);
  }

  lemma {:induction false} ParsesStream(
    v: Json, text: BuildIdentity.NumberText, utf8: bytes -> bool, parse: bytes -> Result<Json>)
    requires BuildIdentity.Lawful(text) && WellFormed(v, utf8) && |BuildIdentity.JsonStream(v, text)| < U64_LIMIT
    requires forall s :: parse(s) == ParseText(s, text, utf8)
    ensures parse(BuildIdentity.JsonStream(v, text)) == Reread(Canon(v), MOST_NESTED, parse)
  {
    hide BuildIdentity.Raw, BuildIdentity.Lawful, Canon, WellFormed, Reread;
    var s := BuildIdentity.JsonStream(v, text);
    var inner := (t: bytes) => if |t| < |s| then ParseText(t, text, utf8) else Err;
    IsBehind(v, text, utf8);
    forall u | Behind(u, s, text, utf8) ensures Canon(u) == Canon(v) {
      BehindOnce(u, v, s, text, utf8);
    }
    assert ParseText(s, text, utf8) == Reread(Canon(v), MOST_NESTED, inner);
    TextsShorter(Canon(v), |s|, text);
    RereadSame(Canon(v), MOST_NESTED, inner, parse, |s|);
  }

  /** Any lawful number text gives a lawful JSON codec with the parser's limits. */
  lemma {:induction false} LawfulCodec(
    text: BuildIdentity.NumberText, utf8: bytes -> bool, codec: PropertyColumns.Codec)
    requires BuildIdentity.Lawful(text)
    requires forall v :: codec.show(v) == BuildIdentity.JsonStream(v, text)
    requires forall s :: codec.parse(s) == ParseText(s, text, utf8)
    ensures PropertyColumns.Lawful(codec, utf8)
  {
    hide BuildIdentity.Raw, BuildIdentity.Lawful, Canon, WellFormed, ParseText, Reread, OnlyRaw;
    forall v ensures codec.show(Canon(v)) == codec.show(v) {
      CanonIdempotent(v);
    }
    forall v | WellFormed(v, utf8) && |codec.show(v)| <= PropertyColumns.MAX_EDGE_PROPERTY_BYTES
      ensures codec.parse(codec.show(Canon(v))) == Reread(Canon(v), MOST_NESTED, codec.parse)
      ensures PropertyColumns.TellsApart(codec, utf8, v)
    {
      ParsesStream(v, text, utf8, codec.parse);
      StreamTells(v, text, utf8, codec);
    }
    forall s ensures codec.parse(s).Ok? ==> WellFormed(codec.parse(s).value, utf8) && !OnlyRaw(codec.parse(s).value) {
      ParseTextSound(s, text, utf8);
    }
    forall s: bytes ensures |s| <= |codec.show(Str(s))| {
      StringLonger(s, text);
    }
  }

  lemma {:induction false} StreamTells(
    v: Json, text: BuildIdentity.NumberText, utf8: bytes -> bool, codec: PropertyColumns.Codec)
    requires BuildIdentity.Lawful(text) && WellFormed(v, utf8) && |BuildIdentity.JsonStream(v, text)| < U64_LIMIT
    requires forall u :: codec.show(u) == BuildIdentity.JsonStream(u, text)
    ensures PropertyColumns.TellsApart(codec, utf8, v)
  {
    hide BuildIdentity.Raw, BuildIdentity.Lawful, Canon, WellFormed, BuildIdentity.Readable;
    IsBehind(v, text, utf8);
    forall u | WellFormed(u, utf8) && codec.show(Canon(u)) == codec.show(Canon(v)) ensures Canon(u) == Canon(v) {
      CanonIdempotent(u);
      CanonIdempotent(v);
      IsBehind(u, text, utf8);
      BehindOnce(u, v, BuildIdentity.JsonStream(v, text), text, utf8);
    }
  }

  lemma {:induction false} StringLonger(s: bytes, text: BuildIdentity.NumberText)
    ensures |s| <= |BuildIdentity.JsonStream(Str(s), text)|
  {
    assert Canon(Str(s)) == Str(s);
  }
}
