/** The byte stream that identifies a build's input (`hash_point`, `hash_json` and their helpers in
    `build_progress.rs`). The hasher is its input stream; SHA-256 itself is not modelled. */
module BuildIdentity {
  import opened Wrappers
  import opened Bytes
  import opened Ordering
  import opened JsonValues

  /** Vector components are kept as the bits of the 32-bit float. */
  datatype NamedVector = NamedVector(name: bytes, values: seq<u32>)

  datatype SparseVector = SparseVector(indices: seq<u32>, values: seq<u32>)

  /** `vectors` and the payload's objects are in the iteration order of their maps. */
  datatype Point = Point(id: bytes, vector: seq<u32>, vectors: seq<NamedVector>, sparse: Option<SparseVector>,
    payload: Json)

  function NameKey(v: NamedVector): Key {
    v.name
  }

  /** How a number prints. */
  type NumberText = Json -> bytes

  predicate Number(v: Json) {
    || (v.Int? && -0x8000_0000_0000_0000 <= v.value < 0x1_0000_0000_0000_0000)
    || (v.Float? && Finite(v.bits))
  }

  /** Distinct numbers print differently (an integer has no point or exponent, a float always one). */
  ghost predicate Lawful(text: NumberText) {
    && (forall u, v :: Number(u) && Number(v) && text(u) == text(v) ==> u == v)
    && forall v :: |text(v)| < U64_LIMIT
  }

  lemma {:induction false} LawfulText(text: NumberText)
    requires text == ((v: Json) =>
      match v
      case Int(i) => if 0 <= i < U64_LIMIT then [0] + Put64(i) else if 0 < -i < U64_LIMIT then [1] + Put64(-i) else []
      case Float(bits) => [2] + Put64(bits)
      case _ => [])
    ensures Lawful(text)
  {
    forall u, v | Number(u) && Number(v) && text(u) == text(v) ensures u == v {
      assert text(u)[1..] == text(v)[1..];
      assert FromLE(text(u)[1..]) == FromLE(text(v)[1..]);
      assert text(u)[0] == text(v)[0];
    }
  }

  // ----- The stream -----

  /** A length is cast to 64 bits. */
  function Size(n: nat): (s: bytes)
    ensures |s| == 8
  {
    Put64(n % U64_LIMIT)
  }

  function Block(s: bytes): bytes {
    Size(|s|) + s
  }

  function WordsFrom(vs: seq<u32>, i: nat): bytes
    requires i <= |vs|
    decreases |vs| - i
  {
    if i == |vs| then [] else Put32(vs[i]) + WordsFrom(vs, i + 1)
  }

  function VectorStream(vs: seq<u32>): bytes {
    Size(|vs|) + WordsFrom(vs, 0)
  }

  function Width(v: Json): nat {
    if v.Arr? then |v.items| else if v.Obj? then |v.fields| else 0
  }

  /** A value written with its fields in the order they stand in. */
  function Raw(v: Json, text: NumberText): bytes
    decreases v, Width(v) + 1
  {
    match v
    case Null => [0]
    case Bool(flag) => [1, if flag then 1 else 0]
    case Int(_) => [2] + Block(text(v))
    case Float(_) => [2] + Block(text(v))
    case Str(s) => [3] + Block(s)
    case Arr(items) => [4] + Size(|items|) + ItemsFrom(v, 0, text)
    case Obj(fields) => [5] + Size(|fields|) + FieldsFrom(v, 0, text)
  }

  function ItemsFrom(v: Json, i: nat, text: NumberText): bytes
    requires v.Arr? && i <= |v.items|
    decreases v, |v.items| - i
  {
    if i == |v.items| then [] else Raw(v.items[i], text) + ItemsFrom(v, i + 1, text)
  }

  function FieldsFrom(v: Json, i: nat, text: NumberText): bytes
    requires v.Obj? && i <= |v.fields|
    decreases v, |v.fields| - i
  {
    if i == |v.fields| then []
    else Block(v.fields[i].key) + Raw(v.fields[i].value, text) + FieldsFrom(v, i + 1, text)
  }

  /** What `hash_json` feeds: every object's fields in key order. */
  function JsonStream(v: Json, text: NumberText): bytes {
    Raw(Canon(v), text)
  }

  function NamedFrom(vs: seq<NamedVector>, i: nat): bytes
    requires i <= |vs|
    decreases |vs| - i
  {
    if i == |vs| then [] else Block(vs[i].name) + VectorStream(vs[i].values) + NamedFrom(vs, i + 1)
  }

  function SparseStream(s: Option<SparseVector>): bytes {
    match s
    case None => [0]
    case Some(sparse) => [1] + VectorStream(sparse.indices) + VectorStream(sparse.values)
  }

  function PointStream(p: Point, text: NumberText): bytes {
    Block(p.id) + VectorStream(p.vector) + Size(|p.vectors|) + NamedFrom(Sort(p.vectors, NameKey), 0)
      + SparseStream(p.sparse) + JsonStream(p.payload, text)
  }

  function PointsFrom(points: seq<Point>, i: nat, text: NumberText): bytes
    requires i <= |points|
    decreases |points| - i
  {
    if i == |points| then [] else PointStream(points[i], text) + PointsFrom(points, i + 1, text)
  }

  /** `chirondb-build-input-v1`. */
  const DOMAIN: bytes :=
    [99, 104, 105, 114, 111, 110, 100, 98, 45, 98, 117, 105, 108, 100, 45, 105, 110, 112, 117, 116, 45, 118, 49]

  function InputStream(points: seq<Point>, text: NumberText): bytes {
    Block(DOMAIN) + Size(|points|) + PointsFrom(points, 0, text)
  }

  // ----- Equality of inputs -----

  /** Every length the machine can hold. */
  predicate Fits(v: Json) {
    match v
    case Null => true
    case Bool(_) => true
    case Int(_) => true
    case Float(_) => true
    case Str(s) => |s| < U64_LIMIT
    case Arr(items) => |items| < U64_LIMIT && forall i :: 0 <= i < |items| ==> Fits(items[i])
    case Obj(fields) =>
      && |fields| < U64_LIMIT
      && forall i :: 0 <= i < |fields| ==> |fields[i].key| < U64_LIMIT && Fits(fields[i].value)
  }

  predicate NamedFit(vs: seq<NamedVector>) {
    |vs| < U64_LIMIT && forall i :: 0 <= i < |vs| ==> |vs[i].name| < U64_LIMIT && |vs[i].values| < U64_LIMIT
  }

  predicate SparseFits(s: Option<SparseVector>) {
    s.Some? ==> |s.value.indices| < U64_LIMIT && |s.value.values| < U64_LIMIT
  }

  predicate PointFits(p: Point, utf8: bytes -> bool) {
    && |p.id| < U64_LIMIT && |p.vector| < U64_LIMIT
    && NamedFit(p.vectors) && Distinct(p.vectors, NameKey)
    && SparseFits(p.sparse)
    && WellFormed(p.payload, utf8) && Fits(p.payload)
  }

  predicate AllFit(points: seq<Point>, utf8: bytes -> bool) {
    |points| < U64_LIMIT && forall i :: 0 <= i < |points| ==> PointFits(points[i], utf8)
  }

  /** Equal up to the iteration order of the named vectors and of every object in the payload. */
  predicate SamePoint(p: Point, q: Point) {
    && p.id == q.id && p.vector == q.vector && p.sparse == q.sparse
    && |p.vectors| == |q.vectors| && (forall v :: v in p.vectors ==> v in q.vectors)
    && Same(p.payload, q.payload)
  }

  predicate SamePoints(a: seq<Point>, b: seq<Point>) {
    |a| == |b| && forall i :: 0 <= i < |a| ==> SamePoint(a[i], b[i])
  }

  // ----- Self-delimiting pieces: a piece and what follows it are read back from the stream -----

  lemma {:induction false} Cancel(p: bytes, q: bytes, x: bytes, y: bytes)
    requires p + x == q + y && |p| == |q|
    ensures p == q && x == y
  {
    assert p == (p + x)[..|p|] && q == (q + y)[..|q|];
    assert x == (p + x)[|p|..] && y == (q + y)[|q|..];
  }

  lemma {:induction false} SizeCancel(m: nat, n: nat, x: bytes, y: bytes)
    requires m < U64_LIMIT && n < U64_LIMIT && Size(m) + x == Size(n) + y
    ensures m == n && x == y
  {
    hide LE, FromLE;
    var p, q := Put64(m), Put64(n);
    assert Size(m) == p && Size(n) == q;
    Cancel(p, q, x, y);
    assert FromLE(p) == m && FromLE(q) == n;
  }

  lemma {:induction false} Assoc(a: bytes, b: bytes, c: bytes)
    ensures a + b + c == a + (b + c)
  {
  }

  lemma {:induction false} AssocFour(a: bytes, b: bytes, c: bytes, d: bytes)
    ensures a + b + c + d == a + (b + (c + d))
  {
    Assoc(a, b, c);
    Assoc(a, b + c, d);
    Assoc(b, c, d);
  }

  /** A counted piece: the counts agree, and so does what follows them. */
  lemma {:induction false} CountCancel(m: nat, n: nat, u: bytes, v: bytes, x: bytes, y: bytes)
    requires m < U64_LIMIT && n < U64_LIMIT && Size(m) + u + x == Size(n) + v + y
    ensures m == n && u + x == v + y
  {
    hide Size;
    Assoc(Size(m), u, x);
    Assoc(Size(n), v, y);
    SizeCancel(m, n, u + x, v + y);
  }

  lemma {:induction false} BlockCancel(s: bytes, t: bytes, x: bytes, y: bytes)
    requires |s| < U64_LIMIT && |t| < U64_LIMIT && Block(s) + x == Block(t) + y
    ensures s == t && x == y
  {
    hide Size;
    CountCancel(|s|, |t|, s, t, x, y);
    Cancel(s, t, x, y);
  }

  lemma {:induction false} WordsCancel(a: seq<u32>, b: seq<u32>, i: nat, x: bytes, y: bytes)
    requires i <= |a| == |b| && WordsFrom(a, i) + x == WordsFrom(b, i) + y
    ensures a[i..] == b[i..] && x == y
    decreases |a| - i
  {
    hide Put32;
    if i < |a| {
      var p, q := Put32(a[i]), Put32(b[i]);
      var u, v := WordsFrom(a, i + 1) + x, WordsFrom(b, i + 1) + y;
      assert WordsFrom(a, i) + x == p + u && WordsFrom(b, i) + y == q + v;
      Cancel(p, q, u, v);
      assert FromLE(p) == a[i] && FromLE(q) == b[i];
      WordsCancel(a, b, i + 1, x, y);
      assert a[i..] == [a[i]] + a[i + 1..] && b[i..] == [b[i]] + b[i + 1..];
    } else {
      Cancel(WordsFrom(a, i), WordsFrom(b, i), x, y);
    }
  }

  lemma {:induction false} VectorCancel(a: seq<u32>, b: seq<u32>, x: bytes, y: bytes)
    requires |a| < U64_LIMIT && |b| < U64_LIMIT && VectorStream(a) + x == VectorStream(b) + y
    ensures a == b && x == y
  {
    hide Size, WordsFrom;
    CountCancel(|a|, |b|, WordsFrom(a, 0), WordsFrom(b, 0), x, y);
    WordsCancel(a, b, 0, x, y);
    assert a == a[0..] && b == b[0..];
  }

  /** Numbers in range, lengths in range: what the stream can tell apart. */
  predicate Readable(v: Json) {
    match v
    case Null => true
    case Bool(_) => true
    case Int(_) => Number(v)
    case Float(_) => Number(v)
    case Str(s) => |s| < U64_LIMIT
    case Arr(items) => |items| < U64_LIMIT && forall i :: 0 <= i < |items| ==> Readable(items[i])
    case Obj(fields) =>
      && |fields| < U64_LIMIT
      && forall i :: 0 <= i < |fields| ==> |fields[i].key| < U64_LIMIT && Readable(fields[i].value)
  }

  /** The first byte tells the case. */
  function Tag(v: Json): byte {
    match v
    case Null => 0
    case Bool(_) => 1
    case Int(_) => 2
    case Float(_) => 2
    case Str(_) => 3
    case Arr(_) => 4
    case Obj(_) => 5
  }

  function Body(v: Json, text: NumberText): bytes {
    match v
    case Null => []
    case Bool(flag) => [if flag then 1 else 0]
    case Int(_) => Block(text(v))
    case Float(_) => Block(text(v))
    case Str(s) => Block(s)
    case Arr(items) => Size(|items|) + ItemsFrom(v, 0, text)
    case Obj(fields) => Size(|fields|) + FieldsFrom(v, 0, text)
  }

  lemma {:induction false} RawSplit(v: Json, text: NumberText)
    ensures Raw(v, text) == [Tag(v)] + Body(v, text)
  {
    hide Size, Block, ItemsFrom, FieldsFrom;
  }

  lemma {:induction false} BodyCancel(a: Json, b: Json, text: NumberText, x: bytes, y: bytes)
    requires Raw(a, text) + x == Raw(b, text) + y
    ensures Tag(a) == Tag(b) && Body(a, text) + x == Body(b, text) + y
  {
    hide Raw, Body, Tag;
    RawSplit(a, text);
    RawSplit(b, text);
    var p, q := [Tag(a)], [Tag(b)];
    Assoc(p, Body(a, text), x);
    Assoc(q, Body(b, text), y);
    Cancel(p, q, Body(a, text) + x, Body(b, text) + y);
    assert p[0] == q[0];
  }

  lemma {:induction false} RawCancel(a: Json, b: Json, text: NumberText, x: bytes, y: bytes)
    requires Lawful(text) && Readable(a) && Readable(b)
    requires Raw(a, text) + x == Raw(b, text) + y
    ensures a == b && x == y
    decreases a, Width(a) + 1
  {
    hide Raw, Size, Block, ItemsFrom, FieldsFrom;
    BodyCancel(a, b, text, x, y);
    match a
    case Null => Cancel(Body(a, text), Body(b, text), x, y);
    case Bool(_) => Cancel(Body(a, text), Body(b, text), x, y);
    case Int(_) => BlockCancel(text(a), text(b), x, y);
    case Float(_) => BlockCancel(text(a), text(b), x, y);
    case Str(s) => BlockCancel(s, b.text, x, y);
    case Arr(items) =>
      CountCancel(|items|, |b.items|, ItemsFrom(a, 0, text), ItemsFrom(b, 0, text), x, y);
      ItemsCancel(a, b, 0, text, x, y);
      assert items[0..] == items && b.items[0..] == b.items;
    case Obj(fields) =>
      CountCancel(|fields|, |b.fields|, FieldsFrom(a, 0, text), FieldsFrom(b, 0, text), x, y);
      FieldsCancel(a, b, 0, text, x, y);
      assert fields[0..] == fields && b.fields[0..] == b.fields;
  }

  lemma {:induction false} ItemsCancel(a: Json, b: Json, i: nat, text: NumberText, x: bytes, y: bytes)
    requires Lawful(text) && Readable(a) && Readable(b)
    requires a.Arr? && b.Arr? && i <= |a.items| == |b.items|
    requires ItemsFrom(a, i, text) + x == ItemsFrom(b, i, text) + y
    ensures a.items[i..] == b.items[i..] && x == y
    decreases a, |a.items| - i
  {
    hide Raw, Lawful;
    if i < |a.items| {
      var u, v := ItemsFrom(a, i + 1, text) + x, ItemsFrom(b, i + 1, text) + y;
      assert ItemsFrom(a, i, text) + x == Raw(a.items[i], text) + u;
      assert ItemsFrom(b, i, text) + y == Raw(b.items[i], text) + v;
      RawCancel(a.items[i], b.items[i], text, u, v);
      ItemsCancel(a, b, i + 1, text, x, y);
      assert a.items[i..] == [a.items[i]] + a.items[i + 1..] && b.items[i..] == [b.items[i]] + b.items[i + 1..];
    } else {
      Cancel(ItemsFrom(a, i, text), ItemsFrom(b, i, text), x, y);
    }
  }

  lemma {:induction false} FieldsCancel(a: Json, b: Json, i: nat, text: NumberText, x: bytes, y: bytes)
    requires Lawful(text) && Readable(a) && Readable(b)
    requires a.Obj? && b.Obj? && i <= |a.fields| == |b.fields|
    requires FieldsFrom(a, i, text) + x == FieldsFrom(b, i, text) + y
    ensures a.fields[i..] == b.fields[i..] && x == y
    decreases a, |a.fields| - i
  {
    hide Raw, Lawful, Block;
    if i < |a.fields| {
      var f, g := a.fields[i], b.fields[i];
      var u, v := FieldsFrom(a, i + 1, text) + x, FieldsFrom(b, i + 1, text) + y;
      assert FieldsFrom(a, i, text) + x == Block(f.key) + (Raw(f.value, text) + u);
      assert FieldsFrom(b, i, text) + y == Block(g.key) + (Raw(g.value, text) + v);
      BlockCancel(f.key, g.key, Raw(f.value, text) + u, Raw(g.value, text) + v);
      RawCancel(f.value, g.value, text, u, v);
      FieldsCancel(a, b, i + 1, text, x, y);
      assert a.fields[i..] == [f] + a.fields[i + 1..] && b.fields[i..] == [g] + b.fields[i + 1..];
    } else {
      Cancel(FieldsFrom(a, i, text), FieldsFrom(b, i, text), x, y);
    }
  }

  /** Sorting fields keeps a value readable. */
  lemma {:induction false} CanonReadable(v: Json, utf8: bytes -> bool)
    requires WellFormed(v, utf8) && Fits(v)
    ensures Readable(Canon(v))
  {
    match v
    case Null =>
    case Bool(_) =>
    case Int(_) =>
    case Float(_) =>
    case Str(_) =>
    case Arr(items) =>
      CanonArr(items);
      forall i | 0 <= i < |items| ensures Readable(CanonItems(items)[i]) {
        CanonReadable(items[i], utf8);
      }
    case Obj(fields) =>
      CanonObj(fields);
      var sorted := Sort(CanonFields(fields), FieldKey);
      forall i | 0 <= i < |fields| ensures Readable(Canon(fields[i].value)) {
        CanonReadable(fields[i].value, utf8);
      }
      forall i | 0 <= i < |sorted| ensures |sorted[i].key| < U64_LIMIT && Readable(sorted[i].value) {
        SortMember(CanonFields(fields), FieldKey, sorted[i]);
      }
  }

  /** A payload's stream, followed by anything, tells the payload up to field order and what follows. */
  lemma {:induction false} JsonStreamExact(a: Json, b: Json, text: NumberText, utf8: bytes -> bool, x: bytes, y: bytes)
    requires Lawful(text) && WellFormed(a, utf8) && WellFormed(b, utf8) && Fits(a) && Fits(b)
    ensures JsonStream(a, text) + x == JsonStream(b, text) + y <==> Same(a, b) && x == y
  {
    hide Raw, Lawful, WellFormed, Fits, Same, Canon;
    CanonReadable(a, utf8);
    CanonReadable(b, utf8);
    CanonExact(a, b, utf8);
    if JsonStream(a, text) + x == JsonStream(b, text) + y {
      RawCancel(Canon(a), Canon(b), text, x, y);
    }
  }

  // ----- Points -----

  lemma {:induction false} NamedCancel(a: seq<NamedVector>, b: seq<NamedVector>, i: nat, x: bytes, y: bytes)
    requires NamedFit(a) && NamedFit(b) && i <= |a| == |b|
    requires NamedFrom(a, i) + x == NamedFrom(b, i) + y
    ensures a[i..] == b[i..] && x == y
    decreases |a| - i
  {
    hide Block, VectorStream;
    if i < |a| {
      var f, g := a[i], b[i];
      var u, v := NamedFrom(a, i + 1) + x, NamedFrom(b, i + 1) + y;
      assert NamedFrom(a, i) + x == Block(f.name) + (VectorStream(f.values) + u);
      assert NamedFrom(b, i) + y == Block(g.name) + (VectorStream(g.values) + v);
      BlockCancel(f.name, g.name, VectorStream(f.values) + u, VectorStream(g.values) + v);
      VectorCancel(f.values, g.values, u, v);
      NamedCancel(a, b, i + 1, x, y);
      assert a[i..] == [f] + a[i + 1..] && b[i..] == [g] + b[i + 1..];
    } else {
      Cancel(NamedFrom(a, i), NamedFrom(b, i), x, y);
    }
  }

  lemma {:induction false} SparseCancel(a: Option<SparseVector>, b: Option<SparseVector>, x: bytes, y: bytes)
    requires SparseFits(a) && SparseFits(b)
    requires SparseStream(a) + x == SparseStream(b) + y
    ensures a == b && x == y
  {
    hide SparseStream, SparseBody;
    SparseSplit(a);
    SparseSplit(b);
    var p, q := SparseTag(a), SparseTag(b);
    Assoc(p, SparseBody(a), x);
    Assoc(q, SparseBody(b), y);
    Cancel(p, q, SparseBody(a) + x, SparseBody(b) + y);
    assert p[0] == q[0];
    if a.Some? {
      SparseBodyCancel(a.value, b.value, x, y);
    } else {
      assert a == b;
      Cancel(SparseBody(a), SparseBody(b), x, y);
    }
  }

  function SparseTag(s: Option<SparseVector>): bytes {
    [if s.Some? then 1 else 0]
  }

  lemma {:induction false} SparseSplit(s: Option<SparseVector>)
    ensures SparseStream(s) == SparseTag(s) + SparseBody(s)
  {
    hide VectorStream;
    if s.Some? {
      Assoc([1], VectorStream(s.value.indices), VectorStream(s.value.values));
    }
  }

  function SparseBody(s: Option<SparseVector>): bytes {
    if s.Some? then VectorStream(s.value.indices) + VectorStream(s.value.values) else []
  }

  lemma {:induction false} SparseBodyCancel(a: SparseVector, b: SparseVector, x: bytes, y: bytes)
    requires SparseFits(Some(a)) && SparseFits(Some(b))
    requires SparseBody(Some(a)) + x == SparseBody(Some(b)) + y
    ensures a == b && x == y
  {
    hide VectorStream;
    var u, v := VectorStream(a.values) + x, VectorStream(b.values) + y;
    Assoc(VectorStream(a.indices), VectorStream(a.values), x);
    Assoc(VectorStream(b.indices), VectorStream(b.values), y);
    VectorCancel(a.indices, b.indices, u, v);
    VectorCancel(a.values, b.values, x, y);
  }

  /** The named vectors in name order are one list exactly when the maps are equal. */
  lemma {:induction false} NamesExact(a: seq<NamedVector>, b: seq<NamedVector>)
    requires Distinct(a, NameKey) && Distinct(b, NameKey)
    ensures Sort(a, NameKey) == Sort(b, NameKey) <==> |a| == |b| && forall v :: v in a ==> v in b
  {
    hide Sort, Distinct;
    SortAscending(a, NameKey);
    SortAscending(b, NameKey);
    forall v ensures (v in Sort(a, NameKey) <==> v in a) && (v in Sort(b, NameKey) <==> v in b) {
      SortMember(a, NameKey, v);
      SortMember(b, NameKey, v);
    }
    if |a| == |b| && forall v :: v in a ==> v in b {
      DistinctCover(a, b, NameKey);
      AscendingUnique(Sort(a, NameKey), Sort(b, NameKey), NameKey);
    }
  }

  lemma {:induction false} SortedNamesFit(a: seq<NamedVector>)
    requires NamedFit(a)
    ensures NamedFit(Sort(a, NameKey))
  {
    hide Sort;
    var sorted := Sort(a, NameKey);
    forall i | 0 <= i < |sorted| ensures |sorted[i].name| < U64_LIMIT && |sorted[i].values| < U64_LIMIT {
      SortMember(a, NameKey, sorted[i]);
    }
  }

  /** The pieces of a point's stream after the vectors, and after the id. */
  function TailStream(p: Point, text: NumberText): bytes {
    SparseStream(p.sparse) + JsonStream(p.payload, text)
  }

  function NamesStream(p: Point, text: NumberText): bytes {
    Size(|p.vectors|) + NamedFrom(Sort(p.vectors, NameKey), 0) + TailStream(p, text)
  }

  lemma {:induction false} TailExact(p: Point, q: Point, text: NumberText, utf8: bytes -> bool, x: bytes, y: bytes)
    requires Lawful(text) && PointFits(p, utf8) && PointFits(q, utf8)
    ensures TailStream(p, text) + x == TailStream(q, text) + y <==>
      p.sparse == q.sparse && Same(p.payload, q.payload) && x == y
  {
    hide Lawful, WellFormed, Fits, Same, JsonStream, SparseStream, Distinct;
    JsonStreamExact(p.payload, q.payload, text, utf8, x, y);
    var u, v := JsonStream(p.payload, text) + x, JsonStream(q.payload, text) + y;
    assert TailStream(p, text) + x == SparseStream(p.sparse) + u;
    assert TailStream(q, text) + y == SparseStream(q.sparse) + v;
    if SparseStream(p.sparse) + u == SparseStream(q.sparse) + v {
      SparseCancel(p.sparse, q.sparse, u, v);
    }
  }

  lemma {:induction false} NamesStreamExact(
    p: Point, q: Point, text: NumberText, utf8: bytes -> bool, x: bytes, y: bytes)
    requires Lawful(text) && PointFits(p, utf8) && PointFits(q, utf8)
    ensures NamesStream(p, text) + x == NamesStream(q, text) + y <==>
      && |p.vectors| == |q.vectors| && (forall v :: v in p.vectors ==> v in q.vectors)
      && p.sparse == q.sparse && Same(p.payload, q.payload) && x == y
  {
    hide Lawful, WellFormed, Fits, Same, TailStream, Distinct, Sort, NamedFrom, Size, NamedFit;
    TailExact(p, q, text, utf8, x, y);
    NamesExact(p.vectors, q.vectors);
    SortedNamesFit(p.vectors);
    SortedNamesFit(q.vectors);
    var sp, sq := Sort(p.vectors, NameKey), Sort(q.vectors, NameKey);
    var u, v := TailStream(p, text) + x, TailStream(q, text) + y;
    assert NamesStream(p, text) + x == Size(|p.vectors|) + (NamedFrom(sp, 0) + u);
    assert NamesStream(q, text) + y == Size(|q.vectors|) + (NamedFrom(sq, 0) + v);
    NamedFitSize(p.vectors);
    NamedFitSize(q.vectors);
    if Size(|p.vectors|) + (NamedFrom(sp, 0) + u) == Size(|q.vectors|) + (NamedFrom(sq, 0) + v) {
      SizeCancel(|p.vectors|, |q.vectors|, NamedFrom(sp, 0) + u, NamedFrom(sq, 0) + v);
      NamedCancel(sp, sq, 0, u, v);
      assert sp == sp[0..] && sq == sq[0..];
    }
  }

  lemma {:induction false} NamedFitSize(a: seq<NamedVector>)
    requires NamedFit(a)
    ensures |a| < U64_LIMIT
  {
  }

  /** A point's stream, followed by anything, tells the point up to map order and what follows. */
  lemma {:induction false} PointStreamExact(
    p: Point, q: Point, text: NumberText, utf8: bytes -> bool, x: bytes, y: bytes)
    requires Lawful(text) && PointFits(p, utf8) && PointFits(q, utf8)
    ensures PointStream(p, text) + x == PointStream(q, text) + y <==> SamePoint(p, q) && x == y
  {
    hide Lawful, WellFormed, Fits, Same, Distinct, Sort, NamesStream, NamedFit, Block, VectorStream, PointStream;
    NamesStreamExact(p, q, text, utf8, x, y);
    PointSplit(p, text);
    PointSplit(q, text);
    var u, v := NamesStream(p, text) + x, NamesStream(q, text) + y;
    AssocFour(Block(p.id), VectorStream(p.vector), NamesStream(p, text), x);
    AssocFour(Block(q.id), VectorStream(q.vector), NamesStream(q, text), y);
    if PointStream(p, text) + x == PointStream(q, text) + y {
      BlockCancel(p.id, q.id, VectorStream(p.vector) + u, VectorStream(q.vector) + v);
      VectorCancel(p.vector, q.vector, u, v);
    }
  }

  lemma {:induction false} PointSplit(p: Point, text: NumberText)
    ensures PointStream(p, text) == Block(p.id) + VectorStream(p.vector) + NamesStream(p, text)
  {
    hide Block, VectorStream, Sort, NamedFrom, Size, SparseStream, JsonStream;
    var a, b, c, d := Block(p.id) + VectorStream(p.vector), Size(|p.vectors|), NamedFrom(Sort(p.vectors, NameKey), 0),
      SparseStream(p.sparse);
    var e := JsonStream(p.payload, text);
    assert a + b + c + d + e == a + (b + c + (d + e));
  }

  lemma {:induction false} PointsExact(a: seq<Point>, b: seq<Point>, i: nat, text: NumberText, utf8: bytes -> bool)
    requires Lawful(text) && AllFit(a, utf8) && AllFit(b, utf8) && i <= |a| == |b|
    ensures PointsFrom(a, i, text) == PointsFrom(b, i, text) <==> forall k :: i <= k < |a| ==> SamePoint(a[k], b[k])
    decreases |a| - i
  {
    hide Lawful, PointFits, SamePoint, PointStream;
    if i < |a| {
      PointsExact(a, b, i + 1, text, utf8);
      PointStreamExact(a[i], b[i], text, utf8, PointsFrom(a, i + 1, text), PointsFrom(b, i + 1, text));
    }
  }

  /** Two inputs feed the hash one stream if and only if they are equal up to map order. */
  lemma {:induction false} InputStreamExact(a: seq<Point>, b: seq<Point>, text: NumberText, utf8: bytes -> bool)
    requires Lawful(text) && AllFit(a, utf8) && AllFit(b, utf8)
    ensures InputStream(a, text) == InputStream(b, text) <==> SamePoints(a, b)
  {
    hide Lawful, PointFits, SamePoint, PointsFrom, Size, Block;
    var u, v := PointsFrom(a, 0, text), PointsFrom(b, 0, text);
    assert InputStream(a, text) == Block(DOMAIN) + (Size(|a|) + u);
    assert InputStream(b, text) == Block(DOMAIN) + (Size(|b|) + v);
    if InputStream(a, text) == InputStream(b, text) {
      Cancel(Block(DOMAIN), Block(DOMAIN), Size(|a|) + u, Size(|b|) + v);
      SizeCancel(|a|, |b|, u, v);
    }
    if |a| == |b| {
      PointsExact(a, b, 0, text, utf8);
    }
  }

  // ----- The hasher -----

  /** The hash state, known by the bytes it was fed. */
  class Hasher {
    var fed: bytes

    constructor ()
      ensures fed == []
    {
      fed := [];
    }

    method Update(data: bytes)
      modifies this
      ensures fed == old(fed) + data
    {
      fed := fed + data;
    }

    method HashUsize(n: nat)
      modifies this
      ensures fed == old(fed) + Size(n)
    {
      Update(Put64(n % U64_LIMIT));
    }

    method HashBytes(s: bytes)
      modifies this
      ensures fed == old(fed) + Block(s)
    {
      hide Size;
      HashUsize(|s|);
      Update(s);
      assert old(fed) + Size(|s|) + s == old(fed) + Block(s);
    }

    method HashVector(vs: seq<u32>)
      modifies this
      ensures fed == old(fed) + VectorStream(vs)
    {
      hide Size, Put32;
      HashUsize(|vs|);
      ghost var start := fed;
      for i := 0 to |vs|
        invariant fed + WordsFrom(vs, i) == start + WordsFrom(vs, 0)
      {
        ghost var before := fed;
        Update(Put32(vs[i]));
        assert before + WordsFrom(vs, i) == fed + WordsFrom(vs, i + 1);
      }
      assert fed + WordsFrom(vs, |vs|) == fed;
      assert start + WordsFrom(vs, 0) == old(fed) + VectorStream(vs);
    }

    /** Object keys are sorted and their values looked up in that order. */
    method HashJson(v: Json, text: NumberText)
      modifies this
      ensures fed == old(fed) + JsonStream(v, text)
      decreases v, 1
    {
      hide Raw, Block, Size;
      ghost var c := Canon(v);
      RawSplit(c, text);
      ghost var start := fed;
      match v
      case Null => Update([0]);
      case Bool(flag) => Update([1, if flag then 1 else 0]);
      case Int(_) =>
        Update([2]);
        HashBytes(text(v));
      case Float(_) =>
        Update([2]);
        HashBytes(text(v));
      case Str(s) =>
        Update([3]);
        HashBytes(s);
      case Arr(items) => HashItems(v, text);
      case Obj(fields) => HashFields(v, text);
      assert fed == start + ([Tag(c)] + Body(c, text));
    }

    method HashItems(v: Json, text: NumberText)
      requires v.Arr?
      modifies this
      ensures fed == old(fed) + JsonStream(v, text)
      decreases v, 0
    {
      hide Size, Raw, Canon;
      ghost var c := Canon(v);
      CanonArr(v.items);
      Update([4]);
      HashUsize(|v.items|);
      ghost var start := fed;
      for i := 0 to |v.items|
        invariant fed + ItemsFrom(c, i, text) == start + ItemsFrom(c, 0, text)
      {
        ghost var before := fed;
        HashJson(v.items[i], text);
        assert before + ItemsFrom(c, i, text) == fed + ItemsFrom(c, i + 1, text);
      }
      RawSplit(c, text);
      assert fed + ItemsFrom(c, |v.items|, text) == fed;
      assert start + ItemsFrom(c, 0, text) == old(fed) + ([Tag(c)] + Body(c, text));
    }

    method HashFields(v: Json, text: NumberText)
      requires v.Obj?
      modifies this
      ensures fed == old(fed) + JsonStream(v, text)
      decreases v, 0
    {
      hide Size, Raw, Canon, Block, Sort;
      ghost var c := Canon(v);
      CanonObj(v.fields);
      SortThenCanon(v.fields);
      var sorted := Sort(v.fields, FieldKey);
      Update([5]);
      HashUsize(|sorted|);
      ghost var start := fed;
      for i := 0 to |sorted|
        invariant fed + FieldsFrom(c, i, text) == start + FieldsFrom(c, 0, text)
      {
        ghost var before := fed;
        SortMember(v.fields, FieldKey, sorted[i]);
        HashBytes(sorted[i].key);
        HashJson(sorted[i].value, text);
        assert before + FieldsFrom(c, i, text) == fed + FieldsFrom(c, i + 1, text);
      }
      RawSplit(c, text);
      assert fed + FieldsFrom(c, |sorted|, text) == fed;
      assert start + FieldsFrom(c, 0, text) == old(fed) + ([Tag(c)] + Body(c, text));
    }

    method HashNamed(vectors: seq<NamedVector>)
      modifies this
      ensures fed == old(fed) + (Size(|vectors|) + NamedFrom(Sort(vectors, NameKey), 0))
    {
      hide Size, Sort, Block, VectorStream;
      var sorted := Sort(vectors, NameKey);
      HashUsize(|sorted|);
      ghost var start := fed;
      for i := 0 to |sorted|
        invariant fed + NamedFrom(sorted, i) == start + NamedFrom(sorted, 0)
      {
        ghost var before := fed;
        HashBytes(sorted[i].name);
        HashVector(sorted[i].values);
        assert before + NamedFrom(sorted, i) == fed + NamedFrom(sorted, i + 1);
      }
      assert fed + NamedFrom(sorted, |sorted|) == fed;
    }

    method HashSparse(sparse: Option<SparseVector>)
      modifies this
      ensures fed == old(fed) + SparseStream(sparse)
    {
      hide VectorStream;
      match sparse
      case None => Update([0]);
      case Some(s) =>
        Update([1]);
        HashVector(s.indices);
        HashVector(s.values);
    }

    method HashPoint(p: Point, text: NumberText)
      modifies this
      ensures fed == old(fed) + PointStream(p, text)
    {
      hide Block, VectorStream, Size, NamedFrom, Sort, SparseStream, JsonStream;
      HashBytes(p.id);
      HashVector(p.vector);
      HashNamed(p.vectors);
      HashSparse(p.sparse);
      HashJson(p.payload, text);
      ghost var a, b, c, d := Block(p.id), VectorStream(p.vector), Size(|p.vectors|),
        NamedFrom(Sort(p.vectors, NameKey), 0);
      ghost var e, f := SparseStream(p.sparse), JsonStream(p.payload, text);
      assert old(fed) + a + b + (c + d) + e + f == old(fed) + (a + b + c + d + e + f);
    }
  }

  /** Hashing a build's input feeds exactly its stream. */
  method HashInput(points: seq<Point>, text: NumberText) returns (hasher: Hasher)
    ensures fresh(hasher) && hasher.fed == InputStream(points, text)
  {
    hide Block, Size, PointStream;
    hasher := new Hasher();
    hasher.HashBytes(DOMAIN);
    hasher.HashUsize(|points|);
    ghost var start := hasher.fed;
    for i := 0 to |points|
      invariant fresh(hasher)
      invariant hasher.fed + PointsFrom(points, i, text) == start + PointsFrom(points, 0, text)
    {
      ghost var before := hasher.fed;
      hasher.HashPoint(points[i], text);
      assert before + PointsFrom(points, i, text) == hasher.fed + PointsFrom(points, i + 1, text);
    }
    assert hasher.fed + PointsFrom(points, |points|, text) == hasher.fed;
    assert start == Block(DOMAIN) + Size(|points|);
  }
}
