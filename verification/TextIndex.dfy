/** The incremental BM25 statistics of `bm25.rs`, one searchable field at a
    time: documents, postings, and document counts, lengths and document
    frequencies overall and per tenant. A text is the list of its tokens; its
    length is the sum of its term frequencies, that is, the number of tokens. */
module TextIndex {
  import opened Wrappers

  /** A live point as one field sees it. */
  datatype Doc = Doc(id: string, tenant: Option<string>, tokens: seq<string>)

  datatype Document = Document(tenant: Option<string>, length: nat)

  datatype Statistics = Statistics(documents: nat, length: nat, df: map<string, nat>)

  datatype Field = Field(documents: map<string, Document>, postings: map<string, map<string, nat>>, all: Statistics,
    tenants: map<Option<string>, Statistics>)

  const NO_STATISTICS: Statistics := Statistics(0, 0, map[])
  const NO_FIELD: Field := Field(map[], map[], NO_STATISTICS, map[])

  // ----- What the numbers mean -----

  function Terms(tokens: seq<string>): set<string> {
    set t | t in tokens
  }

  function Frequency(tokens: seq<string>, term: string): nat {
    multiset(tokens)[term]
  }

  function Lengths(docs: seq<Doc>): nat {
    if docs == [] then 0 else |docs[0].tokens| + Lengths(docs[1..])
  }

  function DocFreq(docs: seq<Doc>, term: string): nat {
    if docs == [] then 0 else (if term in docs[0].tokens then 1 else 0) + DocFreq(docs[1..], term)
  }

  function Of(docs: seq<Doc>, tenant: Option<string>): seq<Doc> {
    if docs == [] then [] else (if docs[0].tenant == tenant then [docs[0]] else []) + Of(docs[1..], tenant)
  }

  ghost predicate DfExact(df: map<string, nat>, docs: seq<Doc>) {
    forall t :: (t in df <==> DocFreq(docs, t) > 0) && (t in df ==> df[t] == DocFreq(docs, t))
  }

  ghost predicate StatisticsExact(s: Statistics, docs: seq<Doc>) {
    s.documents == |docs| && s.length == Lengths(docs) && DfExact(s.df, docs)
  }

  predicate Distinct(docs: seq<Doc>) {
    forall i, j :: 0 <= i < j < |docs| ==> docs[i].id != docs[j].id
  }

  predicate HasId(docs: seq<Doc>, id: string) {
    exists i :: 0 <= i < |docs| && docs[i].id == id
  }

  ghost predicate DocumentsExact(m: map<string, Document>, docs: seq<Doc>) {
    && (forall i :: 0 <= i < |docs| ==> docs[i].id in m && m[docs[i].id] == Document(docs[i].tenant, |docs[i].tokens|))
    && (forall id :: id in m ==> HasId(docs, id))
  }

  /** Some document with this id holds the term. */
  predicate Holds(docs: seq<Doc>, term: string, id: string) {
    exists i :: 0 <= i < |docs| && docs[i].id == id && term in docs[i].tokens
  }

  ghost predicate PostingExact(m: map<string, nat>, docs: seq<Doc>, term: string) {
    && (forall i :: 0 <= i < |docs| && term in docs[i].tokens ==>
           && docs[i].id in m
           && m[docs[i].id] == Frequency(docs[i].tokens, term))
    && (forall id :: id in m ==> Holds(docs, term, id))
  }

  ghost predicate PostingsExact(p: map<string, map<string, nat>>, docs: seq<Doc>) {
    && (forall t :: t in p <==> DocFreq(docs, t) > 0)
    && (forall t :: t in p ==> PostingExact(p[t], docs, t))
  }

  ghost predicate TenantsExact(m: map<Option<string>, Statistics>, docs: seq<Doc>) {
    && (forall t :: t in m <==> Of(docs, t) != [])
    && (forall t :: t in m ==> StatisticsExact(m[t], Of(docs, t)))
  }

  /** The field is what the live documents make it. */
  ghost predicate Exact(f: Field, docs: seq<Doc>) {
    && Distinct(docs)
    && DocumentsExact(f.documents, docs)
    && PostingsExact(f.postings, docs)
    && StatisticsExact(f.all, docs)
    && TenantsExact(f.tenants, docs)
  }

  // ----- Insertion and removal -----

  function StatisticsInsert(s: Statistics, tokens: seq<string>): Statistics {
    Statistics(s.documents + 1, s.length + |tokens|,
      map t | t in s.df.Keys + Terms(tokens) :: (if t in s.df then s.df[t] else 0)
        + (if t in Terms(tokens) then 1 else 0))
  }

  /** None where the source's unsigned subtraction would underflow. */
  function StatisticsRemove(s: Statistics, length: nat, tokens: seq<string>): Option<Statistics> {
    if s.documents == 0 || s.length < length || (exists t :: t in Terms(tokens) && t in s.df && s.df[t] == 0) then None
    else Some(Statistics(s.documents - 1, s.length - length,
      map t | t in s.df && (t in Terms(tokens) ==> s.df[t] != 1) :: if t in Terms(tokens) then s.df[t] - 1
        else s.df[t]))
  }

  function PostingInsert(posting: map<string, nat>, d: Doc, term: string): map<string, nat> {
    if term in d.tokens then posting[d.id := Frequency(d.tokens, term)] else posting
  }

  function PostingsInsert(postings: map<string, map<string, nat>>, d: Doc): map<string, map<string, nat>> {
    map t | t in postings.Keys + Terms(d.tokens) :: PostingInsert(if t in postings then postings[t] else map[], d, t)
  }

  function FieldInsert(f: Field, d: Doc): Field {
    var stats := if d.tenant in f.tenants then f.tenants[d.tenant] else NO_STATISTICS;
    Field(
      f.documents[d.id := Document(d.tenant, |d.tokens|)],
      PostingsInsert(f.postings, d),
      StatisticsInsert(f.all, d.tokens),
      f.tenants[d.tenant := StatisticsInsert(stats, d.tokens)])
  }

  function TenantsRemove(
    tenants: map<Option<string>, Statistics>, tenant: Option<string>, length: nat,
    tokens: seq<string>): Option<map<Option<string>, Statistics>> {
    if tenant !in tenants then Some(tenants)
    else
      match StatisticsRemove(tenants[tenant], length, tokens)
      case None => None
      case Some(s) => Some(if s.documents == 0 then tenants - {tenant} else tenants[tenant := s])
  }

  function PostingsRemove(
    postings: map<string, map<string, nat>>, id: string, tokens: seq<string>): map<string, map<string, nat>> {
    map t | t in postings && (t in Terms(tokens) ==> postings[t] - {id} != map[]) :: if t in Terms(tokens)
      then postings[t] - {id} else postings[t]
  }

  /** A point the field does not hold changes nothing; None where a counter would underflow. */
  function FieldRemove(f: Field, d: Doc): Option<Field> {
    if d.id !in f.documents then Some(f)
    else
      var document := f.documents[d.id];
      match (StatisticsRemove(f.all, document.length, d.tokens),
        TenantsRemove(f.tenants, document.tenant, document.length, d.tokens))
      case (Some(all), Some(tenants)) => Some(Field(f.documents - {d.id}, PostingsRemove(f.postings, d.id, d.tokens),
        all, tenants))
      case _ => None
  }

  // ----- Appending a document -----

  lemma {:induction false} LengthsSnoc(docs: seq<Doc>, d: Doc)
    ensures Lengths(docs + [d]) == Lengths(docs) + |d.tokens|
  {
    if docs == [] {
      assert docs + [d] == [d] && [d][1..] == docs;
    } else {
      assert (docs + [d])[1..] == docs[1..] + [d];
      LengthsSnoc(docs[1..], d);
    }
  }

  lemma {:induction false} DocFreqSnoc(docs: seq<Doc>, d: Doc, t: string)
    ensures DocFreq(docs + [d], t) == DocFreq(docs, t) + (if t in d.tokens then 1 else 0)
  {
    if docs == [] {
      assert docs + [d] == [d] && [d][1..] == docs;
    } else {
      assert (docs + [d])[1..] == docs[1..] + [d];
      DocFreqSnoc(docs[1..], d, t);
    }
  }

  lemma {:induction false} OfConcat(a: seq<Doc>, b: seq<Doc>, tenant: Option<string>)
    ensures Of(a + b, tenant) == Of(a, tenant) + Of(b, tenant)
  {
    if a == [] {
      assert a + b == b;
    } else {
      assert (a + b)[1..] == a[1..] + b;
      OfConcat(a[1..], b, tenant);
      var head := if a[0].tenant == tenant then [a[0]] else [];
      assert head + (Of(a[1..], tenant) + Of(b, tenant)) == (head + Of(a[1..], tenant)) + Of(b, tenant);
    }
  }

  lemma {:induction false} OfSnoc(docs: seq<Doc>, d: Doc, tenant: Option<string>)
    ensures Of(docs + [d], tenant) == Of(docs, tenant) + (if d.tenant == tenant then [d] else [])
  {
    OfConcat(docs, [d], tenant);
    assert [d][1..] == [];
    assert Of([], tenant) == [];
  }

  lemma {:induction false} StatisticsGrow(s: Statistics, docs: seq<Doc>, d: Doc)
    requires StatisticsExact(s, docs)
    ensures StatisticsExact(StatisticsInsert(s, d.tokens), docs + [d])
  {
    hide DocFreq, Lengths;
    LengthsSnoc(docs, d);
    var s' := StatisticsInsert(s, d.tokens);
    forall t ensures (t in s'.df <==> DocFreq(docs + [d], t) > 0)
      && (t in s'.df ==> s'.df[t] == DocFreq(docs + [d], t)) {
      DocFreqSnoc(docs, d, t);
      assert t in s.df <==> DocFreq(docs, t) > 0;
    }
  }

  lemma {:induction false} NoStatistics()
    ensures StatisticsExact(NO_STATISTICS, [])
  {
  }

  lemma {:induction false} TenantsGrow(m: map<Option<string>, Statistics>, docs: seq<Doc>, d: Doc)
    requires TenantsExact(m, docs)
    ensures var stats := if d.tenant in m then m[d.tenant] else NO_STATISTICS;
      TenantsExact(m[d.tenant := StatisticsInsert(stats, d.tokens)], docs + [d])
  {
    hide StatisticsExact, Of, StatisticsInsert;
    var stats := if d.tenant in m then m[d.tenant] else NO_STATISTICS;
    var m' := m[d.tenant := StatisticsInsert(stats, d.tokens)];
    NoStatistics();
    StatisticsGrow(stats, Of(docs, d.tenant), d);
    forall t ensures t in m' <==> Of(docs + [d], t) != []
             ensures t in m' ==> StatisticsExact(m'[t], Of(docs + [d], t)) {
      OfSnoc(docs, d, t);
      if t != d.tenant {
        assert Of(docs, t) + [] == Of(docs, t);
      }
    }
  }

  lemma {:induction false} PostingGrows(m: map<string, nat>, docs: seq<Doc>, d: Doc, t: string)
    requires PostingExact(m, docs, t) && !HasId(docs, d.id)
    ensures PostingExact(PostingInsert(m, d, t), docs + [d], t)
  {
    hide Frequency;
    var m' := PostingInsert(m, d, t);
    var all := docs + [d];
    forall i | 0 <= i < |all| && t in all[i].tokens ensures all[i].id in m'
      && m'[all[i].id] == Frequency(all[i].tokens, t) {
      if i < |docs| {
        assert all[i] == docs[i] && HasId(docs, docs[i].id);
      }
    }
    forall id | id in m' ensures Holds(all, t, id) {
      if id in m && !(t in d.tokens && id == d.id) {
        var i :| 0 <= i < |docs| && docs[i].id == id && t in docs[i].tokens;
        assert all[i] == docs[i];
      } else {
        assert all[|docs|] == d;
      }
    }
  }

  lemma {:induction false} NoPosting(docs: seq<Doc>, t: string)
    requires DocFreq(docs, t) == 0
    ensures PostingExact(map[], docs, t)
  {
    forall i | 0 <= i < |docs| ensures t !in docs[i].tokens {
      HoldsCounts(docs, t, i);
    }
  }

  lemma {:induction false} HoldsCounts(docs: seq<Doc>, t: string, i: nat)
    requires i < |docs|
    ensures t in docs[i].tokens ==> DocFreq(docs, t) > 0
  {
    if i > 0 {
      HoldsCounts(docs[1..], t, i - 1);
    }
  }

  lemma {:induction false} PostingsGrow(p: map<string, map<string, nat>>, docs: seq<Doc>, d: Doc)
    requires PostingsExact(p, docs) && !HasId(docs, d.id)
    ensures PostingsExact(PostingsInsert(p, d), docs + [d])
  {
    hide DocFreq, PostingExact, PostingInsert, HasId;
    var p' := PostingsInsert(p, d);
    forall t ensures t in p' <==> DocFreq(docs + [d], t) > 0 {
      DocFreqSnoc(docs, d, t);
    }
    forall t | t in p' ensures PostingExact(p'[t], docs + [d], t) {
      var before := if t in p then p[t] else map[];
      if t !in p {
        NoPosting(docs, t);
      }
      PostingGrows(before, docs, d, t);
    }
  }

  lemma {:induction false} DocumentsGrow(m: map<string, Document>, docs: seq<Doc>, d: Doc)
    requires DocumentsExact(m, docs) && !HasId(docs, d.id) && Distinct(docs)
    ensures DocumentsExact(m[d.id := Document(d.tenant, |d.tokens|)], docs + [d]) && Distinct(docs + [d])
  {
    var m', all := m[d.id := Document(d.tenant, |d.tokens|)], docs + [d];
    forall i | 0 <= i < |docs| ensures docs[i].id != d.id {
      assert HasId(docs, docs[i].id);
    }
    forall id | id in m' ensures HasId(all, id) {
      if id == d.id {
        assert all[|docs|].id == id;
      } else {
        var i :| 0 <= i < |docs| && docs[i].id == id;
        assert all[i].id == id;
      }
    }
  }

  /** Inserting a point that is not live gives the field of the live points and it. */
  lemma {:induction false} InsertExact(f: Field, docs: seq<Doc>, d: Doc)
    requires Exact(f, docs) && !HasId(docs, d.id)
    ensures Exact(FieldInsert(f, d), docs + [d])
  {
    hide DocumentsExact, PostingsExact, StatisticsExact, TenantsExact, Distinct, HasId;
    DocumentsGrow(f.documents, docs, d);
    PostingsGrow(f.postings, docs, d);
    StatisticsGrow(f.all, docs, d);
    TenantsGrow(f.tenants, docs, d);
  }

  // ----- Removing a document -----

  function Without(docs: seq<Doc>, i: nat): seq<Doc>
    requires i < |docs|
  {
    docs[..i] + docs[i + 1..]
  }

  lemma {:induction false} LengthsWithout(docs: seq<Doc>, i: nat)
    requires i < |docs|
    ensures Lengths(docs) == Lengths(Without(docs, i)) + |docs[i].tokens|
  {
    if i == 0 {
      assert Without(docs, i) == docs[1..];
    } else {
      LengthsWithout(docs[1..], i - 1);
      assert Without(docs, i)[1..] == Without(docs[1..], i - 1);
    }
  }

  lemma {:induction false} DocFreqWithout(docs: seq<Doc>, i: nat, t: string)
    requires i < |docs|
    ensures DocFreq(docs, t) == DocFreq(Without(docs, i), t) + (if t in docs[i].tokens then 1 else 0)
  {
    if i == 0 {
      assert Without(docs, i) == docs[1..];
    } else {
      DocFreqWithout(docs[1..], i - 1, t);
      assert Without(docs, i)[1..] == Without(docs[1..], i - 1);
    }
  }

  /** Taking document `i` away takes it from its own tenant, at place `k`, and from no other. */
  lemma {:induction false} OfWithout(docs: seq<Doc>, i: nat, tenant: Option<string>) returns (k: nat)
    requires i < |docs|
    ensures docs[i].tenant != tenant ==> Of(Without(docs, i), tenant) == Of(docs, tenant)
    ensures docs[i].tenant == tenant ==>
      k < |Of(docs, tenant)| && Of(docs, tenant)[k] == docs[i]
        && Of(Without(docs, i), tenant) == Without(Of(docs, tenant), k)
  {
    hide Of;
    var front, d, back := docs[..i], docs[i], docs[i + 1..];
    assert docs == front + [d] + back;
    OfConcat(front + [d], back, tenant);
    OfSnoc(front, d, tenant);
    OfConcat(front, back, tenant);
    k := |Of(front, tenant)|;
    if d.tenant == tenant {
      var mine := Of(docs, tenant);
      assert mine == Of(front, tenant) + [d] + Of(back, tenant);
      assert mine[..k] == Of(front, tenant) && mine[k + 1..] == Of(back, tenant);
    } else {
      assert Of(front, tenant) + [] == Of(front, tenant);
    }
  }

  lemma {:induction false} StatisticsShrink(s: Statistics, docs: seq<Doc>, i: nat)
    requires StatisticsExact(s, docs) && i < |docs|
    ensures var r := StatisticsRemove(s, |docs[i].tokens|, docs[i].tokens);
      r.Some? && StatisticsExact(r.value, Without(docs, i))
  {
    hide DocFreq, Lengths;
    LengthsWithout(docs, i);
    var r := StatisticsRemove(s, |docs[i].tokens|, docs[i].tokens);
    forall t | t in Terms(docs[i].tokens) && t in s.df ensures s.df[t] != 0 {
      DocFreqWithout(docs, i, t);
    }
    var s', rest := r.value, Without(docs, i);
    forall t ensures (t in s'.df <==> DocFreq(rest, t) > 0) && (t in s'.df ==> s'.df[t] == DocFreq(rest, t)) {
      DocFreqWithout(docs, i, t);
      assert t in s.df <==> DocFreq(docs, t) > 0;
    }
  }

  lemma {:induction false} TenantsShrink(m: map<Option<string>, Statistics>, docs: seq<Doc>, i: nat)
    requires TenantsExact(m, docs) && i < |docs|
    ensures var r := TenantsRemove(m, docs[i].tenant, |docs[i].tokens|, docs[i].tokens);
      r.Some? && TenantsExact(r.value, Without(docs, i))
  {
    hide Of, StatisticsRemove, Without, DfExact;
    var d := docs[i];
    var k := OfWithout(docs, i, d.tenant);
    var mine := Of(docs, d.tenant);
    assert d.tenant in m;
    StatisticsShrink(m[d.tenant], mine, k);
    WithoutLength(mine, k);
    var r := TenantsRemove(m, d.tenant, |d.tokens|, d.tokens);
    forall t ensures t in r.value <==> Of(Without(docs, i), t) != []
             ensures t in r.value ==> StatisticsExact(r.value[t], Of(Without(docs, i), t)) {
      var _ := OfWithout(docs, i, t);
    }
  }

  lemma {:induction false} WithoutLength(docs: seq<Doc>, i: nat)
    requires i < |docs|
    ensures |Without(docs, i)| == |docs| - 1
  {
  }

  lemma {:induction false} WithoutMember(docs: seq<Doc>, i: nat, d: Doc)
    requires i < |docs| && Distinct(docs)
    ensures d in Without(docs, i) <==> d in docs && d.id != docs[i].id
  {
    var rest := Without(docs, i);
    if d in docs && d.id != docs[i].id {
      var j :| 0 <= j < |docs| && docs[j] == d;
      assert rest[if j < i then j else j - 1] == d;
    }
    if d in rest {
      var j :| 0 <= j < |rest| && rest[j] == d;
      assert docs[if j < i then j else j + 1] == d;
    }
  }

  lemma {:induction false} PostingShrinks(m: map<string, nat>, docs: seq<Doc>, i: nat, t: string)
    requires PostingExact(m, docs, t) && Distinct(docs) && i < |docs|
    ensures PostingExact(m - {docs[i].id}, Without(docs, i), t)
    ensures t !in docs[i].tokens ==> m - {docs[i].id} == m
  {
    hide Frequency;
    var rest, m' := Without(docs, i), m - {docs[i].id};
    forall j | 0 <= j < |rest| && t in rest[j].tokens ensures rest[j].id in m'
      && m'[rest[j].id] == Frequency(rest[j].tokens, t) {
      WithoutMember(docs, i, rest[j]);
      assert rest[j] in rest;
      var k :| 0 <= k < |docs| && docs[k] == rest[j];
    }
    forall id | id in m' ensures Holds(rest, t, id) {
      assert Holds(docs, t, id);
      var k :| 0 <= k < |docs| && docs[k].id == id && t in docs[k].tokens;
      WithoutMember(docs, i, docs[k]);
      var j :| 0 <= j < |rest| && rest[j] == docs[k];
    }
  }

  /** A posting list is empty exactly when no document holds the term. */
  lemma {:induction false} EmptyPosting(m: map<string, nat>, docs: seq<Doc>, t: string)
    requires PostingExact(m, docs, t)
    ensures m == map[] <==> DocFreq(docs, t) == 0
  {
    if DocFreq(docs, t) > 0 {
      var i := SomeHolder(docs, t);
      assert docs[i].id in m;
    } else {
      forall id ensures id !in m {
        if id in m {
          var i :| 0 <= i < |docs| && docs[i].id == id && t in docs[i].tokens;
          HoldsCounts(docs, t, i);
          assert false;
        }
      }
    }
  }

  lemma {:induction false} SomeHolder(docs: seq<Doc>, t: string) returns (i: nat)
    requires DocFreq(docs, t) > 0
    ensures i < |docs| && t in docs[i].tokens
  {
    if t in docs[0].tokens {
      i := 0;
    } else {
      var j := SomeHolder(docs[1..], t);
      i := j + 1;
    }
  }

  lemma {:induction false} PostingsShrink(p: map<string, map<string, nat>>, docs: seq<Doc>, i: nat)
    requires PostingsExact(p, docs) && Distinct(docs) && i < |docs|
    ensures PostingsExact(PostingsRemove(p, docs[i].id, docs[i].tokens), Without(docs, i))
  {
    hide DocFreq, PostingExact, Without, Distinct;
    var d, rest := docs[i], Without(docs, i);
    var p' := PostingsRemove(p, d.id, d.tokens);
    forall t ensures t in p' <==> DocFreq(rest, t) > 0
             ensures t in p' ==> PostingExact(p'[t], rest, t) {
      DocFreqWithout(docs, i, t);
      if t in p {
        PostingShrinks(p[t], docs, i, t);
        EmptyPosting(p[t] - {d.id}, rest, t);
      }
    }
  }

  lemma {:induction false} DocumentsShrink(m: map<string, Document>, docs: seq<Doc>, i: nat)
    requires DocumentsExact(m, docs) && Distinct(docs) && i < |docs|
    ensures DocumentsExact(m - {docs[i].id}, Without(docs, i)) && Distinct(Without(docs, i))
  {
    hide Without, Distinct;
    var rest, m' := Without(docs, i), m - {docs[i].id};
    forall j | 0 <= j < |rest| ensures rest[j].id in m'
      && m'[rest[j].id] == Document(rest[j].tenant, |rest[j].tokens|) {
      WithoutMember(docs, i, rest[j]);
      assert rest[j] in rest;
      var k :| 0 <= k < |docs| && docs[k] == rest[j];
    }
    forall id | id in m' ensures HasId(rest, id) {
      var k :| 0 <= k < |docs| && docs[k].id == id;
      WithoutMember(docs, i, docs[k]);
      var j :| 0 <= j < |rest| && rest[j] == docs[k];
    }
    WithoutDistinct(docs, i);
  }

  lemma {:induction false} WithoutDistinct(docs: seq<Doc>, i: nat)
    requires Distinct(docs) && i < |docs|
    ensures Distinct(Without(docs, i))
  {
    var rest := Without(docs, i);
    forall j, k | 0 <= j < k < |rest| ensures rest[j].id != rest[k].id {
      assert rest[j] == docs[if j < i then j else j + 1] && rest[k] == docs[if k < i then k else k + 1];
    }
  }

  /** Removing a live point with the text it was inserted with never underflows a counter, and gives the
      field of the points that remain. */
  lemma {:induction false} RemoveExact(f: Field, docs: seq<Doc>, i: nat)
    requires Exact(f, docs) && i < |docs|
    ensures FieldRemove(f, docs[i]).Some? && Exact(FieldRemove(f, docs[i]).value, Without(docs, i))
  {
    hide PostingsExact, StatisticsExact, TenantsExact, Distinct, HasId, StatisticsRemove, TenantsRemove, PostingsRemove,
      Without;
    var d := docs[i];
    assert f.documents[d.id] == Document(d.tenant, |d.tokens|);
    DocumentsShrink(f.documents, docs, i);
    PostingsShrink(f.postings, docs, i);
    StatisticsShrink(f.all, docs, i);
    TenantsShrink(f.tenants, docs, i);
  }

  // ----- Every run -----

  datatype Op = Insert(d: Doc) | Remove(d: Doc)

  /** The live points after an operation. */
  function Live(docs: seq<Doc>, op: Op): seq<Doc> {
    match op
    case Insert(d) => docs + [d]
    case Remove(d) => if HasId(docs, d.id) then Without(docs, IndexOf(docs, d.id)) else docs
  }

  function IndexOf(docs: seq<Doc>, id: string): (i: nat)
    requires HasId(docs, id)
    ensures i < |docs| && docs[i].id == id
  {
    if docs[0].id == id then 0
    else
      assert HasId(docs[1..], id) by {
        var i :| 0 <= i < |docs| && docs[i].id == id;
        assert docs[1..][i - 1].id == id;
      }
      1 + IndexOf(docs[1..], id)
  }

  /** An id is inserted only while it is not live, and removed with the text it was inserted with. */
  predicate Proper(docs: seq<Doc>, op: Op) {
    match op
    case Insert(d) => !HasId(docs, d.id)
    case Remove(d) => HasId(docs, d.id) ==> docs[IndexOf(docs, d.id)] == d
  }

  function Apply(f: Field, op: Op): Option<Field> {
    match op
    case Insert(d) => Some(FieldInsert(f, d))
    case Remove(d) => FieldRemove(f, d)
  }

  predicate AllProper(docs: seq<Doc>, ops: seq<Op>)
    decreases |ops|
  {
    ops == [] || (Proper(docs, ops[0]) && AllProper(Live(docs, ops[0]), ops[1..]))
  }

  function LiveAfter(docs: seq<Doc>, ops: seq<Op>): seq<Doc>
    decreases |ops|
  {
    if ops == [] then docs else LiveAfter(Live(docs, ops[0]), ops[1..])
  }

  function Run(f: Field, ops: seq<Op>): Option<Field>
    decreases |ops|
  {
    if ops == [] then Some(f)
    else
      match Apply(f, ops[0])
      case None => None
      case Some(next) => Run(next, ops[1..])
  }

  lemma {:induction false} StepExact(f: Field, docs: seq<Doc>, op: Op)
    requires Exact(f, docs) && Proper(docs, op)
    ensures Apply(f, op).Some? && Exact(Apply(f, op).value, Live(docs, op))
  {
    hide Exact, FieldInsert, FieldRemove;
    match op
    case Insert(d) => InsertExact(f, docs, d);
    case Remove(d) =>
      if HasId(docs, d.id) {
        RemoveExact(f, docs, IndexOf(docs, d.id));
      } else {
        NotHeld(f, docs, d);
      }
  }

  lemma {:induction false} NotHeld(f: Field, docs: seq<Doc>, d: Doc)
    requires Exact(f, docs) && !HasId(docs, d.id)
    ensures FieldRemove(f, d) == Some(f)
  {
  }

  lemma {:induction false} RunExact(f: Field, docs: seq<Doc>, ops: seq<Op>)
    requires Exact(f, docs) && AllProper(docs, ops)
    ensures Run(f, ops).Some? && Exact(Run(f, ops).value, LiveAfter(docs, ops))
    decreases |ops|
  {
    hide Exact, Proper, Apply, Live;
    if ops != [] {
      StepExact(f, docs, ops[0]);
      RunExact(Apply(f, ops[0]).value, Live(docs, ops[0]), ops[1..]);
    }
  }

  lemma {:induction false} NoFieldExact()
    ensures Exact(NO_FIELD, [])
  {
  }

  // ----- The incremental state is the rebuilt one -----

  function Rebuild(docs: seq<Doc>): Field {
    if docs == [] then NO_FIELD else FieldInsert(Rebuild(docs[..|docs| - 1]), docs[|docs| - 1])
  }

  lemma {:induction false} RebuildExact(docs: seq<Doc>)
    requires Distinct(docs)
    ensures Exact(Rebuild(docs), docs)
  {
    hide Exact, FieldInsert;
    if docs == [] {
      NoFieldExact();
    } else {
      var n := |docs| - 1;
      RebuildExact(docs[..n]);
      assert docs == docs[..n] + [docs[n]];
      assert !HasId(docs[..n], docs[n].id);
      InsertExact(Rebuild(docs[..n]), docs[..n], docs[n]);
    }
  }

  lemma {:induction false} SameStatistics(s: Statistics, s': Statistics, docs: seq<Doc>)
    requires StatisticsExact(s, docs) && StatisticsExact(s', docs)
    ensures s == s'
  {
    hide DocFreq;
    assert forall t :: t in s.df <==> t in s'.df;
    assert s.df == s'.df;
  }

  lemma {:induction false} SamePosting(m: map<string, nat>, m': map<string, nat>, docs: seq<Doc>, t: string)
    requires PostingExact(m, docs, t) && PostingExact(m', docs, t)
    ensures m == m'
  {
    forall id ensures (id in m ==> id in m' && m'[id] == m[id]) && (id in m' ==> id in m) {
      if id in m || id in m' {
        assert Holds(docs, t, id);
        var i :| 0 <= i < |docs| && docs[i].id == id && t in docs[i].tokens;
      }
    }
  }

  lemma {:induction false} SamePostings(
    p: map<string, map<string, nat>>, p': map<string, map<string, nat>>, docs: seq<Doc>)
    requires PostingsExact(p, docs) && PostingsExact(p', docs)
    ensures p == p'
  {
    hide PostingExact, DocFreq;
    forall t | t in p ensures p[t] == p'[t] {
      SamePosting(p[t], p'[t], docs, t);
    }
    assert forall t :: t in p <==> t in p';
  }

  lemma {:induction false} SameDocuments(m: map<string, Document>, m': map<string, Document>, docs: seq<Doc>)
    requires DocumentsExact(m, docs) && DocumentsExact(m', docs)
    ensures m == m'
  {
    forall id ensures (id in m ==> id in m' && m'[id] == m[id]) && (id in m' ==> id in m) {
      if id in m || id in m' {
        assert HasId(docs, id);
        var i :| 0 <= i < |docs| && docs[i].id == id;
      }
    }
  }

  lemma {:induction false} SameTenants(
    m: map<Option<string>, Statistics>, m': map<Option<string>, Statistics>, docs: seq<Doc>)
    requires TenantsExact(m, docs) && TenantsExact(m', docs)
    ensures m == m'
  {
    hide StatisticsExact, Of;
    forall t | t in m ensures m[t] == m'[t] {
      SameStatistics(m[t], m'[t], Of(docs, t));
    }
    assert forall t :: t in m <==> t in m';
  }

  /** The live points determine the whole field. */
  lemma {:induction false} ExactUnique(f: Field, f': Field, docs: seq<Doc>)
    requires Exact(f, docs) && Exact(f', docs)
    ensures f == f'
  {
    hide DocumentsExact, PostingsExact, StatisticsExact, TenantsExact;
    SameDocuments(f.documents, f'.documents, docs);
    SamePostings(f.postings, f'.postings, docs);
    SameStatistics(f.all, f'.all, docs);
    SameTenants(f.tenants, f'.tenants, docs);
  }

  /** After any proper sequence of insertions and removals, no counter has underflowed and the field equals
      the one rebuilt from the live points. */
  lemma {:induction false} IncrementalEqualsRebuild(ops: seq<Op>)
    requires AllProper([], ops)
    ensures Run(NO_FIELD, ops) == Some(Rebuild(LiveAfter([], ops)))
  {
    hide Exact, Run, Rebuild, LiveAfter, AllProper;
    NoFieldExact();
    RunExact(NO_FIELD, [], ops);
    var f, docs := Run(NO_FIELD, ops).value, LiveAfter([], ops);
    ExactDistinct(f, docs);
    RebuildExact(docs);
    ExactUnique(f, Rebuild(docs), docs);
  }

  lemma {:induction false} ExactDistinct(f: Field, docs: seq<Doc>)
    requires Exact(f, docs)
    ensures Distinct(docs)
  {
  }

  // ----- Authorised search over one tenant -----

  /** The documents among `ids` that belong to the tenant. */
  function Picked(docs: seq<Doc>, ids: set<string>, tenant: Option<string>): seq<Doc> {
    if docs == [] then []
    else (if docs[0].id in ids && docs[0].tenant == tenant then [docs[0]] else []) + Picked(docs[1..], ids, tenant)
  }

  lemma {:induction false} PickedAll(docs: seq<Doc>, ids: set<string>, tenant: Option<string>)
    requires forall i :: 0 <= i < |docs| ==> docs[i].id in ids
    ensures Picked(docs, ids, tenant) == Of(docs, tenant)
  {
    if docs != [] {
      PickedAll(docs[1..], ids, tenant);
    }
  }

  lemma {:induction false} PickedSame(docs: seq<Doc>, ids: set<string>, id: string, tenant: Option<string>)
    requires !HasId(docs, id)
    ensures Picked(docs, ids + {id}, tenant) == Picked(docs, ids, tenant)
  {
    if docs != [] {
      assert docs[0].id != id;
      forall i | 0 <= i < |docs[1..]| ensures docs[1..][i].id != id {
        assert docs[i + 1].id != id;
      }
      PickedSame(docs[1..], ids, id, tenant);
    }
  }

  lemma {:induction false} PickedConcat(a: seq<Doc>, b: seq<Doc>, ids: set<string>, tenant: Option<string>)
    ensures Picked(a + b, ids, tenant) == Picked(a, ids, tenant) + Picked(b, ids, tenant)
  {
    if a == [] {
      assert a + b == b;
    } else {
      assert (a + b)[1..] == a[1..] + b;
      PickedConcat(a[1..], b, ids, tenant);
      var head := if a[0].id in ids && a[0].tenant == tenant then [a[0]] else [];
      assert head + (Picked(a[1..], ids, tenant) + Picked(b, ids, tenant)) == (head + Picked(a[1..], ids, tenant))
        + Picked(b, ids, tenant);
    }
  }

  lemma {:induction false} PickedOne(d: Doc, ids: set<string>, tenant: Option<string>)
    ensures Picked([d], ids, tenant) == if d.id in ids && d.tenant == tenant then [d] else []
  {
    assert [d][1..] == [];
    assert Picked([], ids, tenant) == [];
  }

  /** Naming one more id puts its document in its place, if it belongs to the tenant. */
  lemma {:induction false} PickedMore(docs: seq<Doc>, ids: set<string>, i: nat, tenant: Option<string>) returns (k: nat)
    requires Distinct(docs) && i < |docs| && docs[i].id !in ids
    ensures var before, after := Picked(docs, ids, tenant), Picked(docs, ids + {docs[i].id}, tenant);
      if docs[i].tenant == tenant then k < |after| && after[k] == docs[i] && before == Without(after, k)
        else after == before
  {
    hide Picked;
    var front, d, back := docs[..i], docs[i], docs[i + 1..];
    var more := ids + {d.id};
    assert docs == front + [d] + back;
    PickedConcat(front + [d], back, ids, tenant);
    PickedConcat(front, [d], ids, tenant);
    PickedConcat(front + [d], back, more, tenant);
    PickedConcat(front, [d], more, tenant);
    PickedOne(d, ids, tenant);
    PickedOne(d, more, tenant);
    PickedSame(front, ids, d.id, tenant);
    assert !HasId(back, d.id) by {
      forall j | 0 <= j < |back| ensures back[j].id != d.id {
        assert back[j] == docs[i + 1 + j];
      }
    }
    PickedSame(back, ids, d.id, tenant);
    var f, b := Picked(front, ids, tenant), Picked(back, ids, tenant);
    k := |f|;
    assert Picked(docs, ids, tenant) == f + [] + b == f + b;
    if d.tenant == tenant {
      var after := Picked(docs, more, tenant);
      assert after == f + [d] + b && after[..k] == f && after[k + 1..] == b;
    }
  }

  /** One more id adds its document to the sums, if it belongs to the tenant. */
  lemma {:induction false} PickedStep(docs: seq<Doc>, ids: set<string>, i: nat, tenant: Option<string>, t: string)
    requires Distinct(docs) && i < |docs| && docs[i].id !in ids
    ensures var before, after := Picked(docs, ids, tenant), Picked(docs, ids + {docs[i].id}, tenant);
      var own := docs[i].tenant == tenant;
      && |after| == |before| + (if own then 1 else 0)
      && Lengths(after) == Lengths(before) + (if own then |docs[i].tokens| else 0)
      && DocFreq(after, t) == DocFreq(before, t) + (if own && t in docs[i].tokens then 1 else 0)
  {
    hide Picked, Lengths, DocFreq, Without;
    var k := PickedMore(docs, ids, i, tenant);
    if docs[i].tenant == tenant {
      var after := Picked(docs, ids + {docs[i].id}, tenant);
      WithoutLength(after, k);
      LengthsWithout(after, k);
      DocFreqWithout(after, k, t);
    }
  }

  /** Exactly the documents of one tenant are authorised. */
  predicate Authorizes(authorize: string -> bool, f: Field, tenant: Option<string>) {
    forall id :: id in f.documents ==> (authorize(id) <==> f.documents[id].tenant == tenant)
  }

  /** The counting loop of the authorised search, where exactly the documents of one tenant are authorised:
      document count, total length and document frequency of every query term are those the tenant's own
      statistics hold. */
  method AuthorizedStatistics(
    f: Field, terms: set<string>, authorize: string -> bool, ghost tenant: Option<string>, ghost docs: seq<Doc>)
    returns (documents: nat, length: nat, df: map<string, nat>)
    requires Exact(f, docs) && Authorizes(authorize, f, tenant)
    ensures documents == |Of(docs, tenant)| && length == Lengths(Of(docs, tenant))
    ensures forall t :: t in terms ==>
      && (t in df <==> DocFreq(Of(docs, tenant), t) > 0)
      && (t in df ==> df[t] == DocFreq(Of(docs, tenant), t))
    ensures tenant in f.tenants ==>
      && documents == f.tenants[tenant].documents && length == f.tenants[tenant].length
      && forall t :: t in terms ==>
        && (t in df <==> t in f.tenants[tenant].df)
        && (t in df ==> df[t] == f.tenants[tenant].df[t])
    ensures tenant !in f.tenants ==> documents == 0 && length == 0 && forall t :: t in terms ==> t !in df
  {
    hide DocFreq, Lengths, Picked, Of, Exact, HasId, Distinct;
    documents, length, df := 0, 0, map[];
    var left := f.documents.Keys;
    ghost var done: set<string> := {};
    EmptyPick(docs, tenant);
    while left != {}
      invariant left <= f.documents.Keys && done == f.documents.Keys - left
      invariant documents == |Picked(docs, done, tenant)| && length == Lengths(Picked(docs, done, tenant))
      invariant forall t :: t in terms ==>
        (t in df <==> DocFreq(Picked(docs, done, tenant), t) > 0)
          && (t in df ==> df[t] == DocFreq(Picked(docs, done, tenant), t))
      decreases |left|
    {
      var id :| id in left;
      DocumentAt(f, docs, id);
      ghost var i := IndexOf(docs, id);
      PickedStep(docs, done, i, tenant, "");
      forall t ensures DocFreq(Picked(docs, done + {id}, tenant), t)
        == DocFreq(Picked(docs, done, tenant), t) + (if docs[i].tenant == tenant && t in docs[i].tokens then 1 else 0) {
        PickedStep(docs, done, i, tenant, t);
      }
      if authorize(id) {
        documents := documents + 1;
        length := length + f.documents[id].length;
        df := CountTerms(f, terms, id, df, docs, i);
      }
      left := left - {id};
      done := done + {id};
    }
    AllIds(f, docs);
    PickedAll(docs, done, tenant);
    TenantEntry(f, docs, tenant);
  }

  lemma {:induction false} DocumentAt(f: Field, docs: seq<Doc>, id: string)
    requires Exact(f, docs) && id in f.documents
    ensures Distinct(docs) && HasId(docs, id)
    ensures var d := docs[IndexOf(docs, id)]; f.documents[id] == Document(d.tenant, |d.tokens|)
  {
  }

  lemma {:induction false} AllIds(f: Field, docs: seq<Doc>)
    requires Exact(f, docs)
    ensures forall i :: 0 <= i < |docs| ==> docs[i].id in f.documents.Keys
  {
  }

  lemma {:induction false} TenantEntry(f: Field, docs: seq<Doc>, tenant: Option<string>)
    requires Exact(f, docs)
    ensures tenant in f.tenants <==> Of(docs, tenant) != []
    ensures tenant in f.tenants ==>
      var stats, mine := f.tenants[tenant], Of(docs, tenant);
      && stats.documents == |mine| && stats.length == Lengths(mine)
      && forall t :: (t in stats.df <==> DocFreq(mine, t) > 0) && (t in stats.df ==> stats.df[t] == DocFreq(mine, t))
  {
    hide DocFreq, Lengths;
  }

  lemma {:induction false} EmptyPick(docs: seq<Doc>, tenant: Option<string>)
    ensures Picked(docs, {}, tenant) == [] && Lengths([]) == 0 && forall t :: DocFreq([], t) == 0
  {
    if docs != [] {
      EmptyPick(docs[1..], tenant);
    }
  }

  /** The loop over the query terms for one document. */
  method CountTerms(
    f: Field, terms: set<string>, id: string, start: map<string, nat>, ghost docs: seq<Doc>, ghost i: nat)
    returns (df: map<string, nat>)
    requires Exact(f, docs) && i < |docs| && docs[i].id == id
    ensures forall t :: t in terms && t in docs[i].tokens ==>
      && t in df
      && df[t] == (if t in start then start[t] else 0) + 1
    ensures forall t :: !(t in terms && t in docs[i].tokens) ==>
      && (t in df <==> t in start)
      && (t in df ==> df[t] == start[t])
  {
    hide DocFreq, Lengths, Of, Frequency, Exact;
    df := start;
    var left := terms;
    while left != {}
      invariant left <= terms
      invariant forall t :: t in terms - left && t in docs[i].tokens ==>
        && t in df
        && df[t] == (if t in start then start[t] else 0) + 1
      invariant forall t :: !(t in terms - left && t in docs[i].tokens) ==>
        && (t in df <==> t in start)
        && (t in df ==> df[t] == start[t])
      decreases |left|
    {
      var t :| t in left;
      PostingTells(f, docs, i, t);
      if t in f.postings && id in f.postings[t] {
        df := df[t := (if t in df then df[t] else 0) + 1];
      }
      left := left - {t};
    }
  }

  /** The posting list of a term holds exactly the documents with the term. */
  lemma {:induction false} PostingTells(f: Field, docs: seq<Doc>, i: nat, t: string)
    requires Exact(f, docs) && i < |docs|
    ensures t in f.postings && docs[i].id in f.postings[t] <==> t in docs[i].tokens
  {
    hide Lengths, Of, Frequency;
    HoldsCounts(docs, t, i);
    if t in f.postings && docs[i].id in f.postings[t] {
      assert Holds(docs, t, docs[i].id);
      var k :| 0 <= k < |docs| && docs[k].id == docs[i].id && t in docs[k].tokens;
      assert k == i;
    }
  }

  // ----- The index over all fields, in place -----

  /** A point with the tokens of each of its text fields. */
  datatype Point = Point(id: string, tenant: Option<string>, texts: map<string, seq<string>>)

  function DocOf(p: Point, name: string): Doc
    requires name in p.texts
  {
    Doc(p.id, p.tenant, p.texts[name])
  }

  /** The live points that have the field. */
  function DocsOf(points: seq<Point>, name: string): seq<Doc> {
    if points == [] then []
    else
      var n := |points| - 1;
      DocsOf(points[..n], name) + (if name in points[n].texts then [DocOf(points[n], name)] else [])
  }

  predicate IdsDistinct(points: seq<Point>) {
    forall i, j :: 0 <= i < j < |points| ==> points[i].id != points[j].id
  }

  lemma {:induction false} DocsConcat(a: seq<Point>, b: seq<Point>, name: string)
    ensures DocsOf(a + b, name) == DocsOf(a, name) + DocsOf(b, name)
    decreases |b|
  {
    if b == [] {
      assert a + b == a;
      assert DocsOf(a, name) + [] == DocsOf(a, name);
    } else {
      var n := |b| - 1;
      assert (a + b)[..|a + b| - 1] == a + b[..n];
      DocsConcat(a, b[..n], name);
      var last := if name in b[n].texts then [DocOf(b[n], name)] else [];
      assert (DocsOf(a, name) + DocsOf(b[..n], name)) + last == DocsOf(a, name) + (DocsOf(b[..n], name) + last);
    }
  }

  lemma {:induction false} DocsOne(p: Point, name: string)
    ensures DocsOf([p], name) == if name in p.texts then [DocOf(p, name)] else []
  {
    assert [p][..0] == [];
    assert DocsOf([], name) == [];
  }

  lemma {:induction false} DocsIds(points: seq<Point>, name: string, id: string)
    requires forall i :: 0 <= i < |points| ==> points[i].id != id
    ensures !HasId(DocsOf(points, name), id)
  {
    if points != [] {
      var n := |points| - 1;
      DocsIds(points[..n], name, id);
    }
  }

  /** Every field is the field of its live documents, and a field without any is absent. */
  ghost predicate IndexExact(fields: map<string, Field>, points: seq<Point>) {
    forall name :: FieldExact(fields, points, name)
  }

  ghost predicate FieldExact(fields: map<string, Field>, points: seq<Point>, name: string) {
    && (name in fields <==> DocsOf(points, name) != [])
    && (name in fields ==> Exact(fields[name], DocsOf(points, name)))
  }

  lemma {:induction false} FieldGains(field: Field, known: bool, points: seq<Point>, p: Point, name: string)
    requires name in p.texts && (forall i :: 0 <= i < |points| ==> points[i].id != p.id)
    requires known <==> DocsOf(points, name) != []
    requires if known then Exact(field, DocsOf(points, name)) else field == NO_FIELD
    ensures DocsOf(points + [p], name) != [] && Exact(FieldInsert(field, DocOf(p, name)), DocsOf(points + [p], name))
  {
    hide Exact, FieldInsert, DocsOf;
    var docs := DocsOf(points, name);
    if !known {
      NoFieldExact();
    }
    DocsIds(points, name, p.id);
    InsertExact(field, docs, DocOf(p, name));
    DocsConcat(points, [p], name);
    DocsOne(p, name);
  }

  lemma {:induction false} FieldUntouched(points: seq<Point>, p: Point, name: string)
    requires name !in p.texts
    ensures DocsOf(points + [p], name) == DocsOf(points, name)
  {
    DocsConcat(points, [p], name);
    DocsOne(p, name);
    assert DocsOf(points, name) + [] == DocsOf(points, name);
  }

  function Dropped(points: seq<Point>, i: nat): seq<Point>
    requires i < |points|
  {
    points[..i] + points[i + 1..]
  }

  /** The document a point contributed, at its place among those of the field. */
  lemma {:induction false} DocsWithout(points: seq<Point>, i: nat, name: string) returns (k: nat)
    requires i < |points|
    ensures name !in points[i].texts ==> DocsOf(Dropped(points, i), name) == DocsOf(points, name)
    ensures name in points[i].texts ==>
      var docs := DocsOf(points, name);
      k < |docs| && docs[k] == DocOf(points[i], name) && DocsOf(Dropped(points, i), name) == Without(docs, k)
  {
    hide DocsOf;
    var front, p, back := points[..i], points[i], points[i + 1..];
    assert points == front + [p] + back;
    DocsConcat(front + [p], back, name);
    DocsConcat(front, [p], name);
    DocsOne(p, name);
    DocsConcat(front, back, name);
    k := |DocsOf(front, name)|;
    if name in p.texts {
      var docs := DocsOf(points, name);
      assert docs == DocsOf(front, name) + [DocOf(p, name)] + DocsOf(back, name);
      assert docs[..k] == DocsOf(front, name) && docs[k + 1..] == DocsOf(back, name);
    } else {
      assert DocsOf(front, name) + [] == DocsOf(front, name);
    }
  }

  lemma {:induction false} FieldLoses(field: Field, points: seq<Point>, i: nat, name: string)
    requires i < |points| && name in points[i].texts && Exact(field, DocsOf(points, name))
    ensures points[i].id in field.documents
    ensures var r := FieldRemove(field, DocOf(points[i], name));
      && r.Some? && Exact(r.value, DocsOf(Dropped(points, i), name))
      && (r.value.documents == map[] <==> DocsOf(Dropped(points, i), name) == [])
  {
    hide FieldRemove, DocsOf, Without;
    var k := DocsWithout(points, i, name);
    var docs := DocsOf(points, name);
    RemoveExact(field, docs, k);
    EmptyDocuments(FieldRemove(field, DocOf(points[i], name)).value, DocsOf(Dropped(points, i), name));
  }

  lemma {:induction false} EmptyDocuments(f: Field, docs: seq<Doc>)
    requires Exact(f, docs)
    ensures f.documents == map[] <==> docs == []
  {
    if docs != [] {
      assert docs[0].id in f.documents;
    } else {
      forall id ensures id !in f.documents {
        assert !HasId(docs, id);
      }
    }
  }

  class LiveTextIndex {
    var fields: map<string, Field>

    constructor ()
      ensures IndexExact(fields, [])
    {
      fields := map[];
    }

    /** Each text field of the point is indexed; the index stays that of the live points. */
    method InsertPoint(p: Point, ghost points: seq<Point>)
      requires IndexExact(fields, points) && forall i :: 0 <= i < |points| ==> points[i].id != p.id
      modifies this
      ensures IndexExact(fields, points + [p])
    {
      hide Exact, FieldInsert, DocsOf;
      var left := p.texts.Keys;
      while left != {}
        invariant left <= p.texts.Keys
        invariant forall name :: if name in p.texts && name !in left then FieldExact(fields, points + [p], name)
          else FieldExact(fields, points, name)
        decreases |left|
      {
        var name :| name in left;
        assert FieldExact(fields, points, name);
        var field := if name in fields then fields[name] else NO_FIELD;
        FieldGains(field, name in fields, points, p, name);
        fields := fields[name := FieldInsert(field, DocOf(p, name))];
        left := left - {name};
      }
      forall name ensures FieldExact(fields, points + [p], name) {
        if name !in p.texts {
          FieldUntouched(points, p, name);
        }
      }
    }

    /** Each text field of the point is taken out again; no counter underflows. */
    method RemovePoint(p: Point, ghost points: seq<Point>, ghost i: nat)
      requires IndexExact(fields, points) && i < |points| && points[i] == p
      modifies this
      ensures IndexExact(fields, Dropped(points, i))
    {
      hide Exact, FieldRemove, DocsOf, Dropped;
      var left := p.texts.Keys;
      while left != {}
        invariant left <= p.texts.Keys
        invariant forall name :: if name in p.texts && name !in left then FieldExact(fields, Dropped(points, i), name)
          else FieldExact(fields, points, name)
        decreases |left|
      {
        var name :| name in left;
        assert FieldExact(fields, points, name);
        HoldsPoint(points, i, name);
        FieldLoses(fields[name], points, i, name);
        var field := FieldRemove(fields[name], DocOf(p, name)).value;
        fields := if field.documents == map[] then fields - {name} else fields[name := field];
        left := left - {name};
      }
      forall name ensures FieldExact(fields, Dropped(points, i), name) {
        if name !in p.texts {
          var _ := DocsWithout(points, i, name);
        }
      }
    }
  }

  lemma {:induction false} HoldsPoint(points: seq<Point>, i: nat, name: string)
    requires i < |points| && name in points[i].texts
    ensures DocsOf(points, name) != []
  {
    hide DocsOf;
    var _ := DocsWithout(points, i, name);
  }
}
