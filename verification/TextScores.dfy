/** What a text search of `bm25.rs` returns, said about the live documents alone:
    exactly the eligible documents of the corpus that hold a query term, each once,
    scored with every query term it holds and no other. */
module TextScores {
  import opened Wrappers
  import T = TextIndex
  import opened PostingMerge
  import opened TextSearch

  /** Some query term occurs in the document. */
  predicate Matches(d: T.Doc, terms: seq<string>) {
    exists i :: 0 <= i < |terms| && terms[i] in d.tokens
  }

  /** One weight for each query term the document holds: the inverse frequency over the corpus and how often the
      document says it. */
  function Expected(q: Reading, corpus: seq<T.Doc>, terms: seq<string>, d: T.Doc, weight: Weight): real {
    if terms == [] then 0.0
    else
      var n := |terms| - 1;
      var t := terms[n];
      Expected(q, corpus, terms[..n], d, weight)
      + (if t in d.tokens
         then weight(q.idf(|corpus|, T.DocFreq(corpus, t)), multiset(d.tokens)[t], q.number(d.id)) else 0.0)
  }

  /** The statistics of a corpus that some of the documents make up. */
  ghost predicate CorpusOf(c: Corpus, corpus: seq<T.Doc>) {
    c.documents == |corpus| && c.length == T.Lengths(corpus) && T.DfExact(c.df, corpus)
  }

  // ----- One list -----

  lemma {:induction false} ListHolds(q: Reading, posting: map<string, nat>, list: seq<Posting>, id: string, idf: real)
    requires Lists(q, posting, list) && q.name(q.number(id)) == id
    ensures Holds(List(idf, list), q.number(id)) <==> id in posting
    ensures id in posting ==> FrequencyIn(list, q.number(id)) == posting[id]
  {
    hide Ascending;
    var n := q.number(id);
    if Holds(List(idf, list), n) {
      var i :| 0 <= i < |list| && list[i].id == n;
      assert q.name(list[i].id) in posting;
    }
    if id in posting {
      var i :| 0 <= i < |list| && list[i].id == n;
      SoleFrequency(list, n, posting[id]);
    }
  }

  lemma {:induction false} SoleFrequency(list: seq<Posting>, n: nat, tf: nat)
    requires exists i :: 0 <= i < |list| && list[i].id == n
    requires forall i :: 0 <= i < |list| && list[i].id == n ==> list[i].tf == tf
    ensures FrequencyIn(list, n) == tf
  {
    if list[0].id != n {
      var i :| 0 <= i < |list| && list[i].id == n;
      assert list[1..][i - 1].id == n;
      SoleFrequency(list[1..], n, tf);
    }
  }

  /** A term's postings list a document exactly when it holds the term, with how often it does. */
  lemma {:induction false} PostedExact(f: T.Field, docs: seq<T.Doc>, i: nat, t: string)
    requires T.Exact(f, docs) && i < |docs|
    ensures t in docs[i].tokens <==> t in f.postings && docs[i].id in f.postings[t]
    ensures t in docs[i].tokens ==> f.postings[t][docs[i].id] == multiset(docs[i].tokens)[t]
  {
    hide T.StatisticsExact, T.TenantsExact, T.DocumentsExact, T.DocFreq;
    if t in docs[i].tokens {
      T.HoldsCounts(docs, t, i);
      assert T.PostingExact(f.postings[t], docs, t);
    }
    if t in f.postings && docs[i].id in f.postings[t] {
      assert T.PostingExact(f.postings[t], docs, t);
      assert T.Holds(docs, t, docs[i].id);
    }
  }

  /** A term of a document of the corpus has a frequency there. */
  lemma {:induction false} KnownTerm(c: Corpus, corpus: seq<T.Doc>, d: T.Doc, t: string)
    requires CorpusOf(c, corpus) && d in corpus && t in d.tokens
    ensures t in c.df && c.df[t] == T.DocFreq(corpus, t)
  {
    hide T.DocFreq, T.Lengths;
    var i :| 0 <= i < |corpus| && corpus[i] == d;
    T.HoldsCounts(corpus, t, i);
  }

  // ----- All lists of a query -----

  lemma {:induction false} UnionSnoc(front: seq<List>, last: List, id: nat)
    ensures InUnion(front + [last], id) <==> InUnion(front, id) || Holds(last, id)
  {
    hide Holds;
    var all := front + [last];
    if InUnion(front, id) {
      var k :| 0 <= k < |front| && Holds(front[k], id);
      assert Holds(all[k], id);
    }
    if Holds(last, id) {
      assert Holds(all[|front|], id);
    }
    if InUnion(all, id) {
      var k :| 0 <= k < |all| && Holds(all[k], id);
      assert k < |front| ==> Holds(front[k], id);
    }
  }

  lemma {:induction false} MatchesSnoc(d: T.Doc, terms: seq<string>)
    requires terms != []
    ensures var n := |terms| - 1; Matches(d, terms) <==> Matches(d, terms[..n]) || terms[n] in d.tokens
  {
    var n := |terms| - 1;
    if Matches(d, terms) {
      var i :| 0 <= i < |terms| && terms[i] in d.tokens;
      assert i < n ==> terms[..n][i] in d.tokens;
    }
    if Matches(d, terms[..n]) {
      var i :| 0 <= i < n && terms[..n][i] in d.tokens;
      assert terms[i] in d.tokens;
    }
  }

  /** The merged lists hold a document of the corpus exactly when it holds a query term, and its score adds every
      query term it holds. */
  lemma {:induction false} ListsExact(
    q: Reading, f: T.Field, docs: seq<T.Doc>, c: Corpus, corpus: seq<T.Doc>, terms: seq<string>, i: nat, weight: Weight)
    requires Reads(q, f) && T.Exact(f, docs) && CorpusOf(c, corpus) && i < |docs| && docs[i] in corpus
    ensures InUnion(QueryLists(q, f, c, terms), q.number(docs[i].id)) <==> Matches(docs[i], terms)
    ensures Score(QueryLists(q, f, c, terms), q.number(docs[i].id), weight)
      == Expected(q, corpus, terms, docs[i], weight)
  {
    hide Reads, T.Exact, CorpusOf, InUnion, Matches, Holds, FrequencyIn, T.DocFreq;
    var d := docs[i];
    var id := q.number(d.id);
    if terms == [] {
      NoLists(id, d);
    } else {
      var n := |terms| - 1;
      var t, front := terms[n], QueryLists(q, f, c, terms[..n]);
      ListsExact(q, f, docs, c, corpus, terms[..n], i, weight);
      MatchesSnoc(d, terms);
      PostedExact(f, docs, i, t);
      if t in d.tokens {
        KnownTerm(c, corpus, d, t);
      }
      if t in c.df && t in f.postings {
        var list := q.listing(f.postings[t]);
        ReadsTerm(q, f, docs, i, t);
        ListHolds(q, f.postings[t], list, d.id, q.idf(c.documents, c.df[t]));
        var last := List(q.idf(c.documents, c.df[t]), list);
        UnionSnoc(front, last, id);
        assert (front + [last])[..|front|] == front;
        CorpusSize(c, corpus);
      } else {
        assert front + [] == front;
      }
    }
  }

  lemma {:induction false} NoLists(id: nat, d: T.Doc)
    ensures !InUnion([], id) && !Matches(d, [])
  {
  }

  lemma {:induction false} CorpusSize(c: Corpus, corpus: seq<T.Doc>)
    requires CorpusOf(c, corpus)
    ensures c.documents == |corpus|
  {
  }

  lemma {:induction false} ReadsTerm(q: Reading, f: T.Field, docs: seq<T.Doc>, i: nat, t: string)
    requires Reads(q, f) && T.Exact(f, docs) && i < |docs| && t in f.postings
    ensures Lists(q, f.postings[t], q.listing(f.postings[t])) && q.name(q.number(docs[i].id)) == docs[i].id
  {
    hide Lists, T.PostingsExact, T.TenantsExact, T.StatisticsExact;
  }

  // ----- The search -----

  lemma {:induction false} OfMember(docs: seq<T.Doc>, tenant: Option<string>, d: T.Doc)
    ensures d in T.Of(docs, tenant) <==> d in docs && d.tenant == tenant
  {
    if docs != [] {
      OfMember(docs[1..], tenant, d);
      assert docs == [docs[0]] + docs[1..];
    }
  }

  lemma {:induction false} LengthAtLeast(docs: seq<T.Doc>, d: T.Doc)
    requires d in docs
    ensures |d.tokens| <= T.Lengths(docs)
  {
    if docs[0] != d {
      LengthAtLeast(docs[1..], d);
    }
  }

  lemma {:induction false} TenantCorpusOf(f: T.Field, docs: seq<T.Doc>, tenant: Option<string>)
    requires T.Exact(f, docs)
    ensures CorpusOf(TenantCorpus(f, tenant), T.Of(docs, tenant))
  {
    hide T.Exact, T.DocFreq, T.Lengths, T.Of;
    T.TenantEntry(f, docs, tenant);
    T.EmptyPick([], tenant);
  }

  lemma {:induction false} PushedExact(
    visited: seq<nat>, lists: seq<List>, candidate: Candidate, weight: Weight, n: nat, s: real)
    ensures (n, s) in Pushes(visited, lists, candidate, weight) <==>
      exists k :: 0 <= k < |visited| && candidate(visited[k]) == Some(n) && s == Score(lists, visited[k], weight)
  {
    hide Score;
    if visited != [] {
      var m := |visited| - 1;
      var front, last := visited[..m], visited[m];
      PushedExact(front, lists, candidate, weight, n, s);
      if k :| 0 <= k < |visited| && candidate(visited[k]) == Some(n) && s == Score(lists, visited[k], weight) {
        assert k < m ==> front[k] == visited[k];
        assert k == m ==> (n, s) in Push(last, lists, candidate, weight);
      }
      if k :| 0 <= k < m && candidate(front[k]) == Some(n) && s == Score(lists, front[k], weight) {
        assert visited[k] == front[k];
      }
      if (n, s) in Push(last, lists, candidate, weight) {
        assert candidate(visited[m]) == Some(n) && s == Score(lists, visited[m], weight);
      }
    }
  }

  /** The result for one live document of the tenant. */
  predicate ResultOf(
    q: Reading, docs: seq<T.Doc>, tenant: Option<string>, terms: seq<string>, eligible: string -> bool, i: nat, n: nat,
    s: real) {
    && i < |docs| && docs[i].tenant == tenant && eligible(docs[i].id) && Matches(docs[i], terms)
    && n == q.number(docs[i].id)
    && var mine := T.Of(docs, tenant);
      s == Expected(q, mine, terms, docs[i], q.formula(|mine|, T.Lengths(mine)))
  }

  /** A visited number that the tenant's filter lets through is a live document of the tenant. */
  lemma {:induction false} VisitedDocument(
    q: Reading, f: T.Field, docs: seq<T.Doc>, tenant: Option<string>, eligible: string -> bool, terms: seq<string>,
    v: nat, n: nat) returns (i: nat)
    requires Reads(q, f) && T.Exact(f, docs) && InUnion(QueryLists(q, f, TenantCorpus(f, tenant), terms), v)
    requires TenantCandidate(q, f, tenant, eligible)(v) == Some(n)
    ensures n == v && i < |docs| && q.number(docs[i].id) == v && docs[i].tenant == tenant && eligible(docs[i].id)
  {
    hide Reads, InUnion, QueryLists, T.PostingsExact, T.TenantsExact, T.StatisticsExact;
    ListedAreDocuments(q, f, docs, TenantCorpus(f, tenant), terms, v);
    var id := q.name(v);
    assert T.HasId(docs, id);
    i :| 0 <= i < |docs| && docs[i].id == id;
  }

  lemma {:induction false} DocumentPasses(
    q: Reading, f: T.Field, docs: seq<T.Doc>, tenant: Option<string>, eligible: string -> bool, i: nat)
    requires Reads(q, f) && T.Exact(f, docs) && i < |docs| && docs[i].tenant == tenant && eligible(docs[i].id)
    ensures TenantCandidate(q, f, tenant, eligible)(q.number(docs[i].id)) == Some(q.number(docs[i].id))
  {
    hide T.PostingsExact, T.TenantsExact, T.StatisticsExact, Lists;
    assert docs[i].id in f.documents;
  }

  lemma {:induction false} SilentTenant(docs: seq<T.Doc>, tenant: Option<string>, i: nat, terms: seq<string>)
    requires T.Lengths(T.Of(docs, tenant)) == 0 && i < |docs| && docs[i].tenant == tenant
    ensures !Matches(docs[i], terms)
  {
    OfMember(docs, tenant, docs[i]);
    LengthAtLeast(T.Of(docs, tenant), docs[i]);
  }

  /** One pair is pushed exactly when it is the result of a live document. */
  lemma {:induction false} PairExact(
    q: Reading, f: T.Field, docs: seq<T.Doc>, tenant: Option<string>, terms: seq<string>, eligible: string -> bool,
    visited: seq<nat>, n: nat, s: real)
    requires Reads(q, f) && T.Exact(f, docs)
    requires Complete(QueryLists(q, f, TenantCorpus(f, tenant), terms), visited)
    ensures var mine, lists := T.Of(docs, tenant), QueryLists(q, f, TenantCorpus(f, tenant), terms);
      (n, s) in Pushes(visited, lists, TenantCandidate(q, f, tenant, eligible), q.formula(|mine|, T.Lengths(mine)))
      <==> exists i: nat :: ResultOf(q, docs, tenant, terms, eligible, i, n, s)
  {
    hide Reads, T.Exact, QueryLists, Pushes, InUnion, Score, Expected, Matches, TenantCandidate, TenantCorpus, CorpusOf,
      T.Lengths, T.Of, Increasing;
    var mine, c := T.Of(docs, tenant), TenantCorpus(f, tenant);
    var lists, weight := QueryLists(q, f, c, terms), q.formula(|mine|, T.Lengths(mine));
    var candidate := TenantCandidate(q, f, tenant, eligible);
    TenantCorpusOf(f, docs, tenant);
    PushedExact(visited, lists, candidate, weight, n, s);
    if k :| 0 <= k < |visited| && candidate(visited[k]) == Some(n) && s == Score(lists, visited[k], weight) {
      var v := visited[k];
      assert v in visited;
      var i := VisitedDocument(q, f, docs, tenant, eligible, terms, v, n);
      OfMember(docs, tenant, docs[i]);
      ListsExact(q, f, docs, c, mine, terms, i, weight);
      assert ResultOf(q, docs, tenant, terms, eligible, i, n, s);
    }
    if i: nat :| ResultOf(q, docs, tenant, terms, eligible, i, n, s) {
      OfMember(docs, tenant, docs[i]);
      ListsExact(q, f, docs, c, mine, terms, i, weight);
      DocumentPasses(q, f, docs, tenant, eligible, i);
      assert n in visited;
      var k :| 0 <= k < |visited| && visited[k] == n;
      assert candidate(visited[k]) == Some(n) && s == Score(lists, visited[k], weight);
    }
  }

  /** A tenant's search that was not stopped returns exactly the eligible live documents of the tenant that hold a
      query term, each with the sum over every query term it holds. */
  lemma {:induction false} FoundExact(
    q: Reading, f: T.Field, docs: seq<T.Doc>, tenant: Option<string>, terms: seq<string>, limit: nat,
    eligible: string -> bool, pushed: seq<(nat, real)>, n: nat, s: real)
    requires Reads(q, f) && T.Exact(f, docs) && limit > 0
    requires Found(q, f, TenantCorpus(f, tenant), terms, limit, TenantCandidate(q, f, tenant, eligible), pushed)
    ensures (n, s) in pushed <==> exists i: nat :: ResultOf(q, docs, tenant, terms, eligible, i, n, s)
  {
    hide Reads, T.Exact, QueryLists, Pushes, Complete, Expected, Matches, TenantCandidate, TenantCorpus, T.DfExact,
      T.Lengths, T.Of;
    var c, mine := TenantCorpus(f, tenant), T.Of(docs, tenant);
    TenantCorpusOf(f, docs, tenant);
    if c.length == 0 {
      if i: nat :| ResultOf(q, docs, tenant, terms, eligible, i, n, s) {
        SilentTenant(docs, tenant, i, terms);
      }
    } else {
      var lists, weight := QueryLists(q, f, c, terms), q.formula(c.documents, c.length);
      var visited :| Complete(lists, visited)
        && pushed == Pushes(visited, lists, TenantCandidate(q, f, tenant, eligible), weight);
      PairExact(q, f, docs, tenant, terms, eligible, visited, n, s);
    }
  }

  predicate IdsAscend(pushed: seq<(nat, real)>) {
    forall i, j :: 0 <= i < j < |pushed| ==> pushed[i].0 < pushed[j].0
  }

  predicate IdsFrom(pushed: seq<(nat, real)>, visited: seq<nat>) {
    forall i :: 0 <= i < |pushed| ==> pushed[i].0 in visited
  }

  lemma {:induction false} PushesAscend(
    visited: seq<nat>, lists: seq<List>, q: Reading, f: T.Field, tenant: Option<string>, eligible: string -> bool,
    weight: Weight)
    requires Increasing(visited)
    ensures IdsAscend(Pushes(visited, lists, TenantCandidate(q, f, tenant, eligible), weight))
    ensures IdsFrom(Pushes(visited, lists, TenantCandidate(q, f, tenant, eligible), weight), visited)
  {
    hide Score;
    if visited != [] {
      var m := |visited| - 1;
      var front := visited[..m];
      PushesAscend(front, lists, q, f, tenant, eligible, weight);
      var candidate := TenantCandidate(q, f, tenant, eligible);
      var before, last := Pushes(front, lists, candidate, weight), Push(visited[m], lists, candidate, weight);
      forall i | 0 <= i < |before| ensures before[i].0 < visited[m] && before[i].0 in visited {
        assert before[i].0 in front;
      }
      assert Pushes(visited, lists, candidate, weight) == before + last;
    }
  }

  /** Results come in ascending order, so each document once. */
  lemma {:induction false} FoundAscends(
    q: Reading, f: T.Field, tenant: Option<string>, terms: seq<string>, limit: nat, eligible: string -> bool,
    pushed: seq<(nat, real)>)
    requires Found(q, f, TenantCorpus(f, tenant), terms, limit, TenantCandidate(q, f, tenant, eligible), pushed)
    ensures IdsAscend(pushed)
  {
    hide QueryLists, Pushes, TenantCandidate, TenantCorpus, InUnion, Increasing;
    var c := TenantCorpus(f, tenant);
    if c.length != 0 && limit != 0 {
      var lists, weight := QueryLists(q, f, c, terms), q.formula(c.documents, c.length);
      var visited :| Complete(lists, visited)
        && pushed == Pushes(visited, lists, TenantCandidate(q, f, tenant, eligible), weight);
      PushesAscend(visited, lists, q, f, tenant, eligible, weight);
    }
  }

  // ----- Every index can be read -----

  /** The postings of a term by ascending position of their documents, from position `i` on. */
  function ListingFrom(docs: seq<T.Doc>, posting: map<string, nat>, i: nat): (r: seq<Posting>)
    requires i <= |docs|
    decreases |docs| - i
  {
    if i == |docs| then []
    else
      var rest := ListingFrom(docs, posting, i + 1);
      if docs[i].id in posting then [Posting(i, posting[docs[i].id])] + rest else rest
  }

  predicate Listed(docs: seq<T.Doc>, posting: map<string, nat>, i: nat, p: Posting) {
    i <= p.id < |docs| && docs[p.id].id in posting && p.tf == posting[docs[p.id].id]
  }

  predicate HasPosition(list: seq<Posting>, n: nat) {
    exists k :: 0 <= k < |list| && list[k].id == n
  }

  predicate ListsFrom(docs: seq<T.Doc>, posting: map<string, nat>, i: nat, list: seq<Posting>) {
    && Ascending(list)
    && (forall k :: 0 <= k < |list| ==> Listed(docs, posting, i, list[k]))
    && (forall n: nat :: i <= n < |docs| && docs[n].id in posting ==> HasPosition(list, n))
  }

  lemma {:induction false} ListsCons(docs: seq<T.Doc>, posting: map<string, nat>, i: nat, rest: seq<Posting>)
    requires i < |docs| && docs[i].id in posting && ListsFrom(docs, posting, i + 1, rest)
    ensures ListsFrom(docs, posting, i, [Posting(i, posting[docs[i].id])] + rest)
  {
    var first := Posting(i, posting[docs[i].id]);
    var list := [first] + rest;
    forall k | 0 <= k < |list| ensures Listed(docs, posting, i, list[k]) && (k > 0 ==> i < list[k].id) {
      if k > 0 {
        assert Listed(docs, posting, i + 1, rest[k - 1]);
      }
    }
    forall j, k | 0 <= j < k < |list| ensures list[j].id < list[k].id {
      assert list[k] == rest[k - 1] && (j > 0 ==> list[j] == rest[j - 1]);
    }
    forall n: nat | i <= n < |docs| && docs[n].id in posting ensures HasPosition(list, n) {
      if n == i {
        assert list[0].id == i;
      } else {
        var k :| 0 <= k < |rest| && rest[k].id == n;
        assert list[k + 1].id == n;
      }
    }
  }

  lemma {:induction false} ListingMeans(docs: seq<T.Doc>, posting: map<string, nat>, i: nat)
    requires i <= |docs|
    ensures ListsFrom(docs, posting, i, ListingFrom(docs, posting, i))
    decreases |docs| - i
  {
    hide Ascending, HasPosition;
    if i < |docs| {
      ListingMeans(docs, posting, i + 1);
      if docs[i].id in posting {
        ListsCons(docs, posting, i, ListingFrom(docs, posting, i + 1));
      }
    } else {
      EmptyAscends();
    }
  }

  lemma {:induction false} EmptyAscends()
    ensures Ascending([])
  {
  }

  /** Documents numbered by position. */
  function ReadingOf(docs: seq<T.Doc>, idf: (nat, nat) -> real, formula: (nat, nat) -> Weight): Reading {
    Reading((id: string) => if T.HasId(docs, id) then T.IndexOf(docs, id) else 0,
      (n: nat) => if n < |docs| then docs[n].id else "",
      (posting: map<string, nat>) => ListingFrom(docs, posting, 0), idf, formula)
  }

  lemma {:induction false} NumberOf(docs: seq<T.Doc>, n: nat)
    requires T.Distinct(docs) && n < |docs|
    ensures T.HasId(docs, docs[n].id) && T.IndexOf(docs, docs[n].id) == n
  {
    hide T.IndexOf;
    assert T.HasId(docs, docs[n].id);
    var m := T.IndexOf(docs, docs[n].id);
    assert docs[m].id == docs[n].id;
  }

  lemma {:induction false} ListReadable(
    docs: seq<T.Doc>, idf: (nat, nat) -> real, formula: (nat, nat) -> Weight, posting: map<string, nat>)
    requires T.Distinct(docs) && forall id :: id in posting ==> T.HasId(docs, id)
    ensures var q := ReadingOf(docs, idf, formula); Lists(q, posting, q.listing(posting))
  {
    hide Ascending, ListingFrom, T.IndexOf, T.Distinct;
    ListingMeans(docs, posting, 0);
    var q, list := ReadingOf(docs, idf, formula), ListingFrom(docs, posting, 0);
    forall k | 0 <= k < |list|
      ensures q.name(list[k].id) in posting && q.number(q.name(list[k].id)) == list[k].id
      ensures list[k].tf == posting[q.name(list[k].id)]
    {
      assert Listed(docs, posting, 0, list[k]);
      NumberOf(docs, list[k].id);
    }
    forall id | id in posting ensures exists k :: 0 <= k < |list| && list[k].id == q.number(id) {
      var n: nat :| n < |docs| && docs[n].id == id;
      NumberOf(docs, n);
      assert HasPosition(list, n);
    }
  }

  lemma {:induction false} PostedIds(f: T.Field, docs: seq<T.Doc>, t: string)
    requires T.Exact(f, docs) && t in f.postings
    ensures forall id :: id in f.postings[t] ==> T.HasId(docs, id)
  {
    hide T.StatisticsExact, T.TenantsExact, T.DocumentsExact, T.Frequency, T.DocFreq;
    assert T.PostingExact(f.postings[t], docs, t);
    forall id | id in f.postings[t] ensures T.HasId(docs, id) {
      assert T.Holds(docs, t, id);
    }
  }

  /** The numbering by position reads every field that is what its documents make it. */
  lemma {:induction false} FieldReadable(
    f: T.Field, docs: seq<T.Doc>, idf: (nat, nat) -> real, formula: (nat, nat) -> Weight)
    requires T.Exact(f, docs)
    ensures Reads(ReadingOf(docs, idf, formula), f)
  {
    hide Lists, T.Exact, T.IndexOf, ListingFrom;
    var q := ReadingOf(docs, idf, formula);
    T.ExactDistinct(f, docs);
    forall t | t in f.postings ensures Lists(q, f.postings[t], q.listing(f.postings[t])) {
      PostedIds(f, docs, t);
      ListReadable(docs, idf, formula, f.postings[t]);
    }
    forall id | id in f.documents ensures q.name(q.number(id)) == id {
      T.DocumentAt(f, docs, id);
    }
  }
}
