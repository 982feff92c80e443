/** The two text searches of `bm25.rs`: within one tenant, over the statistics kept for it, and over what a
    caller is authorised to see, over statistics counted on the spot. Both merge the same posting lists. */
module TextSearch {
  import opened Wrappers
  import T = TextIndex
  import opened PostingMerge

  /** What both searches take from their surroundings: the order number of an id and back, a term's postings
      in id order, the inverse document frequency, and the weight formula for a corpus. */
  datatype Reading = Reading(
    number: string -> nat, name: nat -> string, listing: map<string, nat> -> seq<Posting>,
    idf: (nat, nat) -> real, formula: (nat, nat) -> Weight)

  /** A listing holds the postings of its map, by ascending number. */
  predicate Lists(q: Reading, posting: map<string, nat>, list: seq<Posting>) {
    && Ascending(list)
    && (forall i :: 0 <= i < |list| ==>
          && q.name(list[i].id) in posting && q.number(q.name(list[i].id)) == list[i].id
          && list[i].tf == posting[q.name(list[i].id)])
    && (forall id :: id in posting ==> exists i :: 0 <= i < |list| && list[i].id == q.number(id))
  }

  ghost predicate Reads(q: Reading, f: T.Field) {
    && (forall id :: id in f.documents ==> q.name(q.number(id)) == id)
    && (forall t :: t in f.postings ==> Lists(q, f.postings[t], q.listing(f.postings[t])))
  }

  /** The corpus a search scores against. */
  datatype Corpus = Corpus(documents: nat, length: nat, df: map<string, nat>)

  /** The lists of the query terms that occur in the corpus. */
  function QueryLists(q: Reading, f: T.Field, c: Corpus, terms: seq<string>): seq<List> {
    if terms == [] then []
    else
      var n := |terms| - 1;
      var t := terms[n];
      QueryLists(q, f, c, terms[..n])
      + (if t in c.df && t in f.postings then [List(q.idf(c.documents, c.df[t]), q.listing(f.postings[t]))] else [])
  }

  lemma {:induction false} QueryListsAscending(q: Reading, f: T.Field, c: Corpus, terms: seq<string>)
    requires Reads(q, f)
    ensures AllAscending(QueryLists(q, f, c, terms))
  {
    hide Ascending;
    if terms != [] {
      QueryListsAscending(q, f, c, terms[..|terms| - 1]);
    }
  }

  /** Two corpora give the same lists if they agree on the documents and on the query terms. */
  predicate Agree(c: Corpus, d: Corpus, terms: seq<string>) {
    && c.documents == d.documents && c.length == d.length
    && forall t :: t in terms ==> (t in c.df <==> t in d.df) && (t in c.df ==> c.df[t] == d.df[t])
  }

  lemma {:induction false} AgreeingLists(q: Reading, f: T.Field, c: Corpus, d: Corpus, terms: seq<string>)
    requires Agree(c, d, terms)
    ensures QueryLists(q, f, c, terms) == QueryLists(q, f, d, terms)
  {
    if terms != [] {
      var n := |terms| - 1;
      assert terms[n] in terms && forall t :: t in terms[..n] ==> t in terms;
      AgreeingLists(q, f, c, d, terms[..n]);
    }
  }

  /** Every id in a query list is a document of the field. */
  lemma {:induction false} ListedAreDocuments(
    q: Reading, f: T.Field, docs: seq<T.Doc>, c: Corpus, terms: seq<string>, id: nat)
    requires Reads(q, f) && T.Exact(f, docs) && InUnion(QueryLists(q, f, c, terms), id)
    ensures q.name(id) in f.documents && q.number(q.name(id)) == id
  {
    hide T.Exact, Ascending;
    var lists := QueryLists(q, f, c, terms);
    var n := |terms| - 1;
    var front, t := QueryLists(q, f, c, terms[..n]), terms[n];
    var k :| 0 <= k < |lists| && Holds(lists[k], id);
    if k < |front| {
      assert front[k] == lists[k];
      ListedAreDocuments(q, f, docs, c, terms[..n], id);
    } else {
      var list := lists[k].postings;
      var i :| 0 <= i < |list| && list[i].id == id;
      assert Lists(q, f.postings[t], list);
      PostedIsDocument(f, docs, t, q.name(id));
    }
  }

  lemma {:induction false} PostedIsDocument(f: T.Field, docs: seq<T.Doc>, t: string, id: string)
    requires T.Exact(f, docs) && t in f.postings && id in f.postings[t]
    ensures id in f.documents
  {
    hide T.StatisticsExact, T.TenantsExact, T.Frequency;
    assert T.PostingExact(f.postings[t], docs, t);
    assert T.Holds(docs, t, id);
  }

  // ----- Ranking -----

  /** All ids of the lists, once each, in order. */
  ghost predicate Complete(lists: seq<List>, visited: seq<nat>) {
    Increasing(visited) && forall id: nat :: InUnion(lists, id) <==> id in visited
  }

  /** What a search that was not stopped pushes. */
  ghost predicate Found(
    q: Reading, f: T.Field, c: Corpus, terms: seq<string>, limit: nat, candidate: Candidate, pushed: seq<(nat, real)>) {
    if c.length == 0 || limit == 0 then pushed == []
    else
      var lists := QueryLists(q, f, c, terms);
      exists visited :: Complete(lists, visited)
        && pushed == Pushes(visited, lists, candidate, q.formula(c.documents, c.length))
  }

  method Rank(
    q: Reading, f: T.Field, c: Corpus, terms: seq<string>, limit: nat, candidate: Candidate, proceed: nat -> bool)
    returns (pushed: seq<(nat, real)>, searched: nat, degraded: bool)
    requires Reads(q, f)
    ensures !degraded ==> Found(q, f, c, terms, limit, candidate, pushed)
    ensures searched == |pushed| && (degraded ==> exists round :: !proceed(round))
  {
    hide Pushes, InUnion, Reads, Increasing, Allowed;
    if c.length == 0 || limit == 0 {
      return [], 0, false;
    }
    var lists := BuildLists(q, f, c, terms);
    QueryListsAscending(q, f, c, terms);
    var visited;
    visited, pushed, searched, degraded := RankPostings(lists, candidate, q.formula(c.documents, c.length), proceed);
    if !degraded {
      assert Complete(lists, visited);
    }
  }

  method BuildLists(q: Reading, f: T.Field, c: Corpus, terms: seq<string>) returns (lists: seq<List>)
    ensures lists == QueryLists(q, f, c, terms)
  {
    lists := [];
    for n := 0 to |terms|
      invariant lists == QueryLists(q, f, c, terms[..n])
    {
      assert terms[..n + 1][..n] == terms[..n];
      var t := terms[n];
      if t in c.df && t in f.postings {
        lists := lists + [List(q.idf(c.documents, c.df[t]), q.listing(f.postings[t]))];
      }
    }
    assert terms[..|terms|] == terms;
  }

  // ----- The two searches -----

  function TenantCorpus(f: T.Field, tenant: Option<string>): Corpus {
    if tenant in f.tenants then Corpus(f.tenants[tenant].documents, f.tenants[tenant].length, f.tenants[tenant].df)
    else Corpus(0, 0, map[])
  }

  function TenantCandidate(q: Reading, f: T.Field, tenant: Option<string>, eligible: string -> bool): Candidate {
    (n: nat) => if q.name(n) in f.documents && f.documents[q.name(n)].tenant == tenant && eligible(q.name(n))
      then Some(n) else None
  }

  /** The search within one tenant. */
  method SearchTenant(
    q: Reading, f: T.Field, terms: seq<string>, tenant: string, limit: nat, eligible: string -> bool,
    proceed: nat -> bool)
    returns (pushed: seq<(nat, real)>, searched: nat, degraded: bool)
    requires Reads(q, f)
    ensures !degraded ==> Found(q, f, TenantCorpus(f, Some(tenant)), terms, limit,
      TenantCandidate(q, f, Some(tenant), eligible), pushed)
    ensures searched == |pushed| && (degraded ==> exists round :: !proceed(round))
  {
    if Some(tenant) !in f.tenants {
      return [], 0, false;
    }
    pushed, searched, degraded :=
      Rank(q, f, TenantCorpus(f, Some(tenant)), terms, limit, TenantCandidate(q, f, Some(tenant), eligible), proceed);
  }

  /** The authority names the public id of every document it lets the caller see. */
  function AuthorizedCandidate(q: Reading, authorize: string -> Option<nat>, eligible: string -> bool): Candidate {
    (n: nat) => if authorize(q.name(n)).Some? && eligible(q.name(n)) then authorize(q.name(n)) else None
  }

  /** The authority lets the caller see exactly one tenant's documents, under their own ids. */
  predicate AuthorizesTenant(q: Reading, f: T.Field, authorize: string -> Option<nat>, tenant: Option<string>) {
    forall id :: id in f.documents ==> authorize(id) == if f.documents[id].tenant == tenant then Some(q.number(id))
      else None
  }

  /** The authorised search over exactly one tenant, which no check stops. */
  method SearchAuthorized(
    q: Reading, f: T.Field, terms: seq<string>, limit: nat, authorize: string -> Option<nat>, eligible: string -> bool,
    ghost tenant: Option<string>, ghost docs: seq<T.Doc>)
    returns (pushed: seq<(nat, real)>, searched: nat)
    requires Reads(q, f) && T.Exact(f, docs) && AuthorizesTenant(q, f, authorize, tenant)
    ensures Found(q, f, TenantCorpus(f, tenant), terms, limit, TenantCandidate(q, f, tenant, eligible), pushed)
    ensures searched == |pushed|
  {
    hide Reads, T.Exact, T.Of, T.DocFreq, T.Lengths, Found;
    if limit == 0 || terms == [] {
      NoTerms(q, f, TenantCorpus(f, tenant), terms, limit, TenantCandidate(q, f, tenant, eligible));
      return [], 0;
    }
    var documents, length, df :=
      T.AuthorizedStatistics(f, set t | t in terms, (id: string) => authorize(id).Some?, tenant, docs);
    var c := Corpus(documents, length, df);
    var candidate := AuthorizedCandidate(q, authorize, eligible);
    var degraded;
    pushed, searched, degraded := Rank(q, f, c, terms, limit, candidate, _ => true);
    CorporaFindSame(q, f, docs, c, TenantCorpus(f, tenant), terms, limit, candidate,
      TenantCandidate(q, f, tenant, eligible), pushed);
  }

  lemma {:induction false} NoTerms(
    q: Reading, f: T.Field, c: Corpus, terms: seq<string>, limit: nat, candidate: Candidate)
    requires limit == 0 || terms == []
    ensures Found(q, f, c, terms, limit, candidate, [])
  {
    if c.length != 0 && limit != 0 {
      var lists := QueryLists(q, f, c, terms);
      assert Complete(lists, []) && Pushes([], lists, candidate, q.formula(c.documents, c.length)) == [];
    }
  }

  /** Agreeing corpora and candidates that agree on the documents find the same. */
  lemma {:induction false} CorporaFindSame(
    q: Reading, f: T.Field, docs: seq<T.Doc>, c: Corpus, d: Corpus, terms: seq<string>, limit: nat,
    candidate: Candidate, candidate': Candidate, pushed: seq<(nat, real)>)
    requires Reads(q, f) && T.Exact(f, docs) && Agree(c, d, terms)
    requires forall n: nat :: q.name(n) in f.documents && q.number(q.name(n)) == n ==> candidate(n) == candidate'(n)
    requires Found(q, f, c, terms, limit, candidate, pushed)
    ensures Found(q, f, d, terms, limit, candidate', pushed)
  {
    hide Reads, T.Exact, QueryLists, Pushes, InUnion, Increasing;
    AgreeingLists(q, f, c, d, terms);
    if c.length != 0 && limit != 0 {
      var lists, weight := QueryLists(q, f, c, terms), q.formula(c.documents, c.length);
      var visited :| Complete(lists, visited) && pushed == Pushes(visited, lists, candidate, weight);
      forall n | n in visited ensures candidate(n) == candidate'(n) {
        ListedAreDocuments(q, f, docs, c, terms, n);
      }
      SamePushes(visited, lists, candidate, candidate', weight);
    }
  }

  lemma {:induction false} SamePushes(
    visited: seq<nat>, lists: seq<List>, candidate: Candidate, candidate': Candidate, weight: Weight)
    requires forall n :: n in visited ==> candidate(n) == candidate'(n)
    ensures Pushes(visited, lists, candidate, weight) == Pushes(visited, lists, candidate', weight)
  {
    hide Score;
    if visited != [] {
      var n := |visited| - 1;
      assert visited[n] in visited && forall x :: x in visited[..n] ==> x in visited;
      SamePushes(visited[..n], lists, candidate, candidate', weight);
    }
  }

  /** Increasing sequences with the same members are the same. */
  lemma {:induction false} SameMembers(a: seq<nat>, b: seq<nat>)
    requires Increasing(a) && Increasing(b) && forall n: nat :: n in a <==> n in b
    ensures a == b
    decreases |a|
  {
    assert a == [] <==> b == [] by {
      if a != [] {
        assert a[0] in b;
      }
      if b != [] {
        assert b[0] in a;
      }
    }
    if a != [] {
      var i, j := |a| - 1, |b| - 1;
      assert a[i] in b && b[j] in a;
      assert a[i] == b[j];
      forall n: nat ensures n in a[..i] <==> n in b[..j] {
        assert n in a[..i] <==> n in a && n != a[i];
        assert n in b[..j] <==> n in b && n != b[j];
      }
      SameMembers(a[..i], b[..j]);
      assert a == a[..i] + [a[i]] && b == b[..j] + [b[j]];
    }
  }

  lemma {:induction false} FoundOnce(
    q: Reading, f: T.Field, c: Corpus, terms: seq<string>, limit: nat, candidate: Candidate, a: seq<(nat, real)>,
    b: seq<(nat, real)>)
    requires Found(q, f, c, terms, limit, candidate, a) && Found(q, f, c, terms, limit, candidate, b)
    ensures a == b
  {
    hide QueryLists, Pushes, InUnion, Increasing;
    if c.length != 0 && limit != 0 {
      var lists, weight := QueryLists(q, f, c, terms), q.formula(c.documents, c.length);
      var v :| Complete(lists, v) && a == Pushes(v, lists, candidate, weight);
      var w :| Complete(lists, w) && b == Pushes(w, lists, candidate, weight);
      SameMembers(v, w);
    }
  }

  /** A tenant's search and an authorised search over exactly that tenant push the same ids with the same
      scores in the same order, for every query, limit and filter. */
  method SearchesAgree(
    q: Reading, f: T.Field, terms: seq<string>, tenant: string, limit: nat, authorize: string -> Option<nat>,
    eligible: string -> bool, ghost docs: seq<T.Doc>)
    returns (own: seq<(nat, real)>, authorized: seq<(nat, real)>)
    requires Reads(q, f) && T.Exact(f, docs) && AuthorizesTenant(q, f, authorize, Some(tenant))
    ensures own == authorized
    ensures Found(q, f, TenantCorpus(f, Some(tenant)), terms, limit, TenantCandidate(q, f, Some(tenant), eligible), own)
  {
    hide Reads, T.Exact, Found, AuthorizesTenant;
    var searched, degraded;
    own, searched, degraded := SearchTenant(q, f, terms, tenant, limit, eligible, _ => true);
    authorized, searched := SearchAuthorized(q, f, terms, limit, authorize, eligible, Some(tenant), docs);
    FoundOnce(q, f, TenantCorpus(f, Some(tenant)), terms, limit, TenantCandidate(q, f, Some(tenant), eligible), own,
      authorized);
  }
}
