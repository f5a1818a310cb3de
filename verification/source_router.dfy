/** The source-catalogue endpoints: filtered listing by credibility, one
    source with its latest documents, registration of a new source, and a
    status change. */
module SourceRouter {
  import opened Wrappers
  import opened Domain
  import opened Listing
  import opened Pagination
  import opened Store

  const DefaultSourceLimit: nat := 50
  const DefaultCredibility: int := 50
  const DocsShown: nat := 10

  /** The optional filters of the listing; a missing one matches everything. */
  datatype SourceFilter = SourceFilter(authority: Option<AuthorityLevel>, status: Option<SourceStatus>, lang: Option<Language>)

  predicate Matches(f: SourceFilter, s: Source) {
    && (f.authority.Some? ==> s.authority == f.authority.value)
    && (f.status.Some? ==> s.status == f.status.value)
    && (f.lang.Some? ==> s.lang == f.lang.value)
  }

  function Credibility(db: Db): nat -> int {
    i => if i in db.sources then db.sources[i].credibility else 0
  }

  /** The listing order: credibility, highest first, then the primary key
      ascending, which Prisma appends as a tie-break under `take`. */
  function CredibilityOrder(db: Db): (nat, nat) -> bool {
    (a: nat, b: nat) => Credibility(db)(a) > Credibility(db)(b) || (Credibility(db)(a) == Credibility(db)(b) && a < b)
  }

  function MatchingIds(db: Db, f: SourceFilter): seq<nat> {
    OldestFirst(db.sources, (s: Source) => Matches(f, s), db.nextId)
  }

  /** The matching sources, by credibility, highest first; equal
      credibility keeps id order. */
  function OrderedSourceIds(db: Db, f: SourceFilter): (r: seq<nat>)
    ensures forall k :: 0 <= k < |r| ==> r[k] in db.sources && Matches(f, db.sources[r[k]])
  {
    var ids := MatchingIds(db, f);
    var ordered := SortByRank(ids, Credibility(db));
    assert forall k :: 0 <= k < |ordered| ==> ordered[k] in multiset(ids);
    ordered
  }

  function GetAll(db: Db, f: SourceFilter, limit: Option<int>, cursor: Option<nat>): (r: Result<RowPage<Source>>)
    ensures r.Ok? <==> CheckLimit(limit, DefaultSourceLimit).Ok?
    ensures r.Ok? ==> |r.value.rows| <= (if limit.Some? then limit.value else DefaultSourceLimit)
    ensures r.Ok? ==> forall k :: 0 <= k < |r.value.rows| ==> Matches(f, r.value.rows[k]) && r.value.rows[k] in db.sources.Values
  {
    ListPage(db.sources, OrderedSourceIds(db, f), CredibilityOrder(db), limit, DefaultSourceLimit, cursor)
  }

  /** A page lists sources by credibility, highest first. */
  lemma GetAllOrdered(db: Db, f: SourceFilter, limit: Option<int>, cursor: Option<nat>)
    requires GetAll(db, f, limit, cursor).Ok?
    ensures var rows := GetAll(db, f, limit, cursor).value.rows;
            forall k, l :: 0 <= k < l < |rows| ==> rows[k].credibility >= rows[l].credibility
  {
    var ordered := OrderedSourceIds(db, f);
    var lim := CheckLimit(limit, DefaultSourceLimit).value;
    var w := Window(db.sources, ordered, CredibilityOrder(db), cursor);
    var p := Paginate(w.0, w.1, lim);
    SortRanked(MatchingIds(db, f), Credibility(db));
    WindowPageRanked(db.sources, ordered, CredibilityOrder(db), cursor, lim, Credibility(db));
    ListPageRows(db.sources, ordered, CredibilityOrder(db), limit, DefaultSourceLimit, cursor);
    var rows := GetAll(db, f, limit, cursor).value.rows;
    assert forall k :: 0 <= k < |rows| ==> rows[k].credibility == Credibility(db)(p.items[k]);
  }

  /** Following nextCursor from the first page visits every matching source exactly once. */
  lemma FollowVisitsEverySource(db: Db, f: SourceFilter, limit: nat)
    requires limit >= 1
    ensures var ordered := OrderedSourceIds(db, f);
            && Distinct(ordered)
            && Follow(ordered, None, limit) == ordered
            && forall i :: i in db.sources && i < db.nextId && Matches(f, db.sources[i]) ==> i in ordered
  {
    var ids := MatchingIds(db, f);
    var ordered := OrderedSourceIds(db, f);
    AscendingIsDistinct(ids);
    DistinctByMultiset(ordered, ids);
    PagesCoverList(ordered, limit);
    forall i | i in db.sources && i < db.nextId && Matches(f, db.sources[i]) ensures i in ordered {
      OldestFirstComplete(db.sources, (s: Source) => Matches(f, s), db.nextId, i);
      assert i in multiset(ids);
    }
  }

  /** Among sources of equal credibility, the lower id is listed first, and
      all of them are listed: the run of credibility c is the matching
      sources of credibility c in id order. */
  lemma EqualCredibilityInIdOrder(db: Db, f: SourceFilter, c: int)
    ensures OfRank(OrderedSourceIds(db, f), Credibility(db), c) == OfRank(MatchingIds(db, f), Credibility(db), c)
    ensures StrictlyAscending(OfRank(OrderedSourceIds(db, f), Credibility(db), c))
  {
    SortStable(MatchingIds(db, f), Credibility(db), c);
    OfRankAscending(MatchingIds(db, f), Credibility(db), c);
  }

  /** A source with its latest documents. */
  datatype SourceView = SourceView(source: Source, docs: seq<Doc>)

  function DocIdsOf(db: Db, sourceId: nat): seq<nat> {
    NewestFirst(db.docs, (d: Doc) => d.sourceId == sourceId, db.nextId)
  }

  /** One source and at most ten of its documents, newest first; None when there is no such source. */
  function GetById(db: Db, id: nat): (r: Option<SourceView>)
    ensures r.Some? <==> id in db.sources
    ensures r.Some? ==> r.value.source == db.sources[id]
    ensures r.Some? ==> |r.value.docs| == Min(DocsShown, |DocIdsOf(db, id)|)
    ensures r.Some? ==> forall k :: 0 <= k < |r.value.docs| ==>
              r.value.docs[k].sourceId == id && r.value.docs[k] == db.docs[DocIdsOf(db, id)[k]]
  {
    if id !in db.sources then None
    else
      var ids := DocIdsOf(db, id);
      Some(SourceView(db.sources[id], Rows(db.docs, ids[..Min(DocsShown, |ids|)])))
  }

  /** The documents shown are the newest ones: any document of the source
      left out is older than every document shown. */
  lemma ShownDocsAreNewest(db: Db, id: nat, d: nat)
    requires Valid(db) && id in db.sources
    requires d in db.docs && db.docs[d].sourceId == id
    requires db.docs[d] !in GetById(db, id).value.docs
    ensures forall k :: 0 <= k < |GetById(db, id).value.docs| ==> GetById(db, id).value.docs[k].id > d
  {
    var ids := DocIdsOf(db, id);
    NewestFirstComplete(db.docs, (x: Doc) => x.sourceId == id, db.nextId, d);
    var j :| 0 <= j < |ids| && ids[j] == d;
    var docs := GetById(db, id).value.docs;
    forall k | 0 <= k < |docs| ensures docs[k].id > d {
      assert docs[k] == db.docs[ids[k]];
    }
  }

  /** A source as submitted. */
  datatype SourceInput = SourceInput(
    title: string,
    publisher: Option<string>,
    url: Option<string>,
    lang: Language,
    year: Option<int>,
    authority: AuthorityLevel,
    credibility: Option<int>)

  /** The schema: a non-empty title, a well-formed URL if any, and a
      credibility in 0..100 if any. `isUrl` is the URL check. */
  predicate ValidSourceInput(input: SourceInput, isUrl: string -> bool) {
    && |input.title| >= 1
    && (input.url.Some? ==> isUrl(input.url.value))
    && (input.credibility.Some? ==> 0 <= input.credibility.value <= 100)
  }

  /** Register a source: it always starts unverified, and with credibility 50 unless one is given. */
  function Create(db: Db, input: SourceInput, isUrl: string -> bool): (r: (Db, Result<Source>))
    ensures r.1.Ok? <==> ValidSourceInput(input, isUrl)
    ensures r.1.Err? ==> r.0 == db
    ensures r.1.Ok? ==> var s := r.1.value;
              && s.status == Unverified
              && s.credibility == (if input.credibility.Some? then input.credibility.value else DefaultCredibility)
              && 0 <= s.credibility <= 100
              && s.title == input.title && s.publisher == input.publisher && s.url == input.url
              && s.lang == input.lang && s.year == input.year && s.authority == input.authority
              && s.id == db.nextId
              && r.0 == db.(sources := db.sources[s.id := s], nextId := db.nextId + 1)
    ensures Valid(db) ==> Valid(r.0)
  {
    if !ValidSourceInput(input, isUrl) then (db, Err("invalid input"))
    else
      var credibility := if input.credibility.Some? then input.credibility.value else DefaultCredibility;
      var (db', s) := InsertSource(db, Source(0, input.title, input.publisher, input.url, input.lang,
                                              input.year, input.authority, credibility, Unverified));
      (db', Ok(s))
  }

  /** Change a source's status, and its credibility only when one is given. */
  function UpdateStatus(db: Db, id: nat, status: SourceStatus, credibility: Option<int>): (r: (Db, Result<Source>))
    ensures r.1.Ok? <==> (credibility.Some? ==> 0 <= credibility.value <= 100) && id in db.sources
    ensures r.1.Err? ==> r.0 == db
    ensures r.1.Ok? ==> var s := r.1.value;
              && s.status == status
              && s.credibility == (if credibility.Some? then credibility.value else db.sources[id].credibility)
              && s == db.sources[id].(status := s.status, credibility := s.credibility)
              && r.0 == db.(sources := db.sources[id := s])
    ensures Valid(db) ==> Valid(r.0)
  {
    if credibility.Some? && !(0 <= credibility.value <= 100) then (db, Err("invalid input"))
    else if id !in db.sources then (db, Err("record to update not found"))
    else
      var prior := db.sources[id];
      var s := prior.(status := status, credibility := if credibility.Some? then credibility.value else prior.credibility);
      (db.(sources := db.sources[id := s]), Ok(s))
  }
}
