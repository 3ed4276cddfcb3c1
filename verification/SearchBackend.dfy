/** The in-memory backend: filter, rank, page and count the documents of one resource. */
module SearchBackend {
  import opened Options
  import opened SearchModel
  import opened SearchOrder
  import opened SearchFacets
  import opened SearchPaging
  import opened Cursor

  const CURSORS := Codec((n: nat) => EncodeCursor(n), DecodeCursor)

  datatype SearchRequest = SearchRequest(
    query: string, filters: seq<Filter>, facets: seq<FacetRequest>, sort: seq<Sort>, limit: int, cursor: string)

  datatype SearchResult = SearchResult(items: seq<Scored>, total: nat, facets: map<string, seq<Bucket>>, next: string)

  type Documents = map<string, Document>

  datatype Entry = Entry(id: string, attributes: Document)

  // ---- which documents match -------------------------------------------------------------

  function ValuesAt(doc: Document, key: string): seq<Value> {
    AttributeValues(if key in doc then doc[key] else Null)
  }

  /** The values of one attribute that contain the query. */
  ghost function KeyHits(e: Engine, doc: Document, query: string, key: string): set<(string, int)> {
    set i | 0 <= i < |ValuesAt(doc, key)| && e.search(Sprint(e.lib, ValuesAt(doc, key)[i]), query) :: (key, i)
  }

  /** All values of the given searchable attributes that contain the query. */
  ghost function QueryHits(e: Engine, doc: Document, query: string, keys: set<string>): set<(string, int)>
    requires keys <= e.schema.Keys
  {
    set key, hit | key in keys && e.schema[key].searchable && hit in KeyHits(e, doc, query, key) :: hit
  }

  ghost function Score(e: Engine, doc: Document, query: string): nat {
    if query == "" then 0 else |QueryHits(e, doc, query, e.schema.Keys)|
  }

  ghost predicate Matched(e: Engine, doc: Document, query: string, filters: seq<Filter>) {
    && (query != "" ==> QueryHits(e, doc, query, e.schema.Keys) != {})
    && Accepted(e, doc, filters)
  }

  predicate Accepted(e: Engine, doc: Document, filters: seq<Filter>) {
    MatchFilters(e.lib, e.search, e.schema, doc, filters)
  }

  predicate Accepts(e: Engine, doc: Document, f: Filter) {
    Matches(e.lib, e.search, e.schema, doc, f)
  }

  /** A query finds a document by some value of some searchable attribute, as it is printed. */
  lemma QueryFinds(e: Engine, doc: Document, query: string)
    ensures QueryHits(e, doc, query, e.schema.Keys) != {} <==>
              exists key, v :: key in e.schema && e.schema[key].searchable && IsAmong(doc, key, v)
                && e.search(Sprint(e.lib, v), query)
  {
    if hit :| hit in QueryHits(e, doc, query, e.schema.Keys) {
      var key :| key in e.schema.Keys && e.schema[key].searchable && hit in KeyHits(e, doc, query, key);
      assert IsAmong(doc, key, ValuesAt(doc, key)[hit.1]);
    }
    if key, v :| key in e.schema && e.schema[key].searchable && IsAmong(doc, key, v)
                 && e.search(Sprint(e.lib, v), query) {
      var i :| 0 <= i < |ValuesAt(doc, key)| && ValuesAt(doc, key)[i] == v;
      assert (key, i) in KeyHits(e, doc, query, key);
      assert (key, i) in QueryHits(e, doc, query, e.schema.Keys);
    }
  }

  /** The document's value of the attribute, or one of them. */
  ghost predicate IsAmong(doc: Document, key: string, v: Value) {
    key in doc && if doc[key].Arr? then v in doc[key].items else v == doc[key] != Null
  }

  ghost function MatchesIn(e: Engine, docs: Documents, query: string, filters: seq<Filter>): (r: set<Scored>)
    ensures Keyed(r)
  {
    set id | id in docs && Matched(e, docs[id], query, filters) :: Scored(id, docs[id], Score(e, docs[id], query))
  }

  /** The score counts, in whatever order the schema is walked, the matching values. */
  method MatchQuery(e: Engine, doc: Document, query: string) returns (score: nat, matched: bool)
    ensures score == Score(e, doc, query)
    ensures matched <==> query != "" ==> QueryHits(e, doc, query, e.schema.Keys) != {}
  {
    if query == "" {
      return 0, true;
    }
    score := 0;
    var keys := e.schema.Keys;
    while keys != {}
      invariant keys <= e.schema.Keys
      invariant score == |QueryHits(e, doc, query, e.schema.Keys - keys)|
      decreases keys
    {
      var key :| key in keys;
      if e.schema[key].searchable {
        var found := CountHits(e, doc, query, key);
        score := score + found;
      }
      MoreHits(e, doc, query, e.schema.Keys - keys, key);
      assert e.schema.Keys - (keys - {key}) == e.schema.Keys - keys + {key};
      keys := keys - {key};
    }
    assert e.schema.Keys - keys == e.schema.Keys;
    matched := score > 0;
  }

  method CountHits(e: Engine, doc: Document, query: string, key: string) returns (count: nat)
    ensures count == |KeyHits(e, doc, query, key)|
  {
    var values := ValuesAt(doc, key);
    count := 0;
    ghost var hits: set<(string, int)> := {};
    for i := 0 to |values|
      invariant forall h :: h in hits <==> h.0 == key && 0 <= h.1 < i && e.search(Sprint(e.lib, values[h.1]), query)
      invariant count == |hits|
    {
      if e.search(Sprint(e.lib, values[i]), query) {
        count := count + 1;
        hits := hits + {(key, i)};
      }
    }
    assert hits == KeyHits(e, doc, query, key);
  }

  lemma MoreHits(e: Engine, doc: Document, query: string, keys: set<string>, key: string)
    requires keys + {key} <= e.schema.Keys && key !in keys
    ensures |QueryHits(e, doc, query, keys + {key})|
         == |QueryHits(e, doc, query, keys)| + if e.schema[key].searchable then |KeyHits(e, doc, query, key)| else 0
  {
    var before := QueryHits(e, doc, query, keys);
    if e.schema[key].searchable {
      KeysApart(e, doc, query, keys, key);
      HitsJoin(e, doc, query, keys, key);
    } else {
      NoHitsMore(e, doc, query, keys, key);
    }
  }

  lemma KeysApart(e: Engine, doc: Document, query: string, keys: set<string>, key: string)
    requires keys <= e.schema.Keys && key !in keys
    ensures QueryHits(e, doc, query, keys) !! KeyHits(e, doc, query, key)
  {
  }

  lemma HitsJoin(e: Engine, doc: Document, query: string, keys: set<string>, key: string)
    requires keys + {key} <= e.schema.Keys && e.schema[key].searchable
    ensures QueryHits(e, doc, query, keys + {key}) == QueryHits(e, doc, query, keys) + KeyHits(e, doc, query, key)
  {
  }

  lemma NoHitsMore(e: Engine, doc: Document, query: string, keys: set<string>, key: string)
    requires keys + {key} <= e.schema.Keys && !e.schema[key].searchable
    ensures QueryHits(e, doc, query, keys + {key}) == QueryHits(e, doc, query, keys)
  {
  }

  method MatchAll(e: Engine, doc: Document, filters: seq<Filter>) returns (matched: bool)
    ensures matched <==> Accepted(e, doc, filters)
  {
    for i := 0 to |filters|
      invariant forall k :: 0 <= k < i ==> Accepts(e, doc, filters[k])
    {
      if !Accepts(e, doc, filters[i]) {
        return false;
      }
    }
    return true;
  }

  /** A listing of the documents, in any order. */
  ghost predicate Snapshot(docs: Documents, listing: seq<Entry>) {
    && |listing| == |docs|
    && (forall i, j :: 0 <= i < j < |listing| ==> listing[i].id != listing[j].id)
    && (forall i :: 0 <= i < |listing| ==> listing[i].id in docs && listing[i].attributes == docs[listing[i].id])
    && forall id <- docs.Keys :: Entry(id, docs[id]) in listing
  }

  /** The matches among the first n documents of a listing, in its order. */
  ghost predicate Filtered(e: Engine, listing: seq<Entry>, n: nat, query: string, filters: seq<Filter>,
      matched: seq<Scored>)
    requires n <= |listing|
  {
    && DistinctIds(matched)
    && (forall x <- matched :: exists k :: 0 <= k < n && MatchAt(e, listing[k], query, filters, x))
    && forall k :: 0 <= k < n && Matched(e, listing[k].attributes, query, filters) ==>
      Hit(e, listing[k], query) in matched
  }

  ghost function Hit(e: Engine, document: Entry, query: string): Scored {
    Scored(document.id, document.attributes, Score(e, document.attributes, query))
  }

  ghost predicate MatchAt(e: Engine, document: Entry, query: string, filters: seq<Filter>, x: Scored) {
    x == Hit(e, document, query) && Matched(e, document.attributes, query, filters)
  }

  lemma FilteredOn(e: Engine, docs: Documents, listing: seq<Entry>, n: nat, query: string, filters: seq<Filter>,
      matched: seq<Scored>)
    requires Snapshot(docs, listing) && n < |listing| && Filtered(e, listing, n, query, filters, matched)
    requires Matched(e, listing[n].attributes, query, filters)
    ensures Filtered(e, listing, n + 1, query, filters, matched + [Hit(e, listing[n], query)])
  {
    assert MatchAt(e, listing[n], query, filters, Hit(e, listing[n], query));
    NewId(docs, listing, n, e, query, filters, matched);
  }

  lemma FilteredPast(e: Engine, listing: seq<Entry>, n: nat, query: string, filters: seq<Filter>, matched: seq<Scored>)
    requires n < |listing| && Filtered(e, listing, n, query, filters, matched)
    requires !Matched(e, listing[n].attributes, query, filters)
    ensures Filtered(e, listing, n + 1, query, filters, matched)
  {
  }

  lemma NewId(docs: Documents, listing: seq<Entry>, n: nat, e: Engine, query: string, filters: seq<Filter>,
      matched: seq<Scored>)
    requires Snapshot(docs, listing) && n < |listing| && Filtered(e, listing, n, query, filters, matched)
    ensures forall i :: 0 <= i < |matched| ==> matched[i].id != listing[n].id
  {
    forall i | 0 <= i < |matched| ensures matched[i].id != listing[n].id {
      assert matched[i] in matched;
      var k :| 0 <= k < n && MatchAt(e, listing[k], query, filters, matched[i]);
    }
  }

  lemma AllFiltered(e: Engine, docs: Documents, listing: seq<Entry>, query: string, filters: seq<Filter>,
      matched: seq<Scored>)
    requires Snapshot(docs, listing) && Filtered(e, listing, |listing|, query, filters, matched)
    ensures Members(matched) == MatchesIn(e, docs, query, filters)
  {
    forall x ensures x in matched <==> x in MatchesIn(e, docs, query, filters) {
      if x in matched {
        var k :| 0 <= k < |listing| && MatchAt(e, listing[k], query, filters, x);
      }
      if x in MatchesIn(e, docs, query, filters) {
        var k :| 0 <= k < |listing| && listing[k] == Entry(x.id, docs[x.id]);
        assert Hit(e, listing[k], query) == x;
      }
    }
  }

  method FilterDocuments(e: Engine, listing: seq<Entry>, query: string, filters: seq<Filter>, ghost docs: Documents)
    returns (matched: seq<Scored>)
    requires Snapshot(docs, listing)
    ensures DistinctIds(matched) && Members(matched) == MatchesIn(e, docs, query, filters)
  {
    matched := [];
    for i := 0 to |listing|
      invariant Filtered(e, listing, i, query, filters, matched)
    {
      var document := listing[i];
      if Matched(e, document.attributes, query, filters) {
        FilteredOn(e, docs, listing, i, query, filters, matched);
      } else {
        FilteredPast(e, listing, i, query, filters, matched);
      }
      var score, queryMatch := MatchQuery(e, document.attributes, query);
      if queryMatch {
        var accepted := MatchAll(e, document.attributes, filters);
        if accepted {
          matched := matched + [Scored(document.id, document.attributes, score)];
        }
      }
    }
    AllFiltered(e, docs, listing, query, filters, matched);
  }

  // ---- facets -------------------------------------------------------------------------

  /** filtersWithoutField as a function: client filters on the field are dropped, mandatory ones stay. */
  function WithoutField(filters: seq<Filter>, field: string): seq<Filter> {
    if filters == [] then []
    else
      var last := filters[|filters| - 1];
      WithoutField(filters[..|filters| - 1], field) + if last.field != field || last.mandatory then [last] else []
  }

  lemma {:induction false} WithoutFieldMembers(filters: seq<Filter>, field: string)
    ensures forall f :: f in WithoutField(filters, field) <==> f in filters && (f.field != field || f.mandatory)
  {
    if filters != [] {
      WithoutFieldMembers(filters[..|filters| - 1], field);
      assert filters == filters[..|filters| - 1] + [filters[|filters| - 1]];
    }
  }

  method FiltersWithoutField(filters: seq<Filter>, field: string) returns (result: seq<Filter>)
    ensures result == WithoutField(filters, field)
    ensures forall f :: f in result <==> f in filters && (f.field != field || f.mandatory)
  {
    result := [];
    for i := 0 to |filters|
      invariant result == WithoutField(filters[..i], field)
    {
      assert filters[..i + 1][..i] == filters[..i];
      if filters[i].field != field || filters[i].mandatory {
        result := result + [filters[i]];
      }
    }
    assert filters[..|filters|] == filters;
    WithoutFieldMembers(filters, field);
  }

  function FacetFilters(request: SearchRequest, facet: FacetRequest): seq<Filter> {
    if facet.mode == "disjunctive" then WithoutField(request.filters, facet.field) else request.filters
  }

  ghost predicate FacetAnswers(e: Engine, docs: Documents, request: SearchRequest, facet: FacetRequest,
      r: seq<Bucket>) {
    FacetOf(e, DefinitionOf(e.schema, facet.field),
            MatchesIn(e, docs, request.query, FacetFilters(request, facet)), facet, r)
  }

  ghost predicate DistinctFacets(facets: seq<FacetRequest>) {
    forall i, j :: 0 <= i < j < |facets| ==> facets[i].field != facets[j].field
  }

  /** What a request asks of a backend once it has been normalised. */
  ghost predicate Served(request: SearchRequest) {
    && request.limit >= 1 && DistinctFacets(request.facets)
    && forall i :: 0 <= i < |request.facets| ==> request.facets[i].limit >= 1
  }

  ghost function FieldsOf(facets: seq<FacetRequest>): set<string> {
    set f | f in facets :: f.field
  }

  /** The first n facets have been answered. */
  ghost predicate Built(e: Engine, docs: Documents, request: SearchRequest, n: nat, results: map<string, seq<Bucket>>)
    requires n <= |request.facets|
  {
    && results.Keys == FieldsOf(request.facets[..n])
    && forall f <- request.facets[..n] :: FacetAnswers(e, docs, request, f, results[f.field])
  }

  lemma BuildsOn(e: Engine, docs: Documents, request: SearchRequest, n: nat, results: map<string, seq<Bucket>>,
      r: seq<Bucket>)
    requires n < |request.facets| && DistinctFacets(request.facets) && Built(e, docs, request, n, results)
    requires FacetAnswers(e, docs, request, request.facets[n], r)
    ensures Built(e, docs, request, n + 1, results[request.facets[n].field := r])
  {
    AnswersGrow(request.facets, n, (f, buckets) => FacetAnswers(e, docs, request, f, buckets), results, r);
  }

  /** One more facet, on its own field, leaves the answers to those before it. */
  lemma AnswersGrow(facets: seq<FacetRequest>, n: nat, answers: (FacetRequest, seq<Bucket>) -> bool,
                    results: map<string, seq<Bucket>>, r: seq<Bucket>)
    requires n < |facets| && DistinctFacets(facets) && results.Keys == FieldsOf(facets[..n])
    requires (forall f <- facets[..n] :: answers(f, results[f.field])) && answers(facets[n], r)
    ensures results[facets[n].field := r].Keys == FieldsOf(facets[..n + 1])
    ensures forall f <- facets[..n + 1] :: answers(f, results[facets[n].field := r][f.field])
  {
    assert facets[..n + 1] == facets[..n] + [facets[n]];
  }

  method BuildFacets(e: Engine, listing: seq<Entry>, request: SearchRequest, ghost docs: Documents)
    returns (results: map<string, seq<Bucket>>)
    requires Snapshot(docs, listing) && Served(request)
    ensures Built(e, docs, request, |request.facets|, results)
  {
    results := map[];
    for i := 0 to |request.facets|
      invariant Built(e, docs, request, i, results)
    {
      var result := BuildFacet(e, listing, request, request.facets[i], docs);
      BuildsOn(e, docs, request, i, results, result);
      results := results[request.facets[i].field := result];
    }
  }

  /** One turn of the loop over the facets. */
  method BuildFacet(e: Engine, listing: seq<Entry>, request: SearchRequest, facet: FacetRequest, ghost docs: Documents)
    returns (result: seq<Bucket>)
    requires Snapshot(docs, listing) && facet.limit >= 1
    ensures FacetAnswers(e, docs, request, facet, result)
  {
    var filters := request.filters;
    if facet.mode == "disjunctive" {
      filters := FiltersWithoutField(filters, facet.field);
    }
    var matched := FilterDocuments(e, listing, request.query, filters, docs);
    result := AggregateFacet(e, matched, DefinitionOf(e.schema, facet.field), facet);
  }

  // ---- searching -----------------------------------------------------------------------

  /** The matches of a request, in their one ranked order. */
  ghost function Found(e: Engine, docs: Documents, request: SearchRequest): seq<Scored> {
    Ranking(e, request.sort, MatchesIn(e, docs, request.query, request.filters))
  }

  /** Attributes, scores and identifiers put every match before all later ones. */
  lemma FoundInOrder(e: Engine, docs: Documents, request: SearchRequest, i: nat, j: nat)
    requires i < j < |Found(e, docs, request)|
    ensures var found := Found(e, docs, request); Precedes(e, request.sort, found[i], found[j])
  {
    RankedExactly(e, request.sort, Found(e, docs, request));
  }

  /** r answers the request: it depends on the documents alone, not on the order they are walked in. */
  ghost predicate Answers(e: Engine, docs: Documents, request: SearchRequest, r: SearchResult)
    requires Served(request)
  {
    && PageOf(CURSORS, Found(e, docs, request), request.cursor, request.limit) == Some(Page(r.items, r.next))
    && r.total == |Found(e, docs, request)|
    && Built(e, docs, request, |request.facets|, r.facets)
  }

  class MemoryBackend {
    var documents: map<string, Documents>

    constructor ()
      ensures documents == map[]
    {
      documents := map[];
    }

    function Of(resource: string): Documents
      reads this
    {
      if resource in documents then documents[resource] else map[]
    }

    method Index(resource: string, id: string, attributes: Document)
      modifies this
      ensures documents == old(documents)[resource := old(Of(resource))[id := attributes]]
    {
      if resource !in documents {
        documents := documents[resource := map[]];
      }
      documents := documents[resource := documents[resource][id := attributes]];
    }

    method Delete(resource: string, id: string)
      modifies this
      ensures forall name :: Of(name) == if name == resource then old(Of(name)) - {id} else old(Of(name))
    {
      if resource in documents {
        documents := documents[resource := documents[resource] - {id}];
      }
    }

    method List(resource: string) returns (listing: seq<Entry>)
      ensures Snapshot(Of(resource), listing)
    {
      var docs := Of(resource);
      listing := [];
      var left := docs.Keys;
      while left != {}
        invariant left <= docs.Keys && |listing| + |left| == |docs|
        invariant forall i, j :: 0 <= i < j < |listing| ==> listing[i].id != listing[j].id
        invariant forall i :: 0 <= i < |listing| ==>
          listing[i].id in docs.Keys - left && listing[i].attributes == docs[listing[i].id]
        invariant forall id <- docs.Keys - left :: Entry(id, docs[id]) in listing
        decreases left
      {
        var id :| id in left;
        listing := listing + [Entry(id, docs[id])];
        left := left - {id};
      }
    }

    method Search(e: Engine, resource: string, request: SearchRequest) returns (r: Option<SearchResult>)
      requires Served(request)
      ensures match r
              case Some(result) => Answers(e, Of(resource), request, result)
              case None => PageOf(CURSORS, Found(e, Of(resource), request), request.cursor, request.limit).None?
    {
      var listing := List(resource);
      ghost var docs := Of(resource);
      var matched := FilterDocuments(e, listing, request.query, request.filters, docs);
      var ranked := SortDocuments(e, request.sort, matched);
      FoundIs(e, docs, request, matched, ranked);
      var page := PageDocuments(CURSORS, ranked, request.cursor, request.limit);
      if page.None? {
        return None;
      }
      var facets := BuildFacets(e, listing, request, docs);
      r := Some(SearchResult(page.value.items, |matched|, facets, page.value.next));
    }
  }

  /** Any sorted list of the matches is the ranking. */
  lemma FoundIs(e: Engine, docs: Documents, request: SearchRequest, matched: seq<Scored>, ranked: seq<Scored>)
    requires Members(matched) == MatchesIn(e, docs, request.query, request.filters)
    requires Ranked(e, request.sort, ranked) && SameMembers(ranked, matched)
    ensures ranked == Found(e, docs, request)
  {
    var found := Found(e, docs, request);
    forall x ensures x in ranked <==> x in found {
      assert x in matched <==> x in Members(matched);
    }
    RankingIsUnique(e, request.sort, ranked, found);
  }
}
