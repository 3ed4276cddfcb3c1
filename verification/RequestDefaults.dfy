/** The documented defaults and limits of a search request, and what normalisation makes of any request. */
module RequestDefaults {
  import opened Options
  import opened Cursor
  import opened SearchModel
  import opened SearchOrder
  import opened SearchFacets
  import opened SearchBackend
  import opened SearchResource
  import opened FilterValues

  function FacetWithDefaults(f: FacetRequest): FacetRequest {
    FacetRequest(f.field, if f.mode == "" then "disjunctive" else f.mode, if f.limit == 0 then 20 else f.limit,
                 if f.sort == "" then "count" else f.sort, f.includeMissing)
  }

  function FacetsWithDefaults(facets: seq<FacetRequest>): (r: seq<FacetRequest>)
    ensures |r| == |facets| && forall i :: 0 <= i < |r| ==> r[i] == FacetWithDefaults(facets[i])
  {
    if facets == [] then [] else [FacetWithDefaults(facets[0])] + FacetsWithDefaults(facets[1..])
  }

  function SortsWithDefaults(sorts: seq<Sort>): (r: seq<Sort>)
    ensures |r| == |sorts|
    ensures forall i :: 0 <= i < |r| ==>
      r[i] == Sort(sorts[i].field, if sorts[i].direction == "" then "asc" else sorts[i].direction)
  {
    if sorts == [] then []
    else
      var s := sorts[0];
      [Sort(s.field, if s.direction == "" then "asc" else s.direction)] + SortsWithDefaults(sorts[1..])
  }

  /** The request a client means that leaves fields empty. */
  function WithDefaults(r: SearchRequest): SearchRequest {
    SearchRequest(r.query, r.filters, FacetsWithDefaults(r.facets), SortsWithDefaults(r.sort),
                  if r.limit == 0 then 20 else r.limit, r.cursor)
  }

  ghost predicate FacetAllowed(schema: Schema, f: FacetRequest) {
    && f.field in schema && schema[f.field].facetable && 1 <= f.limit <= 100
    && (f.mode == "disjunctive" || f.mode == "conjunctive") && (f.sort == "count" || f.sort == "value")
  }

  ghost predicate AllFacetsAllowed(schema: Schema, facets: seq<FacetRequest>) {
    forall i :: 0 <= i < |facets| ==> FacetAllowed(schema, facets[i])
  }

  ghost predicate SortAllowed(schema: Schema, s: Sort) {
    s.field in schema && schema[s.field].sortable && (s.direction == "asc" || s.direction == "desc")
  }

  ghost predicate FilterAllowed(lib: Library, schema: Schema, f: Filter) {
    f.field in schema && Askable(lib, schema[f.field], f)
  }

  /** A request within the limits that asks for declared attributes only, each for what it may be used. */
  ghost predicate Allowed(e: Engine, r: SearchRequest) {
    && |r.query| <= 512 && 1 <= r.limit <= 100 && |r.filters| <= 20 && |r.facets| <= 10
    && DecodeCursor(r.cursor).Some?
    && (forall i :: 0 <= i < |r.filters| ==> FilterAllowed(e.lib, e.schema, r.filters[i]))
    && AllFacetsAllowed(e.schema, r.facets) && DistinctFacets(r.facets)
    && forall i :: 0 <= i < |r.sort| ==> SortAllowed(e.schema, r.sort[i])
  }

  /** Normalisation trims the query, writes the defaults out, and refuses exactly what is not allowed then. */
  lemma NormalizeExactly(e: Engine, trim: string -> string, r: SearchRequest)
    ensures var full := WithDefaults(r).(query := trim(r.query));
            Normalize(e, trim, r) == if Allowed(e, full) then Some(full) else None
  {
    var full := WithDefaults(r).(query := trim(r.query));
    FiltersExactly(e, r.filters);
    FacetsExactly(e.schema, r.facets);
    SortsExactly(e.schema, r.sort);
    if Allowed(e, full) {
      assert NormalSorts(e.schema, r.sort) == full.sort;
    }
  }

  lemma FiltersExactly(e: Engine, filters: seq<Filter>)
    ensures ValidFilters(e.lib, e.schema, filters) <==>
              forall i :: 0 <= i < |filters| ==> FilterAllowed(e.lib, e.schema, filters[i])
  {
    forall i | 0 <= i < |filters| && filters[i].field in e.schema
      ensures ValidFilter(e.lib, e.schema[filters[i].field], filters[i]) <==>
                Askable(e.lib, e.schema[filters[i].field], filters[i])
    {
      AskableExactly(e.lib, e.schema[filters[i].field], filters[i]);
    }
  }

  lemma FacetsExactly(schema: Schema, facets: seq<FacetRequest>)
    ensures FacetsAllowed(schema, facets) <==>
              AllFacetsAllowed(schema, FacetsWithDefaults(facets)) && DistinctFacets(FacetsWithDefaults(facets))
    ensures FacetsAllowed(schema, facets) ==> NormalFacets(schema, facets) == FacetsWithDefaults(facets)
  {
    var full := FacetsWithDefaults(facets);
    if AllFacetsAllowed(schema, full) {
      forall i | 0 <= i < |facets| ensures NormalFacet(schema, facets[i]) == Some(full[i]) {
        assert FacetAllowed(schema, full[i]);
      }
    }
    if forall i :: 0 <= i < |facets| ==> NormalFacet(schema, facets[i]).Some? {
      forall i | 0 <= i < |full| ensures FacetAllowed(schema, full[i]) {
        assert NormalFacet(schema, facets[i]).Some?;
      }
    }
    SameFields(facets);
  }

  lemma SameFields(facets: seq<FacetRequest>)
    ensures DistinctFacets(FacetsWithDefaults(facets)) <==> DistinctFacets(facets)
  {
    var full := FacetsWithDefaults(facets);
    forall i | 0 <= i < |facets| ensures full[i].field == facets[i].field {
    }
  }

  lemma SortsExactly(schema: Schema, sorts: seq<Sort>)
    ensures var full := SortsWithDefaults(sorts);
            && (SortsAllowed(schema, sorts) <==> forall i :: 0 <= i < |full| ==> SortAllowed(schema, full[i]))
            && (SortsAllowed(schema, sorts) ==> NormalSorts(schema, sorts) == full)
  {
    var full := SortsWithDefaults(sorts);
    if forall i :: 0 <= i < |full| ==> SortAllowed(schema, full[i]) {
      forall i | 0 <= i < |sorts| ensures NormalSort(schema, sorts[i]) == Some(full[i]) {
        assert SortAllowed(schema, full[i]);
      }
    }
    if SortsAllowed(schema, sorts) {
      forall i | 0 <= i < |full| ensures SortAllowed(schema, full[i]) && NormalSorts(schema, sorts)[i] == full[i] {
        assert NormalSort(schema, sorts[i]).Some?;
      }
    }
  }

  /** What the client leaves empty might as well be written out. */
  lemma DefaultsAreWritten(e: Engine, trim: string -> string, r: SearchRequest)
    ensures Normalize(e, trim, WithDefaults(r)) == Normalize(e, trim, r)
  {
    NormalizeExactly(e, trim, r);
    NormalizeExactly(e, trim, WithDefaults(r));
    assert WithDefaults(WithDefaults(r)).facets == WithDefaults(r).facets;
    assert WithDefaults(WithDefaults(r)).sort == WithDefaults(r).sort;
  }
}
