/** Facets: how many of the matching documents hold each value of an attribute. */
module SearchFacets {
  import opened SearchModel
  import opened Sorting
  import opened SearchOrder

  datatype FacetRequest = FacetRequest(field: string, mode: string, limit: int, sort: string, includeMissing: bool)

  datatype Bucket = Bucket(value: Value, count: nat)

  /** The buckets one document falls into; a document without values has the null bucket, when asked for. */
  function BucketValues(doc: Document, facet: FacetRequest): set<Value> {
    var values := AttributeValues(if facet.field in doc then doc[facet.field] else Null);
    var distinct := set v | v in values;
    if distinct == {} && facet.includeMissing then {Null} else distinct
  }

  ghost function Holders(docs: set<Scored>, facet: FacetRequest, v: Value): set<Scored> {
    set x | x in docs && v in BucketValues(x.attributes, facet)
  }

  ghost function AllValues(docs: set<Scored>, facet: FacetRequest): set<Value> {
    set x, v | x in docs && v in BucketValues(x.attributes, facet) :: v
  }

  /** Every value some document holds, with the exact number of its holders. */
  ghost predicate Tallies(docs: set<Scored>, facet: FacetRequest, counts: map<Value, nat>) {
    && counts.Keys == AllValues(docs, facet)
    && forall v <- counts.Keys :: counts[v] == |Holders(docs, facet, v)|
  }

  function BucketOrder(e: Engine, d: Definition, sort: string, a: Bucket, b: Bucket): int {
    if sort == "count" && a.count != b.count then (if b.count < a.count then -1 else 1)
    else CompareValue(e.lib, d, a.value, b.value)
  }

  /** The bucket of every value some document holds, with the exact number of its holders. */
  ghost function AllBuckets(docs: set<Scored>, facet: FacetRequest): set<Bucket> {
    set v | v in AllValues(docs, facet) :: Bucket(v, |Holders(docs, facet, v)|)
  }

  /** A list of exactly these buckets, each once. */
  ghost predicate ListsAll(members: set<Bucket>, all: seq<Bucket>) {
    NoDuplicates(all) && forall b :: b in all <==> b in members
  }

  /** A facet's answer: the first buckets, at most the limit, of an ordered list of all of them. */
  ghost predicate FacetOf(e: Engine, d: Definition, docs: set<Scored>, facet: FacetRequest, r: seq<Bucket>) {
    exists all :: ListsAll(AllBuckets(docs, facet), all) && FirstOf(e, d, facet, all, r)
  }

  ghost predicate FirstOf(e: Engine, d: Definition, facet: FacetRequest, all: seq<Bucket>, r: seq<Bucket>) {
    && InOrder(e, d, facet.sort, all)
    && r == if |all| > facet.limit >= 0 then all[..facet.limit] else all
  }

  ghost predicate InOrder(e: Engine, d: Definition, sort: string, all: seq<Bucket>) {
    forall i, j {:trigger Follows(e, d, sort, all, i, j)} :: 0 <= i < j < |all| ==> Follows(e, d, sort, all, i, j)
  }

  ghost predicate Follows(e: Engine, d: Definition, sort: string, all: seq<Bucket>, i: nat, j: nat)
    requires i < j < |all|
  {
    BucketOrder(e, d, sort, all[i], all[j]) <= 0
  }

  lemma BucketsOrder(e: Engine, d: Definition, sort: string)
    ensures Preorder((a: Bucket, b: Bucket) => BucketOrder(e, d, sort, a, b))
  {
    forall a: Bucket, b: Bucket, c: Bucket
      ensures BucketOrder(e, d, sort, a, b) <= 0 || BucketOrder(e, d, sort, b, a) <= 0
      ensures BucketOrder(e, d, sort, a, b) <= 0 && BucketOrder(e, d, sort, b, c) <= 0 ==>
          BucketOrder(e, d, sort, a, c) <= 0
    {
      ValueOrder(e.lib, d, a.value, b.value, c.value);
    }
  }

  // ---- counting -----------------------------------------------------------------------

  /** The counts once each of these values has one more holder. */
  ghost predicate Bumped(before: map<Value, nat>, values: set<Value>, counts: map<Value, nat>) {
    && counts.Keys == before.Keys + values
    && forall v <- counts.Keys :: counts[v] == (if v in before then before[v] else 0) + (if v in values then 1 else 0)
  }

  lemma AddsValues(docs: set<Scored>, facet: FacetRequest, x: Scored)
    ensures AllValues(docs + {x}, facet) == AllValues(docs, facet) + BucketValues(x.attributes, facet)
  {
  }

  lemma AddDocument(docs: set<Scored>, facet: FacetRequest, x: Scored, before: map<Value, nat>, counts: map<Value, nat>)
    requires x !in docs && Tallies(docs, facet, before) && Bumped(before, BucketValues(x.attributes, facet), counts)
    ensures Tallies(docs + {x}, facet, counts)
  {
    AddsValues(docs, facet, x);
    forall v | v in counts ensures counts[v] == |Holders(docs + {x}, facet, v)| {
      AddsHolder(docs, facet, x, v);
    }
  }

  lemma AddsHolder(docs: set<Scored>, facet: FacetRequest, x: Scored, v: Value)
    requires x !in docs
    ensures |Holders(docs + {x}, facet, v)|
         == |Holders(docs, facet, v)| + if v in BucketValues(x.attributes, facet) then 1 else 0
    ensures v !in AllValues(docs, facet) ==> Holders(docs, facet, v) == {}
  {
    var holders := Holders(docs, facet, v);
    assert Holders(docs + {x}, facet, v) == if v in BucketValues(x.attributes, facet) then holders + {x} else holders;
  }

  /** The values of one document, each once. */
  method UniqueAttributeValues(v: Value) returns (unique: set<Value>)
    ensures unique == set x | x in AttributeValues(v)
  {
    var values := AttributeValues(v);
    unique := {};
    for i := 0 to |values|
      invariant unique == set x | x in values[..i]
    {
      unique := unique + {values[i]};
      assert values[..i + 1] == values[..i] + [values[i]];
    }
    assert values[..|values|] == values;
  }

  /** The loop over one document's values. */
  method CountEach(all: set<Value>, before: map<Value, nat>) returns (counts: map<Value, nat>)
    ensures Bumped(before, all, counts)
  {
    counts := before;
    var values := all;
    while values != {}
      invariant values <= all && Bumped(before, all - values, counts)
      decreases values
    {
      var v :| v in values;
      counts := counts[v := (if v in counts then counts[v] else 0) + 1];
      values := values - {v};
    }
    assert all - values == all;
  }

  method CountValues(documents: seq<Scored>, facet: FacetRequest) returns (counts: map<Value, nat>)
    requires DistinctIds(documents)
    ensures Tallies(Members(documents), facet, counts)
  {
    counts := map[];
    for i := 0 to |documents|
      invariant Tallies(Members(documents[..i]), facet, counts)
    {
      NotYet(documents, i);
      var x := documents[i];
      var values := UniqueAttributeValues(if facet.field in x.attributes then x.attributes[facet.field] else Null);
      if values == {} && facet.includeMissing {
        values := {Null};
      }
      assert values == BucketValues(x.attributes, facet);
      ghost var before := counts;
      counts := CountEach(values, counts);
      AddDocument(Members(documents[..i]), facet, x, before, counts);
    }
    assert documents[..|documents|] == documents;
  }

  lemma NotYet(documents: seq<Scored>, i: nat)
    requires DistinctIds(documents) && i < |documents|
    ensures documents[i] !in Members(documents[..i])
    ensures Members(documents[..i + 1]) == Members(documents[..i]) + {documents[i]}
  {
    assert documents[..i + 1] == documents[..i] + [documents[i]];
  }

  /** The counts as a list, in the order a map is walked in: any order. */
  method ListBuckets(counts: map<Value, nat>) returns (buckets: seq<Bucket>)
    ensures NoDuplicates(buckets) && forall b :: b in buckets <==> b.value in counts && b.count == counts[b.value]
  {
    var left := counts.Keys;
    buckets := [];
    while left != {}
      invariant left <= counts.Keys && NoDuplicates(buckets)
      invariant forall b :: b in buckets <==> b.value in counts.Keys - left && b.count == counts[b.value]
      decreases left
    {
      var v :| v in left;
      var next := Bucket(v, counts[v]);
      assert next !in buckets;
      buckets := buckets + [next];
      left := left - {v};
    }
  }

  method AggregateFacet(e: Engine, documents: seq<Scored>, d: Definition, facet: FacetRequest) returns (r: seq<Bucket>)
    requires DistinctIds(documents) && facet.limit >= 0
    ensures FacetOf(e, d, Members(documents), facet, r)
  {
    var counts := CountValues(documents, facet);
    var buckets := ListBuckets(counts);
    BucketsOrder(e, d, facet.sort);
    var order := (a: Bucket, b: Bucket) => BucketOrder(e, d, facet.sort, a, b);
    var all := SortFunc(order, buckets);
    forall i, j | 0 <= i < j < |all| ensures Follows(e, d, facet.sort, all, i, j) {
      assert order(all[i], all[j]) <= 0;
    }
    Rearranged(buckets, all);
    r := all;
    if |all| > facet.limit {
      r := all[..facet.limit];
    }
    assert ListsAll(AllBuckets(Members(documents), facet), all) && FirstOf(e, d, facet, all, r);
  }

  // ---- what a facet's answer means -------------------------------------------------------

  /** A document counts for its value, for each of its values, or, having none, for the null bucket if asked. */
  lemma HoldersExactly(docs: set<Scored>, facet: FacetRequest, v: Value, x: Scored)
    ensures x in Holders(docs, facet, v) <==>
              && x in docs
              && var doc, f := x.attributes, facet.field;
                 if f in doc && doc[f].Arr? && doc[f].items != [] then v in doc[f].items
                 else if f in doc && !doc[f].Null? && !doc[f].Arr? then v == doc[f]
                 else facet.includeMissing && v == Null
  {
    var doc, f := x.attributes, facet.field;
    var values := AttributeValues(if f in doc then doc[f] else Null);
    var distinct := set w | w in values;
    if values != [] {
      assert values[0] in distinct;
    } else {
      assert distinct == {};
    }
  }

  /** Every bucket holds the exact count, and is non-empty. */
  lemma BucketsAreExact(e: Engine, d: Definition, docs: set<Scored>, facet: FacetRequest, r: seq<Bucket>, b: Bucket)
    requires FacetOf(e, d, docs, facet, r) && b in r
    ensures b.count == |Holders(docs, facet, b.value)| && exists x :: x in Holders(docs, facet, b.value)
  {
    var all: seq<Bucket> :| ListsAll(AllBuckets(docs, facet), all) && FirstOf(e, d, facet, all, r);
    assert b in all;
    var x :| x in docs && b.value in BucketValues(x.attributes, facet);
    assert x in Holders(docs, facet, b.value);
  }

  /**
   * Along a facet's answer counts never increase when it is sorted by count. Buckets of one count,
   * and all buckets when it is sorted by value, go by increasing number, instant, text or flag.
   */
  lemma BucketsInOrder(e: Engine, d: Definition, docs: set<Scored>, facet: FacetRequest, r: seq<Bucket>, i: nat, j: nat)
    requires FacetOf(e, d, docs, facet, r) && i < j < |r|
    ensures facet.sort == "count" ==> r[i].count >= r[j].count
    ensures facet.sort != "count" || r[i].count == r[j].count ==> NotAbove(e.lib, d.kind, r[i].value, r[j].value)
  {
    var all: seq<Bucket> :| ListsAll(AllBuckets(docs, facet), all) && FirstOf(e, d, facet, all, r);
    assert r[i] == all[i] && r[j] == all[j];
    assert Follows(e, d, facet.sort, all, i, j);
    var x, y := KeyOf(e.lib, d, r[i].value), KeyOf(e.lib, d, r[j].value);
    KeysMean(x, y);
    ValueOrder(e.lib, d, r[i].value, r[j].value, r[i].value);
    NotAboveUnless(e.lib, d, r[i].value, r[j].value);
  }

  /** A bucket left out by the limit holds no more documents than any bucket kept, when they are sorted by count. */
  lemma LargestAreKept(e: Engine, d: Definition, docs: set<Scored>, facet: FacetRequest, r: seq<Bucket>, v: Value,
      i: nat)
    requires FacetOf(e, d, docs, facet, r) && facet.sort == "count" && i < |r|
    requires v in AllValues(docs, facet) && forall b <- r :: b.value != v
    ensures |Holders(docs, facet, v)| <= r[i].count && |r| == facet.limit
  {
    var all: seq<Bucket> :| ListsAll(AllBuckets(docs, facet), all) && FirstOf(e, d, facet, all, r);
    var b := Bucket(v, |Holders(docs, facet, v)|);
    assert b in AllBuckets(docs, facet);
    LeftOutIsSmaller(e, d, facet, all, r, b, i);
  }

  lemma LeftOutIsSmaller(e: Engine, d: Definition, facet: FacetRequest, all: seq<Bucket>, r: seq<Bucket>, b: Bucket,
      i: nat)
    requires FirstOf(e, d, facet, all, r) && facet.sort == "count" && i < |r| && b in all && b !in r
    ensures |r| == facet.limit && b.count <= r[i].count
  {
    var j :| 0 <= j < |all| && all[j] == b;
    forall k | 0 <= k < |r| ensures all[k] != b {
      assert r[k] == all[k];
    }
    assert Follows(e, d, facet.sort, all, i, j);
  }

  lemma {:induction false} ListSize(members: set<Bucket>, all: seq<Bucket>)
    requires ListsAll(members, all)
    ensures |all| == |members|
  {
    if all != [] {
      assert all == [all[0]] + all[1..];
      ListSize(members - {all[0]}, all[1..]);
    }
  }

  ghost function SumOf(buckets: seq<Bucket>): nat {
    if buckets == [] then 0 else buckets[0].count + SumOf(buckets[1..])
  }

  /** The document's one bucket is among those of the list. */
  ghost predicate InOneOf(buckets: seq<Bucket>, doc: Document, facet: FacetRequest) {
    exists i {:trigger buckets[i]} :: 0 <= i < |buckets| && BucketValues(doc, facet) == {buckets[i].value}
  }

  /** Counting each document under its one value counts it once. */
  lemma {:induction false} SumOnce(docs: set<Scored>, facet: FacetRequest, buckets: seq<Bucket>)
    requires forall x <- docs :: InOneOf(buckets, x.attributes, facet)
    requires forall i, j :: 0 <= i < j < |buckets| ==> buckets[i].value != buckets[j].value
    requires forall b <- buckets :: b.count == |Holders(docs, facet, b.value)|
    ensures SumOf(buckets) == |docs|
  {
    if buckets == [] {
      assert docs == {};
    } else {
      var mine := Holders(docs, facet, buckets[0].value);
      var rest := docs - mine;
      forall x | x in rest ensures InOneOf(buckets[1..], x.attributes, facet) {
        var i :| 0 <= i < |buckets| && BucketValues(x.attributes, facet) == {buckets[i].value};
        assert buckets[1..][i - 1] == buckets[i];
      }
      forall b | b in buckets[1..] ensures b.count == |Holders(rest, facet, b.value)| {
        assert Holders(rest, facet, b.value) == Holders(docs, facet, b.value);
      }
      SumOnce(rest, facet, buckets[1..]);
    }
  }

  lemma OneBucket(doc: Document, facet: FacetRequest)
    requires facet.includeMissing && (facet.field in doc ==> !doc[facet.field].Arr?)
    ensures BucketValues(doc, facet) == {if facet.field in doc then doc[facet.field] else Null}
  {
    var v := if facet.field in doc then doc[facet.field] else Null;
    if !v.Null? {
      assert AttributeValues(v) == [v];
      assert v in BucketValues(doc, facet);
    } else {
      assert (set x | x in AttributeValues(v)) == {};
    }
  }

  /**
   * On a single-valued attribute, with missing values included, the counts of an
   * answer the limit did not cut sum to the number of matches.
   */
  lemma CountsSumToMatches(e: Engine, d: Definition, docs: set<Scored>, facet: FacetRequest, r: seq<Bucket>)
    requires FacetOf(e, d, docs, facet, r) && facet.includeMissing
    requires |AllBuckets(docs, facet)| <= facet.limit
    requires forall x <- docs :: facet.field in x.attributes ==> !x.attributes[facet.field].Arr?
    ensures SumOf(r) == |docs|
  {
    var all: seq<Bucket> :| ListsAll(AllBuckets(docs, facet), all) && FirstOf(e, d, facet, all, r);
    ListSize(AllBuckets(docs, facet), all);
    SumOfAll(docs, facet, all);
  }

  lemma SumOfAll(docs: set<Scored>, facet: FacetRequest, all: seq<Bucket>)
    requires ListsAll(AllBuckets(docs, facet), all) && facet.includeMissing
    requires forall x <- docs :: facet.field in x.attributes ==> !x.attributes[facet.field].Arr?
    ensures SumOf(all) == |docs|
  {
    forall x | x in docs ensures InOneOf(all, x.attributes, facet) {
      BucketListed(docs, facet, all, x);
    }
    forall b | b in all ensures b.count == |Holders(docs, facet, b.value)| {
      assert b in AllBuckets(docs, facet);
    }
    DistinctValues(docs, facet, all);
    SumOnce(docs, facet, all);
  }

  lemma BucketListed(docs: set<Scored>, facet: FacetRequest, all: seq<Bucket>, x: Scored)
    requires ListsAll(AllBuckets(docs, facet), all) && facet.includeMissing && x in docs
    requires facet.field in x.attributes ==> !x.attributes[facet.field].Arr?
    ensures InOneOf(all, x.attributes, facet)
  {
    var v := if facet.field in x.attributes then x.attributes[facet.field] else Null;
    OneBucket(x.attributes, facet);
    assert v in AllValues(docs, facet);
    var b := Bucket(v, |Holders(docs, facet, v)|);
    assert b in AllBuckets(docs, facet);
    var i :| 0 <= i < |all| && all[i] == b;
  }

  /** A bucket is told by its value. */
  lemma DistinctValues(docs: set<Scored>, facet: FacetRequest, all: seq<Bucket>)
    requires ListsAll(AllBuckets(docs, facet), all)
    ensures forall i, j :: 0 <= i < j < |all| ==> all[i].value != all[j].value
  {
    forall i, j | 0 <= i < j < |all| ensures all[i].value != all[j].value {
      assert all[i] in AllBuckets(docs, facet) && all[j] in AllBuckets(docs, facet);
    }
  }
}
