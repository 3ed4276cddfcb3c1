/**
 * The order of search results. The comparator of the in-memory backend is a
 * total order on documents with distinct identifiers, so the matches have one
 * arrangement, whatever order the map of documents is walked in.
 */
module SearchOrder {
  import opened Options
  import opened SearchModel
  import opened Sorting

  /** The library, and the schema of the searched resource. */
  datatype Engine = Engine(lib: Library, search: TextSearch, schema: Schema)

  datatype Scored = Scored(id: string, attributes: Document, score: nat)

  datatype Sort = Sort(field: string, direction: string)

  function Present(doc: Document, field: string): Option<Value> {
    if field in doc && !doc[field].Null? then Some(doc[field]) else None
  }

  /** One sort key: missing values come last in both directions. */
  function CompareField(e: Engine, sort: Sort, a: Document, b: Document): (c: int)
    ensures c in {-1, 0, 1}
  {
    var left, right := Present(a, sort.field), Present(b, sort.field);
    if left.Some? != right.Some? then (if left.Some? then -1 else 1)
    else
      var x := if left.Some? then left.value else Null;
      var y := if right.Some? then right.value else Null;
      var c := CompareValue(e.lib, DefinitionOf(e.schema, sort.field), x, y);
      if sort.direction == "asc" then c else -c
  }

  /** The first sort key that tells the documents apart decides. */
  function CompareFields(e: Engine, sorts: seq<Sort>, a: Document, b: Document): (c: int)
    ensures c in {-1, 0, 1}
  {
    if sorts == [] then 0
    else
      var c := CompareField(e, sorts[0], a, b);
      if c != 0 then c else CompareFields(e, sorts[1..], a, b)
  }

  /** Without sort keys the higher score comes first; the identifier breaks the last tie. */
  function Compare(e: Engine, sorts: seq<Sort>, a: Scored, b: Scored): (c: int)
    ensures c in {-1, 0, 1}
  {
    var c := CompareFields(e, sorts, a.attributes, b.attributes);
    if c != 0 then c
    else if sorts == [] && a.score != b.score then (if a.score > b.score then -1 else 1)
    else CompareText(a.id, b.id)
  }

  /** The comparator's loop over the sort keys, leaving at the first difference. */
  method CompareDocuments(e: Engine, sorts: seq<Sort>, left: Scored, right: Scored) returns (c: int)
    ensures c == Compare(e, sorts, left, right)
  {
    var i := 0;
    while i < |sorts|
      invariant i <= |sorts|
      invariant CompareFields(e, sorts, left.attributes, right.attributes)
             == CompareFields(e, sorts[i..], left.attributes, right.attributes)
    {
      var field := sorts[i].field;
      var leftValue := if field in left.attributes then left.attributes[field] else Null;
      var rightValue := if field in right.attributes then right.attributes[field] else Null;
      var leftExists := field in left.attributes && leftValue != Null;
      var rightExists := field in right.attributes && rightValue != Null;
      assert sorts[i..][0] == sorts[i] && sorts[i..][1..] == sorts[i + 1..];
      if leftExists != rightExists {
        return if leftExists then -1 else 1;
      }
      var comparison := CompareValue(e.lib, DefinitionOf(e.schema, field), leftValue, rightValue);
      if comparison != 0 {
        return if sorts[i].direction == "asc" then comparison else -comparison;
      }
      i := i + 1;
    }
    assert sorts[i..] == [];
    if |sorts| == 0 && left.score != right.score {
      return if left.score > right.score then -1 else 1;
    }
    c := CompareText(left.id, right.id);
  }

  lemma FieldOrder(e: Engine, sort: Sort, a: Document, b: Document, c: Document)
    ensures CompareField(e, sort, a, b) == -CompareField(e, sort, b, a)
    ensures CompareField(e, sort, a, b) <= 0 && CompareField(e, sort, b, c) <= 0 ==> CompareField(e, sort, a, c) <= 0
  {
    var d := DefinitionOf(e.schema, sort.field);
    var x, y, z := Present(a, sort.field), Present(b, sort.field), Present(c, sort.field);
    if x.Some? && y.Some? && z.Some? {
      ValueOrder(e.lib, d, x.value, y.value, z.value);
      ValueOrder(e.lib, d, z.value, y.value, x.value);
      ValueOrder(e.lib, d, x.value, z.value, y.value);
    } else if x.Some? && y.Some? {
      ValueOrder(e.lib, d, x.value, y.value, x.value);
    }
    ValueOrder(e.lib, d, Null, Null, Null);
  }

  lemma {:induction false} FieldsOrder(e: Engine, sorts: seq<Sort>, a: Document, b: Document, c: Document)
    ensures CompareFields(e, sorts, a, b) == -CompareFields(e, sorts, b, a)
    ensures CompareFields(e, sorts, a, b) <= 0 && CompareFields(e, sorts, b, c) <= 0 ==>
        CompareFields(e, sorts, a, c) <= 0
  {
    if sorts != [] {
      FieldOrder(e, sorts[0], a, b, c);
      FieldOrder(e, sorts[0], b, c, a);
      FieldOrder(e, sorts[0], c, a, b);
      FieldsOrder(e, sorts[1..], a, b, c);
    }
  }

  /** The comparator is antisymmetric and transitive, and ties only documents with one identifier. */
  lemma TotalOrder(e: Engine, sorts: seq<Sort>, a: Scored, b: Scored, c: Scored)
    ensures Compare(e, sorts, a, b) == -Compare(e, sorts, b, a)
    ensures Compare(e, sorts, a, b) <= 0 && Compare(e, sorts, b, c) <= 0 ==> Compare(e, sorts, a, c) <= 0
    ensures Compare(e, sorts, a, b) == 0 ==> a.id == b.id
    ensures Compare(e, sorts, a, a) == 0
  {
    FieldsOrder(e, sorts, a.attributes, b.attributes, c.attributes);
    FieldsOrder(e, sorts, b.attributes, c.attributes, a.attributes);
    FieldsOrder(e, sorts, c.attributes, a.attributes, b.attributes);
    FieldsOrder(e, sorts, a.attributes, a.attributes, a.attributes);
    TextOrder(a.id, b.id, c.id);
    TextOrder(b.id, c.id, a.id);
    TextOrder(a.id, a.id, a.id);
  }

  /** Each document strictly precedes all later ones. */
  ghost predicate Ranked(e: Engine, sorts: seq<Sort>, s: seq<Scored>) {
    forall i, j :: 0 <= i < j < |s| ==> Compare(e, sorts, s[i], s[j]) < 0
  }

  ghost predicate SameMembers(s: seq<Scored>, t: seq<Scored>) {
    forall x :: x in s <==> x in t
  }

  lemma HeadsAgree(e: Engine, sorts: seq<Sort>, s: seq<Scored>, t: seq<Scored>)
    requires Ranked(e, sorts, s) && Ranked(e, sorts, t) && SameMembers(s, t) && s != []
    ensures t != [] && s[0] == t[0] && SameMembers(s[1..], t[1..])
  {
    assert s[0] in t;
    assert t[0] in s;
    var i :| 0 <= i < |t| && t[i] == s[0];
    var j :| 0 <= j < |s| && s[j] == t[0];
    TotalOrder(e, sorts, s[0], t[0], s[0]);
    assert i == 0;
    forall x ensures x in s[1..] <==> x in t[1..] {
      TotalOrder(e, sorts, s[0], s[0], s[0]);
      assert x in s[1..] <==> x in s && x != s[0] by { RestOf(e, sorts, s, x); }
      assert x in t[1..] <==> x in t && x != t[0] by { RestOf(e, sorts, t, x); }
    }
  }

  lemma RestOf(e: Engine, sorts: seq<Sort>, s: seq<Scored>, x: Scored)
    requires Ranked(e, sorts, s) && s != []
    ensures x in s[1..] <==> x in s && x != s[0]
  {
    TotalOrder(e, sorts, s[0], s[0], s[0]);
    assert s == [s[0]] + s[1..];
    forall i | 0 <= i < |s| - 1 ensures s[1..][i] != s[0] {
      assert s[1..][i] == s[i + 1];
    }
  }

  /** Only one arrangement of the same documents is ranked. */
  lemma {:induction false} RankingIsUnique(e: Engine, sorts: seq<Sort>, s: seq<Scored>, t: seq<Scored>)
    requires Ranked(e, sorts, s) && Ranked(e, sorts, t) && SameMembers(s, t)
    ensures s == t
  {
    assert |t| > 0 ==> t[0] in s;
    if s != [] {
      HeadsAgree(e, sorts, s, t);
      RankingIsUnique(e, sorts, s[1..], t[1..]);
      assert s == [s[0]] + s[1..] && t == [t[0]] + t[1..];
    }
  }

  // ---- what the order means -----------------------------------------------------------

  ghost predicate HasValue(doc: Document, field: string) {
    field in doc && doc[field] != Null
  }

  ghost function KeyIn(e: Engine, sort: Sort, doc: Document): Key
    requires HasValue(doc, sort.field)
  {
    KeyOf(e.lib, DefinitionOf(e.schema, sort.field), doc[sort.field])
  }

  /** By this sort key a comes first: only it has a value, or its value is below, or above if not ascending. */
  ghost predicate PrecedesBy(e: Engine, sort: Sort, a: Document, b: Document) {
    && HasValue(a, sort.field)
    && (HasValue(b, sort.field) ==>
          var x, y := KeyIn(e, sort, a), KeyIn(e, sort, b);
          if sort.direction == "asc" then Below(x, y) else Below(y, x))
  }

  ghost predicate AlikeBy(e: Engine, sort: Sort, a: Document, b: Document) {
    && (HasValue(a, sort.field) <==> HasValue(b, sort.field))
    && (HasValue(a, sort.field) ==> KeyIn(e, sort, a) == KeyIn(e, sort, b))
  }

  /** Alike by the first k sort keys, and the next one puts a first, or the score, or the identifier. */
  ghost predicate PrecedesAt(e: Engine, sorts: seq<Sort>, a: Scored, b: Scored, k: nat) {
    && k <= |sorts| && (forall m :: 0 <= m < k ==> AlikeBy(e, sorts[m], a.attributes, b.attributes))
    && (if k < |sorts| then PrecedesBy(e, sorts[k], a.attributes, b.attributes)
        else if sorts == [] && a.score != b.score then a.score > b.score
        else TextBefore(a.id, b.id))
  }

  ghost predicate AlikeByAll(e: Engine, sorts: seq<Sort>, a: Scored, b: Scored) {
    && (forall m :: 0 <= m < |sorts| ==> AlikeBy(e, sorts[m], a.attributes, b.attributes))
    && (sorts == [] ==> a.score == b.score)
  }

  ghost predicate Precedes(e: Engine, sorts: seq<Sort>, a: Scored, b: Scored) {
    exists k: nat :: PrecedesAt(e, sorts, a, b, k)
  }

  lemma FieldMeans(e: Engine, sort: Sort, a: Document, b: Document)
    ensures CompareField(e, sort, a, b) < 0 <==> PrecedesBy(e, sort, a, b)
    ensures CompareField(e, sort, a, b) == 0 <==> AlikeBy(e, sort, a, b)
  {
    if HasValue(a, sort.field) && HasValue(b, sort.field) {
      var x, y := KeyIn(e, sort, a), KeyIn(e, sort, b);
      KeysMean(x, y);
      KeysMean(y, x);
      ValueOrder(e.lib, DefinitionOf(e.schema, sort.field), a[sort.field], b[sort.field], a[sort.field]);
    } else {
      ValueOrder(e.lib, DefinitionOf(e.schema, sort.field), Null, Null, Null);
    }
  }

  /** The comparator puts a first exactly when attributes, scores and identifiers do. */
  lemma PrecedesExactly(e: Engine, sorts: seq<Sort>, a: Scored, b: Scored)
    ensures Compare(e, sorts, a, b) < 0 <==> Precedes(e, sorts, a, b)
  {
    var k := Deciding(e, sorts, a.attributes, b.attributes);
    TextBeforeExactly(a.id, b.id);
    if k < |sorts| {
      FieldMeans(e, sorts[k], a.attributes, b.attributes);
    }
    assert Compare(e, sorts, a, b) < 0 <==> PrecedesAt(e, sorts, a, b, k);
    forall l: nat | PrecedesAt(e, sorts, a, b, l) ensures l == k {
      if l < k {
        FieldMeans(e, sorts[l], a.attributes, b.attributes);
      }
    }
  }

  /** The first sort key that tells the documents apart, if there is one. */
  lemma {:induction false} Deciding(e: Engine, sorts: seq<Sort>, a: Document, b: Document) returns (k: nat)
    ensures k <= |sorts| && forall m :: 0 <= m < k ==> AlikeBy(e, sorts[m], a, b)
    ensures CompareFields(e, sorts, a, b) == if k < |sorts| then CompareField(e, sorts[k], a, b) else 0
    ensures k < |sorts| ==> !AlikeBy(e, sorts[k], a, b)
  {
    if sorts == [] {
      k := 0;
    } else {
      FieldMeans(e, sorts[0], a, b);
      if CompareField(e, sorts[0], a, b) != 0 {
        k := 0;
      } else {
        var l := Deciding(e, sorts[1..], a, b);
        k := l + 1;
        forall m | 0 <= m < k ensures AlikeBy(e, sorts[m], a, b) {
          assert m > 0 ==> sorts[m] == sorts[1..][m - 1];
        }
      }
    }
  }

  /** A list is ranked exactly when attributes, scores and identifiers put each document before all later ones. */
  lemma RankedExactly(e: Engine, sorts: seq<Sort>, s: seq<Scored>)
    ensures Ranked(e, sorts, s) <==> forall i, j :: 0 <= i < j < |s| ==> Precedes(e, sorts, s[i], s[j])
  {
    forall i, j | 0 <= i < j < |s| ensures Compare(e, sorts, s[i], s[j]) < 0 <==> Precedes(e, sorts, s[i], s[j]) {
      PrecedesExactly(e, sorts, s[i], s[j]);
    }
  }

  /**
   * Along a ranked list, by the first sort key: documents with a value come before those without;
   * numbers, texts, instants and flags never decrease if it is ascending, and never increase otherwise.
   */
  lemma FirstKeyOrders(e: Engine, sorts: seq<Sort>, s: seq<Scored>, i: nat, j: nat)
    requires Ranked(e, sorts, s) && i < j < |s| && sorts != [] && sorts[0].field in e.schema
    ensures var f, kind := sorts[0].field, e.schema[sorts[0].field].kind;
            var a, b := s[i].attributes, s[j].attributes;
            && (HasValue(b, f) ==> HasValue(a, f))
            && (HasValue(a, f) && HasValue(b, f) ==>
                  if sorts[0].direction == "asc" then NotAbove(e.lib, kind, a[f], b[f])
                  else NotAbove(e.lib, kind, b[f], a[f]))
  {
    PrecedesExactly(e, sorts, s[i], s[j]);
    var k: nat :| PrecedesAt(e, sorts, s[i], s[j], k);
    var f, a, b := sorts[0].field, s[i].attributes, s[j].attributes;
    if HasValue(a, f) && HasValue(b, f) {
      NotAboveUnless(e.lib, e.schema[f], a[f], b[f]);
      NotAboveUnless(e.lib, e.schema[f], b[f], a[f]);
    }
  }

  /** Values of the attribute's kind in order: numbers, instants, texts, or false before true. */
  ghost predicate NotAbove(lib: Library, kind: AttributeType, x: Value, y: Value) {
    && (Numeric(kind) && x.Num? && y.Num? ==> x.n <= y.n)
    && (kind.DateType? && x.Str? && y.Str? ==> lib.instant(x.s) <= lib.instant(y.s))
    && ((kind.StringType? || kind.EnumType?) && x.Str? && y.Str? ==> !TextBefore(y.s, x.s))
    && (kind.BooleanType? && x.Bool? && y.Bool? ==> (x.b ==> y.b))
  }

  lemma NotAboveUnless(lib: Library, d: Definition, x: Value, y: Value)
    ensures KeyOf(lib, d, x) == KeyOf(lib, d, y) || Below(KeyOf(lib, d, x), KeyOf(lib, d, y)) ==>
              NotAbove(lib, d.kind, x, y)
  {
    KeysMean(KeyOf(lib, d, x), KeyOf(lib, d, y));
    KeysMean(KeyOf(lib, d, y), KeyOf(lib, d, x));
    ValueOrder(lib, d, x, y, x);
    if d.kind.BooleanType? && x.Bool? && y.Bool? && x.b && !y.b {
      assert !DiffersAt("true", "false", 0);
      assert "true"[0] > "false"[0];
    }
  }

  /** Without sort keys the score never increases, and equal scores and equal keys go by increasing identifier. */
  lemma LastKeysOrder(e: Engine, sorts: seq<Sort>, s: seq<Scored>, i: nat, j: nat)
    requires Ranked(e, sorts, s) && i < j < |s|
    ensures sorts == [] ==> s[i].score >= s[j].score
    ensures AlikeByAll(e, sorts, s[i], s[j]) ==> TextBefore(s[i].id, s[j].id)
  {
    PrecedesExactly(e, sorts, s[i], s[j]);
    var k: nat :| PrecedesAt(e, sorts, s[i], s[j], k);
    if k < |sorts| {
      FieldMeans(e, sorts[k], s[i].attributes, s[j].attributes);
    }
  }

  // ---- sorting ---------------------------------------------------------------------

  ghost predicate DistinctIds(s: seq<Scored>) {
    forall i, j :: 0 <= i < j < |s| ==> s[i].id != s[j].id
  }

  ghost function Members(s: seq<Scored>): set<Scored> {
    set x | x in s
  }

  ghost predicate Lists(s: seq<Scored>, members: set<Scored>) {
    forall x :: x in s <==> x in members
  }

  lemma ComparatorOrders(e: Engine, sorts: seq<Sort>)
    ensures Preorder((a: Scored, b: Scored) => Compare(e, sorts, a, b))
  {
    forall a: Scored, b: Scored, c: Scored
      ensures Compare(e, sorts, a, b) <= 0 || Compare(e, sorts, b, a) <= 0
      ensures Compare(e, sorts, a, b) <= 0 && Compare(e, sorts, b, c) <= 0 ==> Compare(e, sorts, a, c) <= 0
    {
      TotalOrder(e, sorts, a, b, c);
    }
  }

  /** SortStableFunc with the comparator. */
  method SortDocuments(e: Engine, sorts: seq<Sort>, documents: seq<Scored>) returns (r: seq<Scored>)
    requires DistinctIds(documents)
    ensures Ranked(e, sorts, r) && SameMembers(r, documents) && |r| == |documents|
    ensures forall i, j :: 0 <= i < j < |r| ==> Precedes(e, sorts, r[i], r[j])
  {
    var order := (a: Scored, b: Scored) => Compare(e, sorts, a, b);
    ComparatorOrders(e, sorts);
    r := SortFunc(order, documents);
    OrderedIsRanked(e, sorts, documents, r);
    RankedExactly(e, sorts, r);
  }

  lemma OrderedIsRanked(e: Engine, sorts: seq<Sort>, s: seq<Scored>, r: seq<Scored>)
    requires DistinctIds(s) && multiset(r) == multiset(s)
    requires Ordered((a: Scored, b: Scored) => Compare(e, sorts, a, b), r)
    ensures Ranked(e, sorts, r) && SameMembers(r, s) && |r| == |s|
  {
    Rearranged(s, r);
    var order := (a: Scored, b: Scored) => Compare(e, sorts, a, b);
    forall i, j | 0 <= i < j < |r| ensures Compare(e, sorts, r[i], r[j]) < 0 {
      assert order(r[i], r[j]) <= 0;
      TotalOrder(e, sorts, r[i], r[j], r[i]);
      assert r[i] in s && r[j] in s;
    }
  }

  /** Members with distinct identifiers, as a map gives them. */
  ghost predicate Keyed(members: set<Scored>) {
    forall x, y :: x in members && y in members && x.id == y.id ==> x == y
  }

  lemma CanList(members: set<Scored>) returns (s: seq<Scored>)
    requires Keyed(members)
    ensures Lists(s, members) && DistinctIds(s) && |s| == |members|
    decreases members
  {
    if members == {} {
      s := [];
    } else {
      var x :| x in members;
      var rest := CanList(members - {x});
      s := [x] + rest;
      forall j | 0 <= j < |rest| ensures rest[j].id != x.id {
        assert rest[j] in members - {x};
      }
    }
  }

  lemma CanRank(e: Engine, sorts: seq<Sort>, members: set<Scored>)
    requires Keyed(members)
    ensures exists s :: Ranked(e, sorts, s) && Lists(s, members) && |s| == |members|
  {
    var s := CanList(members);
    var order := (a: Scored, b: Scored) => Compare(e, sorts, a, b);
    ComparatorOrders(e, sorts);
    ArrangedOrdered(order, s);
    ArrangedHolds(order, s);
    OrderedIsRanked(e, sorts, s, Arranged(order, s));
  }

  /** The one ranked arrangement of a set of documents. */
  ghost function Ranking(e: Engine, sorts: seq<Sort>, members: set<Scored>): (s: seq<Scored>)
    requires Keyed(members)
    ensures Ranked(e, sorts, s) && Lists(s, members) && |s| == |members|
  {
    CanRank(e, sorts, members);
    var s :| Ranked(e, sorts, s) && Lists(s, members) && |s| == |members|;
    s
  }
}
