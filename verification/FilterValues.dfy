/**
 * What a filter asks of a document, in terms of the values themselves: the
 * in-memory evaluator accepts exactly the documents that meet it.
 */
module FilterValues {
  import opened Options
  import opened SearchModel
  import opened SqlConditions
  import opened SearchCompiler

  /** One value of the attribute is x; dates are equal when their instants are. */
  ghost predicate HasValue(lib: Library, d: Definition, v: Value, x: Value) {
    exists w :: (w == v || (v.Arr? && w in v.items)) && Same(lib, d, w, x)
  }

  ghost predicate Same(lib: Library, d: Definition, w: Value, x: Value) {
    if d.kind.DateType? then w.Str? && x.Str? && lib.instant(w.s) == lib.instant(x.s) else w == x
  }

  /** The number, text or instant of x is before that of y. A null reads as zero, or as its printed form. */
  ghost predicate Less(lib: Library, d: Definition, x: Value, y: Value) {
    var s, t := if x.Str? then x.s else "<nil>", if y.Str? then y.s else "<nil>";
    match d.kind
    case IntegerType => (if x.Num? then x.n else 0.0) < (if y.Num? then y.n else 0.0)
    case DecimalType => (if x.Num? then x.n else 0.0) < (if y.Num? then y.n else 0.0)
    case DateType => lib.instant(s) < lib.instant(t)
    case _ => TextBefore(s, t)
  }

  /** Some text of the attribute contains the text asked for. */
  ghost predicate Mentions(search: TextSearch, v: Value, text: string) {
    exists s :: (v == Str(s) || (v.Arr? && Str(s) in v.items)) && search(s, text)
  }

  ghost predicate HasOne(lib: Library, d: Definition, v: Value, candidates: Value) {
    candidates.Arr? && exists x :: x in candidates.items && HasValue(lib, d, v, x)
  }

  /** A document with this value of the attribute, or without one, is what the filter asks for. */
  ghost predicate Meets(lib: Library, search: TextSearch, d: Definition, v: Option<Value>, f: Filter) {
    match f.op
    case Exists => v.Some? <==> f.value != Bool(false)
    case Eq => v.Some? && HasValue(lib, d, v.value, f.value)
    case Neq => v.Some? ==> !HasValue(lib, d, v.value, f.value)
    case In => v.Some? && HasOne(lib, d, v.value, f.value)
    case NotIn => v.Some? ==> !HasOne(lib, d, v.value, f.value)
    case Gt => v.Some? && Less(lib, d, f.value, v.value)
    case Gte => v.Some? && !Less(lib, d, v.value, f.value)
    case Lt => v.Some? && Less(lib, d, v.value, f.value)
    case Lte => v.Some? && !Less(lib, d, f.value, v.value)
    case Between =>
      && v.Some? && f.value.Arr? && |f.value.items| == 2
      && !Less(lib, d, v.value, f.value.items[0]) && !Less(lib, d, f.value.items[1], v.value)
    case ContainsText => v.Some? && f.value.Str? && Mentions(search, v.value, f.value.s)
  }

  lemma SameExactly(lib: Library, d: Definition, w: Value, x: Value)
    requires ValidScalar(lib, d, w) && ValidScalar(lib, d, x)
    ensures CompareValue(lib, d, w, x) == 0 <==> Same(lib, d, w, x)
  {
    if !d.kind.DateType? {
      KeyIsValue(lib, d, w, x);
    }
  }

  lemma HasValueExactly(lib: Library, d: Definition, v: Value, x: Value)
    requires ValidAttribute(lib, d, v) && ValidScalar(lib, d, x)
    ensures AnyEqual(lib, d, AttributeValues(v), [x]) <==> HasValue(lib, d, v, x)
  {
    var values := AttributeValues(v);
    forall i | 0 <= i < |values| ensures CompareValue(lib, d, values[i], x) == 0 <==> Same(lib, d, values[i], x) {
      SameExactly(lib, d, values[i], x);
    }
    if HasValue(lib, d, v, x) {
      var w :| (w == v || (v.Arr? && w in v.items)) && Same(lib, d, w, x);
      assert w in values;
      var i :| 0 <= i < |values| && values[i] == w;
      assert CompareValue(lib, d, values[i], [x][0]) == 0;
    }
    if AnyEqual(lib, d, values, [x]) {
      var i, j :| 0 <= i < |values| && 0 <= j < 1 && CompareValue(lib, d, values[i], [x][j]) == 0;
      assert Same(lib, d, values[i], x);
    }
  }

  lemma HasOneExactly(lib: Library, d: Definition, v: Value, candidates: Value)
    requires ValidAttribute(lib, d, v) && candidates.Arr?
    requires forall i :: 0 <= i < |candidates.items| ==> ValidScalar(lib, d, candidates.items[i])
    ensures AnyEqual(lib, d, AttributeValues(v), candidates.items) <==> HasOne(lib, d, v, candidates)
  {
    var values, xs := AttributeValues(v), candidates.items;
    forall j | 0 <= j < |xs| ensures AnyEqual(lib, d, values, [xs[j]]) <==> HasValue(lib, d, v, xs[j]) {
      HasValueExactly(lib, d, v, xs[j]);
    }
    if AnyEqual(lib, d, values, xs) {
      var i, j :| 0 <= i < |values| && 0 <= j < |xs| && CompareValue(lib, d, values[i], xs[j]) == 0;
      assert CompareValue(lib, d, values[i], [xs[j]][0]) == 0;
    }
    if HasOne(lib, d, v, candidates) {
      var x :| x in xs && HasValue(lib, d, v, x);
      var j :| 0 <= j < |xs| && xs[j] == x;
      var i, k :| 0 <= i < |values| && 0 <= k < 1 && CompareValue(lib, d, values[i], [x][k]) == 0;
      assert CompareValue(lib, d, values[i], xs[j]) == 0;
    }
  }

  /** Values that a range filter may compare: a scalar or null. */
  lemma LessExactly(lib: Library, d: Definition, x: Value, y: Value)
    requires !d.kind.BooleanType? && (x.Null? || ValidScalar(lib, d, x)) && (y.Null? || ValidScalar(lib, d, y))
    ensures CompareValue(lib, d, x, y) < 0 <==> Less(lib, d, x, y)
    ensures CompareValue(lib, d, x, y) > 0 <==> Less(lib, d, y, x)
  {
    KeysMean(KeyOf(lib, d, x), KeyOf(lib, d, y));
    KeysMean(KeyOf(lib, d, y), KeyOf(lib, d, x));
    ValueOrder(lib, d, x, y, x);
  }

  /** The in-memory evaluator accepts exactly what meets the filter. */
  lemma AcceptsExactly(lib: Library, search: TextSearch, d: Definition, v: Option<Value>, f: Filter)
    requires ValidFilter(lib, d, f) && (v.Some? ==> ValidAttribute(lib, d, v.value))
    ensures MatchFilter(lib, search, d, v, f) <==> Meets(lib, search, d, v, f)
  {
    if v.Some? && !f.op.Exists? {
      if f.op.Eq? || f.op.Neq? {
        HasValueExactly(lib, d, v.value, f.value);
      } else if f.op.In? || f.op.NotIn? {
        HasOneExactly(lib, d, v.value, f.value);
      } else if f.op.ContainsText? {
        MentionsExactly(lib, search, d, v.value, f.value.s);
      } else if f.op.Between? {
        LessExactly(lib, d, v.value, f.value.items[0]);
        LessExactly(lib, d, v.value, f.value.items[1]);
      } else {
        LessExactly(lib, d, v.value, f.value);
      }
    }
  }

  lemma MentionsExactly(lib: Library, search: TextSearch, d: Definition, v: Value, text: string)
    requires d.kind.StringType? && ValidAttribute(lib, d, v)
    ensures (exists i :: 0 <= i < |AttributeValues(v)| && search(Sprint(lib, AttributeValues(v)[i]), text)) <==>
            Mentions(search, v, text)
  {
    var values := AttributeValues(v);
    if s :| (v == Str(s) || (v.Arr? && Str(s) in v.items)) && search(s, text) {
      assert Str(s) in values;
      var i :| 0 <= i < |values| && values[i] == Str(s);
      assert Sprint(lib, values[i]) == s;
    }
    if i :| 0 <= i < |values| && search(Sprint(lib, values[i]), text) {
      assert values[i].Str?;
      assert search(values[i].s, text);
    }
  }

  /** All filters of a list are met. */
  ghost predicate AllMet(lib: Library, search: TextSearch, schema: Schema, doc: Document,
                         filters: seq<SearchModel.Filter>) {
    forall i :: 0 <= i < |filters| ==>
      Meets(lib, search, DefinitionOf(schema, filters[i].field), Lookup(doc, filters[i].field), filters[i])
  }

  lemma AllMetExactly(lib: Library, search: TextSearch, schema: Schema, doc: Document,
                      filters: seq<SearchModel.Filter>)
    requires ValidFilters(lib, schema, filters) && ValidDocument(lib, schema, doc, true)
    ensures MatchFilters(lib, search, schema, doc, filters) <==> AllMet(lib, search, schema, doc, filters)
  {
    forall i | 0 <= i < |filters|
      ensures Matches(lib, search, schema, doc, filters[i]) <==>
                Meets(lib, search, DefinitionOf(schema, filters[i].field), Lookup(doc, filters[i].field), filters[i])
    {
      var f := filters[i];
      AcceptsExactly(lib, search, schema[f.field], Lookup(doc, f.field), f);
    }
  }

  /** The compiled clause is true of exactly the rows of the resource that meet the filters, no range on a null. */
  lemma WhereMeets(lib: Library, search: TextSearch, out: Outside, schema: Schema, resource: string, query: string,
                   filters: seq<SearchModel.Filter>, row: Row)
    requires Comparable(lib, schema, row.doc, filters)
    ensures var (cs, args) := CompileWhere(lib, schema, resource, query, filters);
            EvalAll(out, cs, args, row) == True <==>
              && row.resource == resource
              && (query != "" ==> out(FullText(2), args, row) == True)
              && AllMet(lib, search, schema, row.doc, filters)
              && forall f <- filters :: IsRange(f.op) && f.field in row.doc ==> row.doc[f.field] != Null
  {
    WhereMeaning(lib, search, out, schema, resource, query, filters, row);
    AllMetExactly(lib, search, schema, row.doc, filters);
  }

  // ---- which filters may be asked ------------------------------------------------------------

  function Whole(k: int): Value {
    Num(k as real)
  }

  /** A value of the attribute's kind. */
  ghost predicate OfKind(lib: Library, d: Definition, v: Value) {
    match d.kind
    case StringType => exists s :: v == Str(s)
    case IntegerType => exists k: int :: v == Whole(k)
    case DecimalType => exists x :: v == Num(x)
    case BooleanType => v == Bool(true) || v == Bool(false)
    case DateType => exists s :: v == Str(s) && lib.validDate(s)
    case EnumType => exists s :: v == Str(s) && s in d.enumValues
  }

  lemma OfKindExactly(lib: Library, d: Definition, v: Value)
    ensures ValidScalar(lib, d, v) <==> OfKind(lib, d, v)
  {
    if v.Num? {
      assert v == Num(v.n);
      assert v.n == v.n.Floor as real ==> v == Whole(v.n.Floor);
    }
    if v.Str? {
      assert v == Str(v.s);
    }
  }

  ghost predicate AllOfKind(lib: Library, d: Definition, v: Value) {
    v.Arr? && forall x <- v.items :: OfKind(lib, d, x)
  }

  ghost predicate Ordered(d: Definition) {
    !d.multiValue && d.kind in {StringType, IntegerType, DecimalType, DateType}
  }

  /** What each operator takes. */
  ghost predicate Askable(lib: Library, d: Definition, f: Filter) {
    && d.filterable
    && match f.op
       case Exists => f.value == Null || f.value == Bool(true) || f.value == Bool(false)
       case Eq => OfKind(lib, d, f.value)
       case Neq => OfKind(lib, d, f.value)
       case In => AllOfKind(lib, d, f.value) && f.value.items != []
       case NotIn => AllOfKind(lib, d, f.value) && f.value.items != []
       case Between => Ordered(d) && AllOfKind(lib, d, f.value) && |f.value.items| == 2
       case ContainsText => d.kind.StringType? && OfKind(lib, d, f.value)
       case _ => Ordered(d) && OfKind(lib, d, f.value)
  }

  lemma AskableExactly(lib: Library, d: Definition, f: Filter)
    ensures ValidFilter(lib, d, f) <==> Askable(lib, d, f)
  {
    OfKindExactly(lib, d, f.value);
    if f.value.Arr? {
      forall i | 0 <= i < |f.value.items|
        ensures ValidScalar(lib, d, f.value.items[i]) <==> OfKind(lib, d, f.value.items[i])
      {
        OfKindExactly(lib, d, f.value.items[i]);
      }
    }
  }
}
