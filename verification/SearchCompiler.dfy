/**
 * The filter compiler: each filter becomes a condition over placeholders and
 * the arguments they stand for. Compilation preserves meaning: the condition is
 * true of a document exactly when the in-memory evaluator accepts it.
 */
module SearchCompiler {
  import opened Numbers
  import opened Options
  import opened SearchModel
  import opened SqlConditions

  function EqualityArg(d: Definition, field: string, value: Value): Arg {
    Payload(map[field := if d.multiValue then Arr([value]) else value])
  }

  function EqualityArgs(d: Definition, field: string, values: seq<Value>): (r: seq<Arg>)
    ensures |r| == |values| && forall i :: 0 <= i < |r| ==> r[i] == EqualityArg(d, field, values[i])
  {
    seq(|values|, i requires 0 <= i < |values| => EqualityArg(d, field, values[i]))
  }

  /** One containment test for each of k placeholders after the first n. */
  function EqualityConds(n: nat, k: nat): (r: seq<Cond>)
    ensures |r| == k && forall i :: 0 <= i < k ==> r[i] == ContainsJson(n + 1 + i)
  {
    seq(k, i requires 0 <= i < k => ContainsJson(n + 1 + i))
  }

  function ExprOf(d: Definition, key: nat): Expr {
    if Numeric(d.kind) then NumberOf(key) else if d.kind.DateType? then TimeOf(key) else TextOf(key)
  }

  function ComparisonOf(op: Operator): Comparison {
    match op
    case Gt => Greater
    case Gte => GreaterOrEqual
    case Lt => Less
    case _ => LessOrEqual
  }

  /** The condition for a filter when n arguments are bound already, and the arguments it binds. */
  function CompileFilter(lib: Library, d: Definition, f: Filter, n: nat): (Cond, seq<Arg>) {
    match f.op
    case Exists =>
      var c := HasKey(n + 1);
      (if f.value.Bool? && !f.value.b then Not(c) else c, [Name(f.field)])
    case Eq => (ContainsJson(n + 1), [EqualityArg(d, f.field, f.value)])
    case Neq => (Not(ContainsJson(n + 1)), [EqualityArg(d, f.field, f.value)])
    case In =>
      var values := SliceValues(f.value);
      (AnyOf(EqualityConds(n, |values|)), EqualityArgs(d, f.field, values))
    case NotIn =>
      var values := SliceValues(f.value);
      (Not(AnyOf(EqualityConds(n, |values|))), EqualityArgs(d, f.field, values))
    case ContainsText => (Like(n + 1, n + 2), [Name(f.field), Operand(Str(Sprint(lib, f.value)))])
    case Between =>
      var bounds := SliceValues(f.value);
      if |bounds| == 2 then
        (InBetween(ExprOf(d, n + 1), n + 2, n + 3), [Name(f.field), Operand(bounds[0]), Operand(bounds[1])])
      else (InBetween(ExprOf(d, n + 1), n + 2, n + 3), [Name(f.field)])
    case _ => (Compare(ExprOf(d, n + 1), ComparisonOf(f.op), n + 2), [Name(f.field), Operand(f.value)])
  }

  function CompileFilters(lib: Library, schema: Schema, filters: seq<Filter>, n: nat): (r: (seq<Cond>, seq<Arg>))
    requires forall i :: 0 <= i < |filters| ==> filters[i].field in schema
    ensures |r.0| == |filters|
  {
    if filters == [] then ([], [])
    else
      var (c, a) := CompileFilter(lib, schema[filters[0].field], filters[0], n);
      var (cs, more) := CompileFilters(lib, schema, filters[1..], n + |a|);
      ([c] + cs, a + more)
  }

  /** The whole WHERE clause of a search on one resource. */
  function CompileWhere(lib: Library, schema: Schema, resource: string, query: string,
      filters: seq<Filter>): (seq<Cond>, seq<Arg>)
    requires forall i :: 0 <= i < |filters| ==> filters[i].field in schema
  {
    var asked := query != "";
    var (cs, a) := CompileFilters(lib, schema, filters, if asked then 2 else 1);
    ([ResourceIs(1)] + (if asked then [FullText(2)] else []) + cs,
     [Name(resource)] + (if asked then [Name(query)] else []) + a)
  }

  /** What the filters from i on add to what is there, when filter i adds its part first. */
  lemma CompiledMore(lib: Library, schema: Schema, filters: seq<Filter>, i: nat, conditions: seq<Cond>, args: seq<Arg>,
                     allConditions: seq<Cond>, allArgs: seq<Arg>)
    requires i < |filters| && forall i :: 0 <= i < |filters| ==> filters[i].field in schema
    requires conditions + CompileFilters(lib, schema, filters[i..], |args|).0 == allConditions
    requires args + CompileFilters(lib, schema, filters[i..], |args|).1 == allArgs
    ensures var (c, a) := CompileFilter(lib, schema[filters[i].field], filters[i], |args|);
            && conditions + [c] + CompileFilters(lib, schema, filters[i + 1..], |args + a|).0 == allConditions
            && args + a + CompileFilters(lib, schema, filters[i + 1..], |args + a|).1 == allArgs
  {
    assert filters[i..][0] == filters[i] && filters[i..][1..] == filters[i + 1..];
    var (c, a) := CompileFilter(lib, schema[filters[i].field], filters[i], |args|);
    var (cs, more) := CompileFilters(lib, schema, filters[i + 1..], |args + a|);
    Regroup(conditions, [c], cs);
    Regroup(args, a, more);
  }

  /** The builder of the source: it appends to its arguments as it writes conditions. */
  class Builder {
    var args: seq<Arg>

    constructor (resource: string)
      ensures args == [Name(resource)]
    {
      args := [Name(resource)];
    }

    method Bind(value: Arg) returns (ph: nat)
      modifies this
      ensures args == old(args) + [value] && ph == |args|
    {
      args := args + [value];
      ph := |args|;
    }

    method Equality(d: Definition, field: string, value: Value) returns (c: Cond)
      modifies this
      ensures args == old(args) + [EqualityArg(d, field, value)] && c == ContainsJson(|args|)
    {
      var contained := value;
      if d.multiValue {
        contained := Arr([value]);
      }
      var ph := Bind(Payload(map[field := contained]));
      c := ContainsJson(ph);
    }

    method Filter(lib: Library, d: Definition, f: SearchModel.Filter) returns (c: Cond)
      requires f.op.Between? ==> |SliceValues(f.value)| == 2
      modifies this
      ensures c == CompileFilter(lib, d, f, |old(args)|).0
          && args == old(args) + CompileFilter(lib, d, f, |old(args)|).1
    {
      match f.op {
        case Exists =>
          var key := Bind(Name(f.field));
          var expected := if f.value.Bool? then f.value.b else true;
          c := HasKey(key);
          if !expected {
            c := Not(c);
          }
        case Eq =>
          c := Equality(d, f.field, f.value);
        case Neq =>
          c := Equality(d, f.field, f.value);
          c := Not(c);
        case In =>
          c := Membership(d, f.field, SliceValues(f.value));
        case NotIn =>
          c := Membership(d, f.field, SliceValues(f.value));
          c := Not(c);
        case ContainsText =>
          var key := Bind(Name(f.field));
          var value := Bind(Operand(Str(Sprint(lib, f.value))));
          c := Like(key, value);
          assert args == old(args) + [Name(f.field), Operand(Str(Sprint(lib, f.value)))];
        case _ =>
          c := RangeFilter(lib, d, f);
      }
    }

    method Membership(d: Definition, field: string, values: seq<Value>) returns (c: Cond)
      modifies this
      ensures args == old(args) + EqualityArgs(d, field, values)
      ensures c == AnyOf(EqualityConds(|old(args)|, |values|))
    {
      var conditions := [];
      var i := 0;
      while i < |values|
        invariant i <= |values| && |conditions| == i
        invariant args == old(args) + EqualityArgs(d, field, values[..i])
        invariant forall k :: 0 <= k < i ==> conditions[k] == ContainsJson(|old(args)| + 1 + k)
      {
        var condition := Equality(d, field, values[i]);
        conditions := conditions + [condition];
        assert EqualityArgs(d, field, values[..i + 1])
          == EqualityArgs(d, field, values[..i]) + [EqualityArg(d, field, values[i])];
        i := i + 1;
      }
      assert values[..i] == values;
      assert conditions == EqualityConds(|old(args)|, |values|);
      c := AnyOf(conditions);
    }

    method RangeFilter(lib: Library, d: Definition, f: SearchModel.Filter) returns (c: Cond)
      requires IsRange(f.op) && (f.op.Between? ==> |SliceValues(f.value)| == 2)
      modifies this
      ensures c == CompileFilter(lib, d, f, |old(args)|).0
          && args == old(args) + CompileFilter(lib, d, f, |old(args)|).1
    {
      var key := Bind(Name(f.field));
      var expression := TextOf(key);
      if d.kind.IntegerType? || d.kind.DecimalType? {
        expression := NumberOf(key);
      }
      if d.kind.DateType? {
        expression := TimeOf(key);
      }
      if f.op.Between? {
        var bounds := SliceValues(f.value);
        var low := Bind(Operand(bounds[0]));
        var high := Bind(Operand(bounds[1]));
        c := InBetween(expression, low, high);
        assert args == old(args) + [Name(f.field), Operand(bounds[0]), Operand(bounds[1])];
      } else {
        var ph := Bind(Operand(f.value));
        c := Compare(expression, ComparisonOf(f.op), ph);
        assert args == old(args) + [Name(f.field), Operand(f.value)];
      }
    }

    /** The loop over the filters. */
    method Filters(lib: Library, schema: Schema, filters: seq<SearchModel.Filter>) returns (conditions: seq<Cond>)
      requires forall i :: 0 <= i < |filters| ==> filters[i].field in schema
      requires forall i :: 0 <= i < |filters| ==> filters[i].op.Between? ==> |SliceValues(filters[i].value)| == 2
      modifies this
      ensures conditions == CompileFilters(lib, schema, filters, |old(args)|).0
      ensures args == old(args) + CompileFilters(lib, schema, filters, |old(args)|).1
    {
      conditions := [];
      ghost var bound := args;
      ghost var all := CompileFilters(lib, schema, filters, |bound|);
      var i := 0;
      assert filters[0..] == filters;
      while i < |filters|
        invariant i <= |filters|
        invariant conditions + CompileFilters(lib, schema, filters[i..], |args|).0 == all.0
        invariant args + CompileFilters(lib, schema, filters[i..], |args|).1 == bound + all.1
      {
        CompiledMore(lib, schema, filters, i, conditions, args, all.0, bound + all.1);
        var condition := Filter(lib, schema[filters[i].field], filters[i]);
        conditions := conditions + [condition];
        i := i + 1;
      }
    }

    /** The conditions of a WHERE clause, to be joined with AND. */
    method Where(lib: Library, schema: Schema, resource: string, query: string, filters: seq<SearchModel.Filter>)
        returns (conditions: seq<Cond>)
      requires args == [Name(resource)]
      requires forall i :: 0 <= i < |filters| ==> filters[i].field in schema
      requires forall i :: 0 <= i < |filters| ==> filters[i].op.Between? ==> |SliceValues(filters[i].value)| == 2
      modifies this
      ensures conditions == CompileWhere(lib, schema, resource, query, filters).0
      ensures args == CompileWhere(lib, schema, resource, query, filters).1
    {
      conditions := [ResourceIs(1)];
      if query != "" {
        var ph := Bind(Name(query));
        conditions := conditions + [FullText(ph)];
      }
      ghost var all := CompileFilters(lib, schema, filters, |args|);
      ghost var bound := args;
      var more := Filters(lib, schema, filters);
      conditions := conditions + more;
      assert args == bound + all.1;
      if query == "" {
        assert [ResourceIs(1)] + [] + all.0 == [ResourceIs(1)] + all.0;
        assert [Name(resource)] + [] + all.1 == [Name(resource)] + all.1;
      }
    }
  }

  // ---- meaning --------------------------------------------------------------------

  /** Filters whose two evaluations are compared: no text search, no text or date order, no date equality. */
  predicate Compared(d: Definition, f: SearchModel.Filter) {
    && !f.op.ContainsText?
    && (IsRange(f.op) ==> Numeric(d.kind))
    && (d.kind.DateType? ==> f.op.Exists?)
  }

  /** The one place where the evaluators differ: a range over a null value. */
  predicate NullSafe(doc: Document, f: SearchModel.Filter) {
    IsRange(f.op) ==> !(f.field in doc && doc[f.field].Null?)
  }

  lemma KeyIsValue(lib: Library, d: Definition, a: Value, b: Value)
    requires !d.kind.DateType? && ValidScalar(lib, d, a) && ValidScalar(lib, d, b)
    ensures CompareValue(lib, d, a, b) == 0 <==> a == b
  {
    ValueOrder(lib, d, a, b, b);
    if d.kind.BooleanType? {
      assert "true"[0] != "false"[0];
    }
  }

  /** Containment of one value is equality with some value of the attribute. */
  lemma EqualityMeaning(lib: Library, d: Definition, doc: Document, field: string, value: Value)
    requires !d.kind.DateType? && ValidScalar(lib, d, value)
    requires field in doc ==> ValidAttribute(lib, d, doc[field])
    ensures DocContains(doc, map[field := if d.multiValue then Arr([value]) else value]) <==>
              field in doc && AnyEqual(lib, d, AttributeValues(doc[field]), [value])
  {
    var wanted := if d.multiValue then Arr([value]) else value;
    var payload := map[field := wanted];
    assert payload.Keys == {field} && payload[field] == wanted;
    assert DocContains(doc, payload) <==> field in doc && ValueContains(doc[field], wanted);
    if field in doc {
      var have := AttributeValues(doc[field]);
      forall i | 0 <= i < |have| ensures CompareValue(lib, d, have[i], value) == 0 <==> have[i] == value {
        KeyIsValue(lib, d, have[i], value);
      }
      assert AnyEqual(lib, d, have, [value]) <==> exists i :: 0 <= i < |have| && have[i] == value by {
        if i :| 0 <= i < |have| && have[i] == value {
          assert CompareValue(lib, d, have[i], [value][0]) == 0;
        }
      }
      if d.multiValue {
        assert wanted.items[0] == value;
        if doc[field].Arr? {
          assert ValueContains(doc[field], wanted) <==> exists j :: 0 <= j < |have| && ValueContains(have[j], value);
        }
      } else if !doc[field].Null? {
        assert have[0] == doc[field];
      }
    }
  }

  /** The membership test is true exactly when some value of the attribute equals some candidate. */
  lemma {:induction false} MembershipMeaning(lib: Library, out: Outside, d: Definition, field: string,
      values: seq<Value>,
                                             n: nat, args: seq<Arg>, row: Row)
    requires !d.kind.DateType? && forall i :: 0 <= i < |values| ==> ValidScalar(lib, d, values[i])
    requires field in row.doc ==> ValidAttribute(lib, d, row.doc[field])
    requires n + |values| <= |args| && forall i :: 0 <= i < |values| ==> args[n + i] == EqualityArg(d, field, values[i])
    ensures EvalAny(out, EqualityConds(n, |values|), args, row) ==
              TruthOf(field in row.doc && AnyEqual(lib, d, AttributeValues(row.doc[field]), values))
    decreases |values|
  {
    var cs := EqualityConds(n, |values|);
    if values != [] {
      var rest := values[1..];
      assert cs[1..] == EqualityConds(n + 1, |rest|);
      assert forall i :: 0 <= i < |rest| ==> rest[i] == values[i + 1];
      forall i | 0 <= i < |rest| ensures args[n + 1 + i] == EqualityArg(d, field, rest[i]) {
        assert args[n + (i + 1)] == EqualityArg(d, field, values[i + 1]);
      }
      MembershipMeaning(lib, out, d, field, rest, n + 1, args, row);
      EqualityMeaning(lib, d, row.doc, field, values[0]);
      assert cs[0] == ContainsJson(n + 1) && args[n + 0] == EqualityArg(d, field, values[0]);
      if field in row.doc {
        AnyOfTwo(lib, d, AttributeValues(row.doc[field]), values);
      }
    }
  }

  lemma AnyOfTwo(lib: Library, d: Definition, have: seq<Value>, values: seq<Value>)
    requires values != []
    ensures AnyEqual(lib, d, have, values) <==>
        AnyEqual(lib, d, have, [values[0]]) || AnyEqual(lib, d, have, values[1..])
  {
    if AnyEqual(lib, d, have, values) {
      var i, j :| 0 <= i < |have| && 0 <= j < |values| && CompareValue(lib, d, have[i], values[j]) == 0;
      if j == 0 {
        assert CompareValue(lib, d, have[i], [values[0]][0]) == 0;
      } else {
        assert CompareValue(lib, d, have[i], values[1..][j - 1]) == 0;
      }
    }
    if AnyEqual(lib, d, have, [values[0]]) {
      var i, j :| 0 <= i < |have| && 0 <= j < 1 && CompareValue(lib, d, have[i], [values[0]][j]) == 0;
      assert CompareValue(lib, d, have[i], values[0]) == 0;
    }
    if AnyEqual(lib, d, have, values[1..]) {
      var i, j :| 0 <= i < |have| && 0 <= j < |values[1..]| && CompareValue(lib, d, have[i], values[1..][j]) == 0;
      assert CompareValue(lib, d, have[i], values[j + 1]) == 0;
    }
  }

  /**
   * Range conditions compare the same numbers, except that a null value counts as zero in memory and
   * as NULL in SQL.
   */
  lemma RangeMeaning(lib: Library, search: TextSearch, out: Outside, d: Definition, f: SearchModel.Filter,
                     n: nat, args: seq<Arg>, row: Row)
    requires ValidFilter(lib, d, f) && IsRange(f.op) && Numeric(d.kind)
    requires f.field in row.doc ==> ValidAttribute(lib, d, row.doc[f.field])
    requires var a := CompileFilter(lib, d, f, n).1; n + |a| <= |args| && args[n..n + |a|] == a
    ensures Eval(out, CompileFilter(lib, d, f, n).0, args, row) == True <==>
              MatchFilter(lib, search, d, Lookup(row.doc, f.field), f) && NullSafe(row.doc, f)
  {
    var a := CompileFilter(lib, d, f, n).1;
    ArgsAt(n, args, a);
    if f.op.Between? {
      assert a[1] == Operand(f.value.items[0]) && a[2] == Operand(f.value.items[1]);
    } else {
      assert a[1] == Operand(f.value);
    }
  }

  /** The arguments bound after the first n, by their placeholders. */
  lemma ArgsAt(n: nat, args: seq<Arg>, a: seq<Arg>)
    requires n + |a| <= |args| && args[n..n + |a|] == a
    ensures forall i :: 0 <= i < |a| ==> args[n + i] == a[i]
    ensures |a| > 0 ==> ArgAt(args, n + 1) == Some(a[0])
    ensures |a| > 1 ==> ArgAt(args, n + 2) == Some(a[1])
    ensures |a| > 2 ==> ArgAt(args, n + 3) == Some(a[2])
  {
    forall i | 0 <= i < |a| ensures args[n + i] == a[i] { assert args[n..n + |a|][i] == args[n + i]; }
  }

  /** One filter: its condition is true of a document exactly when the evaluator accepts it. */
  lemma FilterMeaning(lib: Library, search: TextSearch, out: Outside, d: Definition, f: SearchModel.Filter,
                      n: nat, args: seq<Arg>, row: Row)
    requires ValidFilter(lib, d, f) && Compared(d, f)
    requires f.field in row.doc ==> ValidAttribute(lib, d, row.doc[f.field])
    requires var a := CompileFilter(lib, d, f, n).1; n + |a| <= |args| && args[n..n + |a|] == a
    ensures Eval(out, CompileFilter(lib, d, f, n).0, args, row) == True <==>
              MatchFilter(lib, search, d, Lookup(row.doc, f.field), f) && NullSafe(row.doc, f)
  {
    if IsRange(f.op) {
      RangeMeaning(lib, search, out, d, f, n, args, row);
    } else if f.op.In? || f.op.NotIn? {
      InMeaning(lib, search, out, d, f, n, args, row);
    } else {
      SingleMeaning(lib, search, out, d, f, n, args, row);
    }
  }

  lemma InMeaning(lib: Library, search: TextSearch, out: Outside, d: Definition, f: SearchModel.Filter,
                  n: nat, args: seq<Arg>, row: Row)
    requires ValidFilter(lib, d, f) && Compared(d, f) && (f.op.In? || f.op.NotIn?)
    requires f.field in row.doc ==> ValidAttribute(lib, d, row.doc[f.field])
    requires var a := CompileFilter(lib, d, f, n).1; n + |a| <= |args| && args[n..n + |a|] == a
    ensures Eval(out, CompileFilter(lib, d, f, n).0, args, row) == True <==>
              MatchFilter(lib, search, d, Lookup(row.doc, f.field), f)
  {
    ArgsAt(n, args, CompileFilter(lib, d, f, n).1);
    MembershipMeaning(lib, out, d, f.field, f.value.items, n, args, row);
  }

  lemma SingleMeaning(lib: Library, search: TextSearch, out: Outside, d: Definition, f: SearchModel.Filter,
                      n: nat, args: seq<Arg>, row: Row)
    requires ValidFilter(lib, d, f) && Compared(d, f) && (f.op.Exists? || f.op.Eq? || f.op.Neq?)
    requires f.field in row.doc ==> ValidAttribute(lib, d, row.doc[f.field])
    requires var a := CompileFilter(lib, d, f, n).1; n + |a| <= |args| && args[n..n + |a|] == a
    ensures Eval(out, CompileFilter(lib, d, f, n).0, args, row) == True <==>
              MatchFilter(lib, search, d, Lookup(row.doc, f.field), f)
  {
    ArgsAt(n, args, CompileFilter(lib, d, f, n).1);
    if !f.op.Exists? {
      EqualityMeaning(lib, d, row.doc, f.field, f.value);
    }
  }

  ghost predicate AllMatch(lib: Library, search: TextSearch, schema: Schema, doc: Document,
      filters: seq<SearchModel.Filter>) {
    forall i :: 0 <= i < |filters| ==> Matches(lib, search, schema, doc, filters[i]) && NullSafe(doc, filters[i])
  }

  lemma AllMatchSplit(lib: Library, search: TextSearch, schema: Schema, doc: Document, filters: seq<SearchModel.Filter>)
    requires filters != []
    ensures AllMatch(lib, search, schema, doc, filters) <==>
              Matches(lib, search, schema, doc, filters[0]) && NullSafe(doc, filters[0])
                && AllMatch(lib, search, schema, doc, filters[1..])
  {
    forall i | 0 <= i < |filters| - 1 ensures filters[1..][i] == filters[i + 1] {}
    if Matches(lib, search, schema, doc, filters[0]) && NullSafe(doc, filters[0])
      && AllMatch(lib, search, schema, doc, filters[1..]) {
      forall i | 0 <= i < |filters| ensures Matches(lib, search, schema, doc, filters[i]) && NullSafe(doc, filters[i]) {
        assert i > 0 ==> filters[i] == filters[1..][i - 1];
      }
    }
  }

  /** Valid filters of the compared kinds, and a document valid where it has their attributes. */
  ghost predicate Comparable(lib: Library, schema: Schema, doc: Document, filters: seq<SearchModel.Filter>) {
    && ValidFilters(lib, schema, filters)
    && (forall i :: 0 <= i < |filters| ==> Compared(schema[filters[i].field], filters[i]))
    && ValidDocument(lib, schema, doc, true)
  }

  lemma ComparableTail(lib: Library, schema: Schema, doc: Document, filters: seq<SearchModel.Filter>)
    requires Comparable(lib, schema, doc, filters) && filters != []
    ensures Comparable(lib, schema, doc, filters[1..])
    ensures var f := filters[0];
            && f.field in schema && ValidFilter(lib, schema[f.field], f) && Compared(schema[f.field], f)
            && (f.field in doc ==> ValidAttribute(lib, schema[f.field], doc[f.field]))
  {
    forall i | 0 <= i < |filters| - 1 ensures filters[1..][i] == filters[i + 1] {}
  }

  lemma Sliced(args: seq<Arg>, n: nat, a: seq<Arg>, more: seq<Arg>)
    requires n + |a| + |more| == |args| && args[n..] == a + more
    ensures args[n..n + |a|] == a && args[n + |a|..] == more
  {
    assert args[n..][..|a|] == args[n..n + |a|];
    assert args[n..][|a|..] == args[n + |a|..];
  }

  /** A list of filters, compiled one after the other into one argument list. */
  lemma {:induction false} FiltersMeaning(lib: Library, search: TextSearch, out: Outside, schema: Schema,
                                          filters: seq<SearchModel.Filter>, n: nat, args: seq<Arg>, row: Row)
    requires Comparable(lib, schema, row.doc, filters)
    requires var a := CompileFilters(lib, schema, filters, n).1; n + |a| == |args| && args[n..] == a
    ensures EvalAll(out, CompileFilters(lib, schema, filters, n).0, args, row) == True <==>
              AllMatch(lib, search, schema, row.doc, filters)
    decreases |filters|
  {
    if filters != [] {
      ComparableTail(lib, schema, row.doc, filters);
      var c, cs, m := FirstThenRest(lib, schema, filters, n, args);
      FirstMeaning(lib, search, out, schema, filters, n, args, row);
      FiltersMeaning(lib, search, out, schema, filters[1..], m, args, row);
      EvalAllSplit(out, c, cs, args, row);
      AllMatchSplit(lib, search, schema, row.doc, filters);
    }
  }

  /** The first filter takes the arguments up to m, the others the rest. */
  lemma FirstThenRest(lib: Library, schema: Schema, filters: seq<SearchModel.Filter>, n: nat, args: seq<Arg>)
    returns (c: Cond, cs: seq<Cond>, m: nat)
    requires filters != [] && forall i :: 0 <= i < |filters| ==> filters[i].field in schema
    requires var a := CompileFilters(lib, schema, filters, n).1; n + |a| == |args| && args[n..] == a
    ensures n <= m <= |args| && CompileFilter(lib, schema[filters[0].field], filters[0], n) == (c, args[n..m])
    ensures CompileFilters(lib, schema, filters[1..], m) == (cs, args[m..])
    ensures CompileFilters(lib, schema, filters, n).0 == [c] + cs
  {
    var first := CompileFilter(lib, schema[filters[0].field], filters[0], n);
    m := n + |first.1|;
    var rest := CompileFilters(lib, schema, filters[1..], m);
    c, cs := first.0, rest.0;
    Sliced(args, n, first.1, rest.1);
  }

  lemma FirstMeaning(lib: Library, search: TextSearch, out: Outside, schema: Schema,
                     filters: seq<SearchModel.Filter>, n: nat, args: seq<Arg>, row: Row)
    requires Comparable(lib, schema, row.doc, filters) && filters != []
    requires var a := CompileFilter(lib, schema[filters[0].field], filters[0], n).1;
             n + |a| <= |args| && args[n..n + |a|] == a
    ensures Eval(out, CompileFilter(lib, schema[filters[0].field], filters[0], n).0, args, row) == True <==>
              Matches(lib, search, schema, row.doc, filters[0]) && NullSafe(row.doc, filters[0])
  {
    ComparableTail(lib, schema, row.doc, filters);
    FilterMeaning(lib, search, out, schema[filters[0].field], filters[0], n, args, row);
  }

  lemma EvalAllSplit(out: Outside, c: Cond, cs: seq<Cond>, args: seq<Arg>, row: Row)
    ensures EvalAll(out, [c] + cs, args, row) == True <==>
        Eval(out, c, args, row) == True && EvalAll(out, cs, args, row) == True
  {
    assert ([c] + cs)[1..] == cs;
  }

  /**
   * The whole WHERE clause with its bound arguments is true of a row exactly
   * when the row belongs to the resource, the full text condition holds if there
   * is a query, the in-memory evaluator accepts the document, and no range
   * filter meets a null value.
   */
  lemma WhereMeaning(lib: Library, search: TextSearch, out: Outside, schema: Schema, resource: string, query: string,
                     filters: seq<SearchModel.Filter>, row: Row)
    requires Comparable(lib, schema, row.doc, filters)
    ensures var (cs, args) := CompileWhere(lib, schema, resource, query, filters);
            EvalAll(out, cs, args, row) == True <==>
              && row.resource == resource
              && (query != "" ==> out(FullText(2), args, row) == True)
              && MatchFilters(lib, search, schema, row.doc, filters)
              && NullSafeAll(row.doc, filters)
  {
    var (cs, args) := CompileWhere(lib, schema, resource, query, filters);
    var n := if query != "" then 2 else 1;
    var (fs, a) := CompileFilters(lib, schema, filters, n);
    assert args[n..] == a;
    FiltersMeaning(lib, search, out, schema, filters, n, args, row);
    AllMatchBoth(lib, search, schema, row.doc, filters);
    WhereSplit(out, resource, query, fs, args, row);
  }

  /**
   * With no query, on rows of the resource, the two evaluators disagree exactly
   * when the in-memory one accepts and some range filter meets a null value.
   */
  lemma DifferExactly(lib: Library, search: TextSearch, out: Outside, schema: Schema, resource: string,
                      filters: seq<SearchModel.Filter>, row: Row)
    requires Comparable(lib, schema, row.doc, filters) && row.resource == resource
    ensures var (cs, args) := CompileWhere(lib, schema, resource, "", filters);
            (EvalAll(out, cs, args, row) == True) != MatchFilters(lib, search, schema, row.doc, filters)
            <==> MatchFilters(lib, search, schema, row.doc, filters) && !NullSafeAll(row.doc, filters)
  {
    WhereMeaning(lib, search, out, schema, resource, "", filters, row);
  }

  /** It happens: null is not below zero in memory, and not at least zero in SQL. */
  lemma NullDiffers(lib: Library, search: TextSearch, out: Outside, resource: string)
    ensures var schema := map["n" := Definition(IntegerType, false, true, false, false, false, [])];
            var filters := [SearchModel.Filter("n", Gte, Num(0.0), false)];
            var row := Row(resource, map["n" := Null]);
            var (cs, args) := CompileWhere(lib, schema, resource, "", filters);
            && Comparable(lib, schema, row.doc, filters)
            && MatchFilters(lib, search, schema, row.doc, filters)
            && EvalAll(out, cs, args, row) != True
  {
    var schema := map["n" := Definition(IntegerType, false, true, false, false, false, [])];
    var f := SearchModel.Filter("n", Gte, Num(0.0), false);
    var row := Row(resource, map["n" := Null]);
    assert MatchFilters(lib, search, schema, row.doc, [f]);
    assert [f][0] == f && !NullSafe(row.doc, [f][0]);
    WhereMeaning(lib, search, out, schema, resource, "", [f], row);
  }

  lemma WhereSplit(out: Outside, resource: string, query: string, fs: seq<Cond>, args: seq<Arg>, row: Row)
    requires args != [] && args[0] == Name(resource)
    ensures EvalAll(out, [ResourceIs(1)] + (if query != "" then [FullText(2)] else []) + fs, args, row) == True <==>
              && row.resource == resource
              && (query != "" ==> out(FullText(2), args, row) == True)
              && EvalAll(out, fs, args, row) == True
  {
    if query == "" {
      assert [ResourceIs(1)] + [] + fs == [ResourceIs(1)] + fs;
    } else {
      assert [ResourceIs(1)] + [FullText(2)] + fs == [ResourceIs(1)] + ([FullText(2)] + fs);
      EvalAllSplit(out, FullText(2), fs, args, row);
    }
    EvalAllSplit(out, ResourceIs(1), (if query != "" then [FullText(2)] else []) + fs, args, row);
    assert ArgAt(args, 1) == Some(Name(resource));
  }

  ghost predicate NullSafeAll(doc: Document, filters: seq<SearchModel.Filter>) {
    forall i :: 0 <= i < |filters| ==> NullSafe(doc, filters[i])
  }

  lemma AllMatchBoth(lib: Library, search: TextSearch, schema: Schema, doc: Document, filters: seq<SearchModel.Filter>)
    ensures AllMatch(lib, search, schema, doc, filters) <==>
              MatchFilters(lib, search, schema, doc, filters) && NullSafeAll(doc, filters)
  {
  }
}
