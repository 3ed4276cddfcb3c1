/**
 * Search values, schemas and filters, and the checks made on them before any
 * backend sees them.
 */
module SearchModel {
  import opened Options

  /** A JSON value as the backends hold it. */
  datatype Value = Null | Bool(b: bool) | Num(n: real) | Str(s: string) | Arr(items: seq<Value>)

  datatype AttributeType = StringType | IntegerType | DecimalType | BooleanType | DateType | EnumType

  datatype Definition = Definition(
    kind: AttributeType, multiValue: bool, filterable: bool, facetable: bool, searchable: bool, sortable: bool,
    enumValues: seq<string>)

  type Schema = map<string, Definition>

  type Document = map<string, Value>

  datatype Operator = Eq | Neq | In | NotIn | Gt | Gte | Lt | Lte | Between | ContainsText | Exists

  datatype Filter = Filter(field: string, op: Operator, value: Value, mandatory: bool)

  /** Library code the model does not look into: rendering of numbers and arrays, and dates. */
  datatype Library = Library(text: Value -> string, instant: string -> int, validDate: string -> bool)

  predicate IsRange(op: Operator) {
    op in {Gt, Gte, Lt, Lte, Between}
  }

  predicate Numeric(kind: AttributeType) {
    kind.IntegerType? || kind.DecimalType?
  }

  predicate ValidScalar(lib: Library, d: Definition, v: Value) {
    match d.kind
    case StringType => v.Str?
    case IntegerType => v.Num? && v.n == v.n.Floor as real
    case DecimalType => v.Num?
    case BooleanType => v.Bool?
    case DateType => v.Str? && lib.validDate(v.s)
    case EnumType => v.Str? && v.s in d.enumValues
  }

  predicate ValidAttribute(lib: Library, d: Definition, v: Value) {
    if v.Null? then true
    else if d.multiValue then v.Arr? && forall i :: 0 <= i < |v.items| ==> ValidScalar(lib, d, v.items[i])
    else !v.Arr? && ValidScalar(lib, d, v)
  }

  /** ValidateDocument, with unknown attributes allowed or not. */
  predicate ValidDocument(lib: Library, schema: Schema, doc: Document, allowUnknown: bool) {
    forall key <- doc.Keys :: if key in schema then ValidAttribute(lib, schema[key], doc[key]) else allowUnknown
  }

  predicate ValidFilter(lib: Library, d: Definition, f: Filter) {
    && d.filterable
    && !(d.multiValue && IsRange(f.op))
    && !(IsRange(f.op) && (d.kind.BooleanType? || d.kind.EnumType?))
    && !(f.op.ContainsText? && !d.kind.StringType?)
    && (if f.op.Exists? then f.value.Null? || f.value.Bool?
        else if f.op.In? || f.op.NotIn? || f.op.Between? then
          f.value.Arr? && f.value.items != [] && (f.op.Between? ==> |f.value.items| == 2)
          && forall i :: 0 <= i < |f.value.items| ==> ValidScalar(lib, d, f.value.items[i])
        else ValidScalar(lib, d, f.value))
  }

  predicate ValidFilters(lib: Library, schema: Schema, filters: seq<Filter>) {
    forall i :: 0 <= i < |filters| ==>
      filters[i].field in schema && ValidFilter(lib, schema[filters[i].field], filters[i])
  }

  // ---- comparing values ------------------------------------------------------------

  /** fmt.Sprint of a value. */
  function Sprint(lib: Library, v: Value): string {
    match v
    case Str(s) => s
    case Bool(b) => if b then "true" else "false"
    case Null => "<nil>"
    case _ => lib.text(v)
  }

  /** What a value is compared by: a number, a text or an instant, as its attribute's type says. */
  datatype Key = NumberKey(n: real) | TextKey(s: string) | InstantKey(t: int)

  function KeyOf(lib: Library, d: Definition, v: Value): Key {
    match d.kind
    case IntegerType => NumberKey(if v.Num? then v.n else 0.0)
    case DecimalType => NumberKey(if v.Num? then v.n else 0.0)
    case DateType => InstantKey(lib.instant(Sprint(lib, v)))
    case _ => TextKey(Sprint(lib, v))
  }

  function CompareText(a: string, b: string): (c: int)
    ensures c in {-1, 0, 1}
  {
    if a == [] then (if b == [] then 0 else -1)
    else if b == [] then 1
    else if a[0] < b[0] then -1
    else if b[0] < a[0] then 1
    else CompareText(a[1..], b[1..])
  }

  function CompareKeys(a: Key, b: Key): (c: int)
    ensures c in {-1, 0, 1}
  {
    match (a, b)
    case (NumberKey(x), NumberKey(y)) => if x < y then -1 else if x > y then 1 else 0
    case (InstantKey(x), InstantKey(y)) => if x < y then -1 else if x > y then 1 else 0
    case (TextKey(x), TextKey(y)) => CompareText(x, y)
    case _ => 0
  }

  function CompareValue(lib: Library, d: Definition, left: Value, right: Value): (c: int)
    ensures c in {-1, 0, 1}
  {
    CompareKeys(KeyOf(lib, d, left), KeyOf(lib, d, right))
  }

  lemma {:induction false} TextOrder(a: string, b: string, c: string)
    ensures CompareText(a, b) == -CompareText(b, a)
    ensures CompareText(a, b) == 0 <==> a == b
    ensures CompareText(a, b) <= 0 && CompareText(b, c) <= 0 ==> CompareText(a, c) <= 0
  {
    if a != [] && b != [] {
      TextOrder(a[1..], b[1..], if c == [] then [] else c[1..]);
      assert a == [a[0]] + a[1..] && b == [b[0]] + b[1..];
    }
  }

  /** Values of one attribute are totally preordered by their keys. */
  lemma ValueOrder(lib: Library, d: Definition, a: Value, b: Value, c: Value)
    ensures CompareValue(lib, d, a, b) == -CompareValue(lib, d, b, a)
    ensures CompareValue(lib, d, a, b) == 0 <==> KeyOf(lib, d, a) == KeyOf(lib, d, b)
    ensures CompareValue(lib, d, a, b) <= 0 && CompareValue(lib, d, b, c) <= 0 ==> CompareValue(lib, d, a, c) <= 0
  {
    if !Numeric(d.kind) && !d.kind.DateType? {
      TextOrder(Sprint(lib, a), Sprint(lib, b), Sprint(lib, c));
    }
  }

  // ---- what comparing means ------------------------------------------------------------

  /** a comes before b in character order: at the first difference it has the smaller character, or has ended. */
  ghost predicate TextBefore(a: string, b: string) {
    exists k: nat :: DiffersAt(a, b, k)
  }

  ghost predicate DiffersAt(a: string, b: string, k: nat) {
    k <= |a| && k < |b| && a[..k] == b[..k] && (k == |a| || a[k] < b[k])
  }

  lemma {:induction false} TextBeforeExactly(a: string, b: string)
    ensures CompareText(a, b) < 0 <==> TextBefore(a, b)
  {
    if a == [] || b == [] || a[0] != b[0] {
      assert b != [] ==> (DiffersAt(a, b, 0) <==> CompareText(a, b) < 0);
      forall k: nat | k > 0 ensures !DiffersAt(a, b, k) {
        if k <= |a| && k < |b| {
          assert a[..k][0] == a[0] && b[..k][0] == b[0];
        }
      }
    } else {
      TextBeforeExactly(a[1..], b[1..]);
      if k: nat :| DiffersAt(a, b, k) {
        TailDiffers(a, b, k);
      }
      if k: nat :| DiffersAt(a[1..], b[1..], k) {
        assert a[..k + 1] == [a[0]] + a[1..][..k] && b[..k + 1] == [b[0]] + b[1..][..k];
        assert DiffersAt(a, b, k + 1);
      }
    }
  }

  lemma TailDiffers(a: string, b: string, k: nat)
    requires DiffersAt(a, b, k) && a != [] && b != [] && a[0] == b[0]
    ensures DiffersAt(a[1..], b[1..], k - 1)
  {
    assert a[1..][..k - 1] == a[..k][1..] && b[1..][..k - 1] == b[..k][1..];
  }

  /** One key is below another: as a number, as an instant, or in character order. */
  ghost predicate Below(x: Key, y: Key) {
    match (x, y)
    case (NumberKey(m), NumberKey(n)) => m < n
    case (InstantKey(m), InstantKey(n)) => m < n
    case (TextKey(s), TextKey(t)) => TextBefore(s, t)
    case _ => false
  }

  lemma KeysMean(x: Key, y: Key)
    ensures CompareKeys(x, y) < 0 <==> Below(x, y)
  {
    if x.TextKey? && y.TextKey? {
      TextBeforeExactly(x.s, y.s);
    }
  }

  // ---- the in-memory evaluator --------------------------------------------------------

  function AttributeValues(v: Value): seq<Value> {
    match v
    case Arr(items) => items
    case Null => []
    case _ => [v]
  }

  /** Some value of the attribute equals some candidate. */
  predicate AnyEqual(lib: Library, d: Definition, values: seq<Value>, candidates: seq<Value>) {
    exists i, j :: 0 <= i < |values| && 0 <= j < |candidates| && CompareValue(lib, d, values[i], candidates[j]) == 0
  }

  function SliceValues(v: Value): seq<Value> {
    if v.Arr? then v.items else []
  }

  /** contains: the library's case folding and substring search are a parameter. */
  type TextSearch = (string, string) -> bool

  predicate MatchRange(lib: Library, d: Definition, v: Value, f: Filter) {
    var c := CompareValue(lib, d, v, f.value);
    match f.op
    case Gt => c > 0
    case Gte => c >= 0
    case Lt => c < 0
    case Lte => c <= 0
    case _ => false
  }

  predicate MatchFilter(lib: Library, search: TextSearch, d: Definition, v: Option<Value>, f: Filter) {
    if f.op.Exists? then v.Some? == (if f.value.Bool? then f.value.b else true)
    else if v.None? then f.op.Neq? || f.op.NotIn?
    else
      var values := AttributeValues(v.value);
      match f.op
      case Eq => AnyEqual(lib, d, values, [f.value])
      case Neq => !AnyEqual(lib, d, values, [f.value])
      case In => AnyEqual(lib, d, values, SliceValues(f.value))
      case NotIn => !AnyEqual(lib, d, values, SliceValues(f.value))
      case ContainsText => exists i :: 0 <= i < |values| && search(Sprint(lib, values[i]), Sprint(lib, f.value))
      case Between =>
        var bounds := SliceValues(f.value);
        |bounds| == 2 && CompareValue(lib, d, v.value, bounds[0]) >= 0 && CompareValue(lib, d, v.value, bounds[1]) <= 0
      case _ => MatchRange(lib, d, v.value, f)
  }

  function Lookup(doc: Document, field: string): Option<Value> {
    if field in doc then Some(doc[field]) else None
  }

  /** Looking up an undeclared attribute gives the zero definition, which compares as text. */
  function DefinitionOf(schema: Schema, field: string): Definition {
    if field in schema then schema[field] else Definition(StringType, false, false, false, false, false, [])
  }

  predicate Matches(lib: Library, search: TextSearch, schema: Schema, doc: Document, f: Filter) {
    MatchFilter(lib, search, DefinitionOf(schema, f.field), Lookup(doc, f.field), f)
  }

  predicate MatchFilters(lib: Library, search: TextSearch, schema: Schema, doc: Document, filters: seq<Filter>) {
    forall i :: 0 <= i < |filters| ==> Matches(lib, search, schema, doc, filters[i])
  }
}
