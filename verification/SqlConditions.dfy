/**
 * The fragment of SQL that filters compile to: conditions over one JSON
 * document with numbered placeholders, evaluated in three-valued logic.
 */
module SqlConditions {
  import opened Options
  import opened SearchModel

  datatype Truth = True | False | Unknown

  /** A bound argument: a name, a JSON payload or a scalar operand. */
  datatype Arg = Name(s: string) | Payload(o: Document) | Operand(v: Value)

  datatype Comparison = Greater | GreaterOrEqual | Less | LessOrEqual

  /** What a range condition compares: the number, the text or the timestamp under a key. */
  datatype Expr = NumberOf(key: nat) | TextOf(key: nat) | TimeOf(key: nat)

  datatype Cond =
    | ResourceIs(ph: nat)                                 // d.resource = $n
    | FullText(ph: nat)                                   // to_tsvector(..) @@ websearch_to_tsquery(.., $n)
    | HasKey(ph: nat)                                     // d.document ? $n
    | ContainsJson(ph: nat)                               // d.document @> $n::jsonb
    | Like(key: nat, ph: nat)                             // LOWER(d.document ->> $k) LIKE ..
    | Compare(e: Expr, cmp: Comparison, ph: nat)          // e < $n
    | InBetween(e: Expr, low: nat, high: nat)             // e BETWEEN $l AND $h
    | Not(c: Cond)
    | AnyOf(cs: seq<Cond>)                                // (a OR b OR ..)

  /** A row: its resource and document; conditions outside the model are decided by a parameter. */
  datatype Row = Row(resource: string, doc: Document)

  type Outside = (Cond, seq<Arg>, Row) -> Truth

  function TruthOf(b: bool): Truth {
    if b then True else False
  }

  function Negate(t: Truth): Truth {
    match t
    case True => False
    case False => True
    case Unknown => Unknown
  }

  function Or(a: Truth, b: Truth): Truth {
    if a == True || b == True then True
    else if a == Unknown || b == Unknown then Unknown
    else False
  }

  function And(a: Truth, b: Truth): Truth {
    if a == False || b == False then False
    else if a == Unknown || b == Unknown then Unknown
    else True
  }

  /** jsonb containment of one value in another, below the top level. */
  predicate ValueContains(have: Value, want: Value)
    decreases want
  {
    if want.Arr? then
      have.Arr? && forall i :: 0 <= i < |want.items| ==>
        exists j :: 0 <= j < |have.items| && ValueContains(have.items[j], want.items[i])
    else have == want
  }

  predicate DocContains(have: Document, want: Document) {
    forall k <- want.Keys :: k in have && ValueContains(have[k], want[k])
  }

  /** The number under a key, or SQL NULL when the key is missing or not a number. */
  function NumberUnder(doc: Document, key: string): Option<real> {
    if key in doc && doc[key].Num? then Some(doc[key].n) else None
  }

  predicate Holds(cmp: Comparison, x: real, y: real) {
    match cmp
    case Greater => x > y
    case GreaterOrEqual => x >= y
    case Less => x < y
    case LessOrEqual => x <= y
  }

  /** Placeholders count from one. */
  function ArgAt(args: seq<Arg>, ph: nat): Option<Arg> {
    if 1 <= ph <= |args| then Some(args[ph - 1]) else None
  }

  function CompareNumber(doc: Document, key: Option<Arg>, cmp: Comparison, operand: Option<Arg>): Truth {
    if key.Some? && key.value.Name? && operand.Some? && operand.value.Operand? && operand.value.v.Num? then
      match NumberUnder(doc, key.value.s)
      case None => Unknown
      case Some(x) => TruthOf(Holds(cmp, x, operand.value.v.n))
    else Unknown
  }

  function Eval(out: Outside, c: Cond, args: seq<Arg>, row: Row): Truth
    decreases c, 0
  {
    match c
    case ResourceIs(ph) =>
      (match ArgAt(args, ph)
       case Some(Name(s)) => TruthOf(row.resource == s)
       case _ => Unknown)
    case HasKey(ph) =>
      (match ArgAt(args, ph)
       case Some(Name(s)) => TruthOf(s in row.doc)
       case _ => Unknown)
    case ContainsJson(ph) =>
      (match ArgAt(args, ph)
       case Some(Payload(o)) => TruthOf(DocContains(row.doc, o))
       case _ => Unknown)
    case Compare(NumberOf(key), cmp, ph) => CompareNumber(row.doc, ArgAt(args, key), cmp, ArgAt(args, ph))
    case InBetween(NumberOf(key), low, high) =>
      And(CompareNumber(row.doc, ArgAt(args, key), GreaterOrEqual, ArgAt(args, low)),
          CompareNumber(row.doc, ArgAt(args, key), LessOrEqual, ArgAt(args, high)))
    case Not(d) => Negate(Eval(out, d, args, row))
    case AnyOf(cs) => EvalAny(out, cs, args, row)
    case _ => out(c, args, row)
  }

  function EvalAny(out: Outside, cs: seq<Cond>, args: seq<Arg>, row: Row): Truth
    decreases cs, 1
  {
    if cs == [] then False else Or(Eval(out, cs[0], args, row), EvalAny(out, cs[1..], args, row))
  }

  /** Conditions joined with AND. */
  function EvalAll(out: Outside, cs: seq<Cond>, args: seq<Arg>, row: Row): Truth {
    if cs == [] then True else And(Eval(out, cs[0], args, row), EvalAll(out, cs[1..], args, row))
  }
}
