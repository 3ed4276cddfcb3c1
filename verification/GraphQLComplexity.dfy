/**
 * The limits on a GraphQL document. Selections are counted with early exits and
 * a set of the fragments being expanded; the result is the one that expanding
 * every fragment spread in full would give.
 */
module GraphQLComplexity {
  import opened Options

  const MAX_DEPTH := 12
  const MAX_FIELDS := 100
  const MAX_QUERY_LENGTH := 16384

  datatype Selection =
    | Field(children: Option<seq<Selection>>)
    | Inline(children: Option<seq<Selection>>)
    | Spread(name: Option<string>)

  type SelectionSet = Option<seq<Selection>>

  type Fragments = map<string, SelectionSet>

  datatype Definition = Operation(selections: SelectionSet) | Fragment(name: Option<string>, selections: SelectionSet)

  // ---- the full expansion --------------------------------------------------------------

  /** What a selection expands to: its own selections, or those of the fragment it names. */
  function Below(fragments: Fragments, s: Selection): SelectionSet {
    match s
    case Field(children) => children
    case Inline(children) => children
    case Spread(None) => None
    case Spread(Some(name)) => if name in fragments then fragments[name] else None
  }

  /** The expansion of the selections is finite and nests at most n levels. */
  predicate Fits(fragments: Fragments, selections: SelectionSet, n: nat)
    decreases n
  {
    selections.Some? ==> n > 0 && forall s <- selections.value :: Fits(fragments, Below(fragments, s), n - 1)
  }

  /** The number of fields in the expansion, down to n levels. */
  function Fields(fragments: Fragments, selections: SelectionSet, n: nat): nat
    decreases n, 0
  {
    if selections.None? || n == 0 then 0 else FieldsOf(fragments, selections.value, n - 1)
  }

  function FieldsOf(fragments: Fragments, list: seq<Selection>, n: nat): nat
    decreases n, 1, |list|
  {
    if list == [] then 0
    else
      var last := list[|list| - 1];
      FieldsOf(fragments, list[..|list| - 1], n) + (if last.Field? then 1 else 0)
        + Fields(fragments, Below(fragments, last), n)
  }

  // ---- the expansion as a tree -----------------------------------------------------------

  /** Selections with every fragment written in its place: no level, or one with a tree per selection. */
  datatype Expansion = Nothing | Level(trees: seq<Tree>)

  datatype Tree = Tree(isField: bool, below: Expansion)

  function Height(t: Expansion): nat
    decreases t, 0
  {
    if t.Nothing? then 0 else 1 + Tallest(t.trees)
  }

  function Tallest(trees: seq<Tree>): nat
    decreases trees, 1
  {
    if trees == [] then 0
    else
      var n := |trees| - 1;
      Max(Tallest(trees[..n]), HeightBelow(trees[n]))
  }

  function HeightBelow(t: Tree): nat
    decreases t, 0
  {
    Height(t.below)
  }

  function Max(a: nat, b: nat): nat {
    if a < b then b else a
  }

  function Size(t: Expansion): nat
    decreases t, 0
  {
    if t.Nothing? then 0 else Sizes(t.trees)
  }

  /** The fields among these trees and below them. */
  function Sizes(trees: seq<Tree>): nat
    decreases trees, 1
  {
    if trees == [] then 0
    else
      var n := |trees| - 1;
      Sizes(trees[..n]) + SizeOne(trees[n])
  }

  function SizeOne(t: Tree): nat
    decreases t, 0
  {
    (if t.isField then 1 else 0) + Size(t.below)
  }

  ghost predicate Expands(fragments: Fragments, selections: SelectionSet, t: Expansion)
    decreases t, 1
  {
    match selections
    case None => t.Nothing?
    case Some(list) =>
      && t.Level? && |t.trees| == |list|
      && forall i :: 0 <= i < |list| ==> ExpandsOne(fragments, list[i], t.trees[i])
  }

  /** A field or an inline fragment has its own selections below it, a spread those of its fragment, if there is one. */
  ghost predicate ExpandsOne(fragments: Fragments, s: Selection, t: Tree)
    decreases t, 0
  {
    match s
    case Field(children) => t.isField && Expands(fragments, children, t.below)
    case Inline(children) => !t.isField && Expands(fragments, children, t.below)
    case Spread(name) =>
      && !t.isField
      && if name.Some? && name.value in fragments then Expands(fragments, fragments[name.value], t.below)
         else t.below.Nothing?
  }

  lemma {:induction false} TallestBound(trees: seq<Tree>, n: nat)
    ensures Tallest(trees) <= n <==> forall i :: 0 <= i < |trees| ==> HeightBelow(trees[i]) <= n
  {
    if trees != [] {
      TallestBound(trees[..|trees| - 1], n);
      assert forall i :: 0 <= i < |trees| - 1 ==> trees[..|trees| - 1][i] == trees[i];
    }
  }

  /** Selections that fit have an expansion of at most that height, with as many fields. */
  lemma {:induction false} Expand(fragments: Fragments, selections: SelectionSet, n: nat) returns (t: Expansion)
    requires Fits(fragments, selections, n)
    ensures Expands(fragments, selections, t) && Height(t) <= n && Size(t) == Fields(fragments, selections, n)
    decreases n, 0
  {
    if selections.None? {
      t := Nothing;
    } else {
      var trees := ExpandAll(fragments, selections.value, n - 1);
      TallestBound(trees, n - 1);
      t := Level(trees);
    }
  }

  lemma {:induction false} ExpandAll(fragments: Fragments, list: seq<Selection>, n: nat) returns (trees: seq<Tree>)
    requires forall s <- list :: Fits(fragments, Below(fragments, s), n)
    ensures |trees| == |list| && forall i :: 0 <= i < |list| ==> ExpandsOne(fragments, list[i], trees[i])
    ensures forall i :: 0 <= i < |list| ==> HeightBelow(trees[i]) <= n
    ensures Sizes(trees) == FieldsOf(fragments, list, n)
    decreases n, 1, |list|
  {
    if list == [] {
      trees := [];
    } else {
      var last := list[|list| - 1];
      var init := ExpandAll(fragments, list[..|list| - 1], n);
      var below := Expand(fragments, Below(fragments, last), n);
      trees := init + [Tree(last.Field?, below)];
      assert trees[..|init|] == init;
    }
  }

  /** And whatever expands to such a height fits. */
  lemma {:induction false} ExpandedFits(fragments: Fragments, selections: SelectionSet, t: Expansion, n: nat)
    requires Expands(fragments, selections, t) && Height(t) <= n
    ensures Fits(fragments, selections, n)
    decreases n
  {
    if selections.Some? {
      TallestBound(t.trees, n - 1);
      forall s | s in selections.value ensures Fits(fragments, Below(fragments, s), n - 1) {
        var i :| 0 <= i < |selections.value| && selections.value[i] == s;
        assert ExpandsOne(fragments, selections.value[i], t.trees[i]) && HeightBelow(t.trees[i]) <= n - 1;
        ExpandedFits(fragments, Below(fragments, s), t.trees[i].below, n - 1);
      }
    }
  }

  /** There is one expansion. */
  lemma {:induction false} OneExpansion(fragments: Fragments, selections: SelectionSet, t: Expansion, u: Expansion)
    requires Expands(fragments, selections, t) && Expands(fragments, selections, u)
    ensures t == u
    decreases t
  {
    if selections.Some? {
      forall i | 0 <= i < |t.trees| ensures t.trees[i] == u.trees[i] {
        assert ExpandsOne(fragments, selections.value[i], t.trees[i]);
        assert ExpandsOne(fragments, selections.value[i], u.trees[i]);
        OneExpansion(fragments, Below(fragments, selections.value[i]), t.trees[i].below, u.trees[i].below);
      }
      assert t.trees == u.trees;
    }
  }

  /** Fitting means having a finite expansion of that height, and the fields are counted in it. */
  lemma FitsExactly(fragments: Fragments, selections: SelectionSet, n: nat)
    ensures Fits(fragments, selections, n) <==> exists t :: Expands(fragments, selections, t) && Height(t) <= n
    ensures forall t :: Expands(fragments, selections, t) && Height(t) <= n ==>
      Size(t) == Fields(fragments, selections, n)
  {
    if Fits(fragments, selections, n) {
      var t := Expand(fragments, selections, n);
      forall u | Expands(fragments, selections, u) ensures u == t {
        OneExpansion(fragments, selections, u, t);
      }
    }
    if t :| Expands(fragments, selections, t) && Height(t) <= n {
      ExpandedFits(fragments, selections, t, n);
    }
  }

  lemma {:induction false} FitsMore(fragments: Fragments, selections: SelectionSet, n: nat)
    requires Fits(fragments, selections, n)
    ensures Fits(fragments, selections, n + 1)
    decreases n
  {
    if selections.Some? {
      forall s | s in selections.value ensures Fits(fragments, Below(fragments, s), n) {
        FitsMore(fragments, Below(fragments, s), n - 1);
      }
    }
  }

  /** Wherever the selections fit, the fragment fits in as many levels: its expansion lies among theirs. */
  ghost predicate Among(fragments: Fragments, selections: SelectionSet, name: string) {
    name in fragments && forall n: nat :: Fits(fragments, selections, n) ==> Fits(fragments, fragments[name], n)
  }

  /** Wherever the selections fit, the fragment fits in fewer levels: its expansion lies inside theirs. */
  ghost predicate Holds(fragments: Fragments, selections: SelectionSet, name: string) {
    && name in fragments
    && forall n: nat :: Fits(fragments, selections, n) ==> n > 0 && Fits(fragments, fragments[name], n - 1)
  }

  lemma HeldByOuter(fragments: Fragments, selections: SelectionSet, s: Selection, name: string)
    requires selections.Some? && s in selections.value && Among(fragments, Below(fragments, s), name)
    ensures Holds(fragments, selections, name)
  {
    forall n: nat | Fits(fragments, selections, n) ensures n > 0 && Fits(fragments, fragments[name], n - 1) {
      assert Fits(fragments, Below(fragments, s), n - 1);
    }
  }

  lemma HeldIsAmong(fragments: Fragments, selections: SelectionSet, name: string)
    requires Holds(fragments, selections, name)
    ensures Among(fragments, selections, name)
  {
    forall n: nat | Fits(fragments, selections, n) ensures Fits(fragments, fragments[name], n) {
      FitsMore(fragments, fragments[name], n - 1);
    }
  }

  /** A fragment inside its own expansion has no finite expansion. */
  lemma {:induction false} CycleNeverFits(fragments: Fragments, name: string, n: nat)
    requires name in fragments && Holds(fragments, fragments[name], name)
    ensures !Fits(fragments, fragments[name], n)
  {
    if n > 0 {
      CycleNeverFits(fragments, name, n - 1);
    }
  }

  lemma {:induction false} FieldsOfPrefix(fragments: Fragments, list: seq<Selection>, k: nat, n: nat)
    requires k <= |list|
    ensures FieldsOf(fragments, list[..k], n) <= FieldsOf(fragments, list, n)
    decreases |list|
  {
    if k < |list| {
      assert list[..|list| - 1][..k] == list[..k];
      FieldsOfPrefix(fragments, list[..|list| - 1], k, n);
    } else {
      assert list[..k] == list;
    }
  }

  // ---- counting ------------------------------------------------------------------------

  /** Why counting fails at a depth: too many levels below it, or a fragment being expanded lies below it. */
  ghost predicate Rejected(fragments: Fragments, active: set<string>, selections: SelectionSet, levels: nat) {
    !Fits(fragments, selections, levels) || exists name <- active :: Holds(fragments, selections, name)
  }

  ghost predicate RejectedBelow(fragments: Fragments, active: set<string>, selections: SelectionSet, levels: nat) {
    !Fits(fragments, selections, levels) || exists name <- active :: Among(fragments, selections, name)
  }

  lemma RejectedOwn(fragments: Fragments, active: set<string>, selections: SelectionSet, levels: nat)
    requires Rejected(fragments, active, selections, levels)
    ensures RejectedBelow(fragments, active, selections, levels)
  {
    if Fits(fragments, selections, levels) {
      var name :| name in active && Holds(fragments, selections, name);
      HeldIsAmong(fragments, selections, name);
    }
  }

  /** A fragment rejected while it is being expanded would be rejected anywhere else too. */
  lemma RejectedFragment(fragments: Fragments, active: set<string>, name: string, levels: nat)
    requires name in fragments && Rejected(fragments, active + {name}, fragments[name], levels)
    ensures RejectedBelow(fragments, active, fragments[name], levels)
  {
    if Fits(fragments, fragments[name], levels) {
      var other :| other in active + {name} && Holds(fragments, fragments[name], other);
      if other == name {
        CycleNeverFits(fragments, name, levels);
      }
      HeldIsAmong(fragments, fragments[name], other);
    }
  }

  /** What a count says; above the limit it is only known to be too large. */
  ghost predicate Counted(fragments: Fragments, selections: SelectionSet, levels: nat, extra: nat, count: nat) {
    && (count <= MAX_FIELDS ==>
          Fits(fragments, selections, levels) && count == extra + Fields(fragments, selections, levels))
    && (count > MAX_FIELDS && Fits(fragments, selections, levels) ==>
          extra + Fields(fragments, selections, levels) > MAX_FIELDS)
  }

  ghost predicate EachFits(fragments: Fragments, list: seq<Selection>, n: nat) {
    forall s <- list :: Fits(fragments, Below(fragments, s), n)
  }

  /** One selection more: counted exactly, or too many whatever follows. */
  lemma CountMore(fragments: Fragments, list: seq<Selection>, i: nat, n: nat, total: nat, child: nat)
    requires i < |list| && EachFits(fragments, list[..i], n) && total == FieldsOf(fragments, list[..i], n) <= MAX_FIELDS
    requires Counted(fragments, Below(fragments, list[i]), n, if list[i].Field? then 1 else 0, child)
    ensures total + child <= MAX_FIELDS ==>
      EachFits(fragments, list[..i + 1], n) && total + child == FieldsOf(fragments, list[..i + 1], n)
    ensures total + child > MAX_FIELDS ==> Counted(fragments, Some(list), n + 1, 0, total + child)
  {
    var s := list[i];
    assert list[..i + 1] == list[..i] + [s] && list[..i + 1][..i] == list[..i];
    if total + child > MAX_FIELDS && Fits(fragments, Some(list), n + 1) {
      assert s in list && Fits(fragments, Below(fragments, s), n);
      FieldsOfPrefix(fragments, list, i + 1, n);
    }
  }

  class Counter {
    const fragments: Fragments
    var active: set<string>

    constructor (fragments: Fragments)
      ensures this.fragments == fragments && active == {}
    {
      this.fragments := fragments;
      active := {};
    }

    method CountSelections(selections: SelectionSet, depth: nat) returns (count: Option<nat>)
      requires 1 <= depth <= MAX_DEPTH + 1
      requires active <= fragments.Keys
      modifies this
      ensures active == old(active)
      ensures count.None? ==> Rejected(fragments, active, selections, MAX_DEPTH + 1 - depth)
      ensures count.Some? ==> Counted(fragments, selections, MAX_DEPTH + 1 - depth, 0, count.value)
      decreases MAX_DEPTH + 1 - depth, 0
    {
      if selections.None? {
        return Some(0);
      }
      if depth > MAX_DEPTH {
        return None;
      }
      var list := selections.value;
      var total := 0;
      for i := 0 to |list|
        invariant active == old(active) && total <= MAX_FIELDS
        invariant EachFits(fragments, list[..i], MAX_DEPTH - depth)
        invariant total == FieldsOf(fragments, list[..i], MAX_DEPTH - depth)
      {
        var s := list[i];
        var child := CountSelection(s, depth);
        if child.None? {
          Passes(fragments, active, selections, s, MAX_DEPTH - depth);
          return None;
        }
        total := total + child.value;
        CountMore(fragments, list, i, MAX_DEPTH - depth, total - child.value, child.value);
        if total > MAX_FIELDS {
          return Some(total);
        }
      }
      assert list[..|list|] == list;
      assert Counted(fragments, selections, MAX_DEPTH + 1 - depth, 0, total);
      count := Some(total);
    }

    method CountSelection(s: Selection, depth: nat) returns (count: Option<nat>)
      requires 1 <= depth <= MAX_DEPTH
      requires active <= fragments.Keys
      modifies this
      ensures active == old(active)
      ensures count.None? ==> RejectedBelow(fragments, active, Below(fragments, s), MAX_DEPTH - depth)
      ensures count.Some? ==>
        Counted(fragments, Below(fragments, s), MAX_DEPTH - depth, if s.Field? then 1 else 0, count.value)
      decreases MAX_DEPTH - depth, 2
    {
      match s {
        case Field(children) =>
          count := CountSelections(children, depth + 1);
          if count.Some? {
            count := Some(1 + count.value);
          } else {
            RejectedOwn(fragments, active, children, MAX_DEPTH - depth);
          }
        case Inline(children) =>
          count := CountSelections(children, depth + 1);
          if count.None? {
            RejectedOwn(fragments, active, children, MAX_DEPTH - depth);
          }
        case Spread(name) =>
          count := CountFragment(name, depth);
      }
    }

    method CountFragment(spread: Option<string>, depth: nat) returns (count: Option<nat>)
      requires 1 <= depth <= MAX_DEPTH
      requires active <= fragments.Keys
      modifies this
      ensures active == old(active)
      ensures count.None? ==> RejectedBelow(fragments, active, Below(fragments, Spread(spread)), MAX_DEPTH - depth)
      ensures count.Some? ==> Counted(fragments, Below(fragments, Spread(spread)), MAX_DEPTH - depth, 0, count.value)
      decreases MAX_DEPTH - depth, 1
    {
      if spread.None? {
        return Some(0);
      }
      var name := spread.value;
      if name in active {
        return None;
      }
      if name !in fragments {
        return Some(0);
      }
      active := active + {name};
      count := CountSelections(fragments[name], depth + 1);
      active := active - {name};
      if count.None? {
        assert active + {name} == old(active) + {name};
        RejectedFragment(fragments, active, name, MAX_DEPTH - depth);
      }
    }
  }

  /** What is wrong below one selection is wrong with the selections that contain it. */
  lemma Passes(fragments: Fragments, active: set<string>, selections: SelectionSet, s: Selection, levels: nat)
    requires selections.Some? && s in selections.value && RejectedBelow(fragments, active, Below(fragments, s), levels)
    ensures Rejected(fragments, active, selections, levels + 1)
  {
    if Fits(fragments, Below(fragments, s), levels) {
      var name :| name in active && Among(fragments, Below(fragments, s), name);
      HeldByOuter(fragments, selections, s, name);
    }
  }

  // ---- a document ----------------------------------------------------------------------

  /** The last definition of a name counts. */
  function FragmentsOf(document: seq<Definition>): Fragments {
    if document == [] then map[]
    else
      var last := document[|document| - 1];
      var before := FragmentsOf(document[..|document| - 1]);
      if last.Fragment? && last.name.Some? then before[last.name.value := last.selections] else before
  }

  /** All operations together, fully expanded. */
  function TotalFields(fragments: Fragments, document: seq<Definition>): nat {
    if document == [] then 0
    else
      var last := document[|document| - 1];
      TotalFields(fragments, document[..|document| - 1])
        + if last.Operation? then Fields(fragments, last.selections, MAX_DEPTH) else 0
  }

  predicate AllFit(fragments: Fragments, document: seq<Definition>) {
    forall d <- document :: OperationFits(fragments, d)
  }

  predicate OperationFits(fragments: Fragments, d: Definition) {
    d.Operation? ==> Fits(fragments, d.selections, MAX_DEPTH)
  }

  lemma AllFitMore(fragments: Fragments, document: seq<Definition>, i: nat)
    requires i < |document|
    ensures AllFit(fragments, document[..i + 1]) <==>
              AllFit(fragments, document[..i]) && OperationFits(fragments, document[i])
    ensures TotalFields(fragments, document[..i + 1]) == TotalFields(fragments, document[..i])
              + if document[i].Operation? then Fields(fragments, document[i].selections, MAX_DEPTH) else 0
  {
    assert document[..i + 1] == document[..i] + [document[i]] && document[..i + 1][..i] == document[..i];
  }

  /** The fields of all operations, each in its expansion. */
  function FieldsIn(document: seq<Definition>, expansions: seq<Expansion>): nat
    requires |expansions| == |document|
  {
    if document == [] then 0
    else
      var n := |document| - 1;
      FieldsIn(document[..n], expansions[..n]) + if document[n].Operation? then Size(expansions[n]) else 0
  }

  ghost predicate OperationsExpand(fragments: Fragments, document: seq<Definition>, expansions: seq<Expansion>) {
    && |expansions| == |document|
    && forall i :: 0 <= i < |document| ==> OperationExpands(fragments, document[i], expansions[i])
  }

  ghost predicate OperationExpands(fragments: Fragments, d: Definition, t: Expansion) {
    d.Operation? ==> Expands(fragments, d.selections, t) && Height(t) <= 12
  }

  /** Every operation has an expansion, at most twelve levels high, and they hold a hundred fields at most. */
  ghost predicate WithinLimits(document: seq<Definition>) {
    exists expansions ::
      OperationsExpand(FragmentsOf(document), document, expansions) && FieldsIn(document, expansions) <= 100
  }

  lemma {:induction false} FieldsCounted(fragments: Fragments, document: seq<Definition>, expansions: seq<Expansion>)
    requires OperationsExpand(fragments, document, expansions)
    ensures FieldsIn(document, expansions) == TotalFields(fragments, document)
    decreases |document|
  {
    if document != [] {
      var n := |document| - 1;
      FieldsCounted(fragments, document[..n], expansions[..n]);
      assert OperationExpands(fragments, document[n], expansions[n]);
      if document[n].Operation? {
        Sized(fragments, document[n].selections, expansions[n], MAX_DEPTH);
      }
    }
  }

  lemma Sized(fragments: Fragments, selections: SelectionSet, t: Expansion, n: nat)
    requires Expands(fragments, selections, t) && Height(t) <= n
    ensures Fits(fragments, selections, n) && Size(t) == Fields(fragments, selections, n)
  {
    FitsExactly(fragments, selections, n);
  }

  lemma OperationsFit(fragments: Fragments, document: seq<Definition>, expansions: seq<Expansion>)
    requires OperationsExpand(fragments, document, expansions)
    ensures AllFit(fragments, document)
  {
    forall d | d in document ensures OperationFits(fragments, d) {
      var i :| 0 <= i < |document| && document[i] == d;
      assert OperationExpands(fragments, document[i], expansions[i]);
      if d.Operation? {
        Sized(fragments, d.selections, expansions[i], MAX_DEPTH);
      }
    }
  }

  lemma {:induction false} ExpandOperations(fragments: Fragments, document: seq<Definition>)
    returns (expansions: seq<Expansion>)
    requires AllFit(fragments, document)
    ensures OperationsExpand(fragments, document, expansions)
    decreases |document|
  {
    if document == [] {
      expansions := [];
    } else {
      var n := |document| - 1;
      AllFitMore(fragments, document, n);
      assert document[..n + 1] == document;
      expansions := ExpandOperations(fragments, document[..n]);
      var last := Nothing;
      if document[n].Operation? {
        last := Expand(fragments, document[n].selections, MAX_DEPTH);
      }
      expansions := expansions + [last];
    }
  }

  lemma LimitsExactly(document: seq<Definition>)
    ensures WithinLimits(document) <==>
              AllFit(FragmentsOf(document), document) && TotalFields(FragmentsOf(document), document) <= 100
  {
    var fragments := FragmentsOf(document);
    if AllFit(fragments, document) {
      var expansions := ExpandOperations(fragments, document);
      FieldsCounted(fragments, document, expansions);
    }
    if expansions :| OperationsExpand(fragments, document, expansions) && FieldsIn(document, expansions) <= 100 {
      OperationsFit(fragments, document, expansions);
      FieldsCounted(fragments, document, expansions);
    }
  }

  method CollectFragments(document: seq<Definition>) returns (fragments: Fragments)
    ensures fragments == FragmentsOf(document)
  {
    fragments := map[];
    for i := 0 to |document|
      invariant fragments == FragmentsOf(document[..i])
    {
      var d := document[i];
      assert document[..i + 1][..i] == document[..i];
      if d.Fragment? && d.name.Some? {
        fragments := fragments[d.name.value := d.selections];
      }
    }
    assert document[..|document|] == document;
  }

  /**
   * A parsed document is accepted exactly when every operation has a finite
   * expansion, at most twelve levels deep, and all of them together have at most a
   * hundred fields.
   */
  method Validate(length: nat, parsed: Option<seq<Definition>>) returns (accepted: bool)
    ensures accepted <==> length <= 16384 && parsed.Some? && WithinLimits(parsed.value)
  {
    if length > MAX_QUERY_LENGTH || parsed.None? {
      return false;
    }
    LimitsExactly(parsed.value);
    accepted := CountOperations(parsed.value);
  }

  method CountOperations(document: seq<Definition>) returns (accepted: bool)
    ensures accepted <==>
      && AllFit(FragmentsOf(document), document) && TotalFields(FragmentsOf(document), document) <= MAX_FIELDS
  {
    var fragments := CollectFragments(document);
    var total := 0;
    for i := 0 to |document|
      invariant total <= MAX_FIELDS ==>
          AllFit(fragments, document[..i]) && total == TotalFields(fragments, document[..i])
      invariant total > MAX_FIELDS && AllFit(fragments, document[..i]) ==>
          TotalFields(fragments, document[..i]) > MAX_FIELDS
    {
      var d := document[i];
      AllFitMore(fragments, document, i);
      if d.Operation? {
        var counter := new Counter(fragments);
        var count := counter.CountSelections(d.selections, 1);
        if count.None? {
          assert d in document && !OperationFits(fragments, d);
          return false;
        }
        total := total + count.value;
      }
    }
    assert document[..|document|] == document;
    accepted := total <= MAX_FIELDS;
  }
}
