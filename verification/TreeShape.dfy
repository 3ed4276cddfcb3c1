/**
 * The shape of a radix tree as a value: a snapshot of every node's fields,
 * with nodes known only by identity. What the three tree edits (splitting a
 * node, hanging a new child, setting handlers) preserve is proved here, away
 * from the heap.
 */
module TreeShape {
  import opened Numbers
  import opened Options
  import opened RoutePatterns

  datatype NodeType = Static | ParamNode | CatchAllNode

  /** base: the tokens from the root to the node; full: base and the node's own tokens. */
  datatype Rec<N> = Rec(
    path: string, indices: string, wildChild: bool, nType: NodeType, paramName: string,
    children: seq<N>, handlers: Option<Chain>, base: Pattern, full: Pattern)

  type Snapshot<N> = map<N, Rec<N>>

  ghost predicate Live(p: Pattern, ps: set<Pattern>) {
    exists q :: q in ps && p <= q
  }

  ghost predicate Closed<N>(v: Snapshot<N>) {
    forall n, i {:trigger v[n].children[i]} :: n in v && 0 <= i < |v[n].children| ==> v[n].children[i] in v
  }

  /** A node's own text and its tokens. */
  ghost predicate TextOk<N>(r: Rec<N>) {
    && r.full == r.base + Tokens(r.path)
    && (if r.nType.Static? then Plain(r.path)
        else r.path == [if r.nType.CatchAllNode? then '*' else ':'] + r.paramName && NoSlash(r.paramName))
  }

  /** How a static node finds its children: by first character, or one wildcard. */
  ghost predicate StaticOk<N>(v: Snapshot<N>, r: Rec<N>)
    requires forall i :: 0 <= i < |r.children| ==> r.children[i] in v
  {
    && (r.wildChild ==> |r.children| == 1 && r.indices == "" && !v[r.children[0]].nType.Static?)
    && (!r.wildChild ==> |r.indices| == |r.children|)
    && (forall i, j :: 0 <= i < j < |r.indices| ==> r.indices[i] != r.indices[j])
    && (forall i :: 0 <= i < |r.indices| ==>
          var c := v[r.children[i]]; c.nType.Static? && c.path != "" && c.path[0] == r.indices[i])
  }

  /** A wildcard node has at most one child: an empty one, or text that begins with '/'. */
  ghost predicate WildOk<N>(v: Snapshot<N>, r: Rec<N>)
    requires forall i :: 0 <= i < |r.children| ==> r.children[i] in v
  {
    && !r.wildChild && |r.children| <= 1
    && (r.children == [] ==> r.indices == "")
    && (r.children != [] ==>
          var c := v[r.children[0]];
          c.nType.Static? && (if c.path == "" then r.indices == "" else r.indices == "/" && c.path[0] == '/'))
  }

  ghost predicate Shape<N>(root: N, v: Snapshot<N>, n: N)
    requires Closed(v) && n in v
  {
    var r := v[n];
    && TextOk(r)
    && (forall i :: 0 <= i < |r.children| ==> v[r.children[i]].base == r.full)
    && (r.path == "" && n != root ==> r.handlers == None)
    && (if r.nType.Static? then StaticOk(v, r) else WildOk(v, r))
  }

  ghost predicate Covers<N>(v: Snapshot<N>, n: N, q: Pattern)
    requires Closed(v) && n in v
  {
    exists i :: 0 <= i < |v[n].children| && v[v[n].children[i]].full <= q
  }

  /** Whatever lies strictly below m1 lies below one of its children. */
  ghost predicate Leads<N>(v: Snapshot<N>, m1: N, m2: N)
    requires Closed(v) && m1 in v && m2 in v
  {
    v[m1].full < v[m2].full ==> Covers(v, m1, v[m2].full)
  }

  /** Only a wildcard node and its empty child stand for the same tokens. */
  ghost predicate Apart<N>(v: Snapshot<N>, m1: N, m2: N)
    requires m1 in v && m2 in v
  {
    m1 == m2 || v[m1].full != v[m2].full || v[m1].children == [m2] || v[m2].children == [m1]
  }

  /** Whoever passes the first token of n's text passes all of it. */
  ghost predicate Owns<N>(v: Snapshot<N>, n: N, m: N)
    requires n in v && m in v
  {
    var k := |v[n].base|;
    v[n].base < v[n].full && v[n].full[..k + 1] <= v[m].full ==> v[n].full <= v[m].full
  }

  ghost predicate HandlersOk<N>(v: Snapshot<N>, routes: map<Pattern, Chain>, n: N)
    requires n in v
  {
    v[n].handlers.Some? ==> v[n].full in routes && routes[v[n].full] == v[n].handlers.value
  }

  ghost predicate Homed<N>(v: Snapshot<N>, p: Pattern) {
    exists n :: n in v && v[n].full == p && v[n].handlers.Some?
  }

  ghost predicate Linked<N>(root: N, v: Snapshot<N>) {
    && root in v && v[root].path == "" && v[root].nType.Static? && v[root].base == []
    && Closed(v)
    && (forall n {:trigger Shape(root, v, n)} :: n in v ==> Shape(root, v, n))
    && (forall m1, m2 {:trigger Leads(v, m1, m2)} :: m1 in v && m2 in v ==> Leads(v, m1, m2))
    && (forall m1, m2 {:trigger Apart(v, m1, m2)} :: m1 in v && m2 in v ==> Apart(v, m1, m2))
    && (forall m1, m2 {:trigger Owns(v, m1, m2)} :: m1 in v && m2 in v ==> Owns(v, m1, m2))
  }

  ghost predicate Filled<N>(v: Snapshot<N>, routes: map<Pattern, Chain>) {
    && (forall n {:trigger HandlersOk(v, routes, n)} :: n in v ==> HandlersOk(v, routes, n))
    && (forall p {:trigger Homed(v, p)} :: p in routes ==> Homed(v, p))
  }

  /** Every node lies on the way to some pattern of ps. */
  ghost predicate AllLive<N>(v: Snapshot<N>, ps: set<Pattern>) {
    forall n {:trigger Live(v[n].full, ps)} :: n in v ==> Live(v[n].full, ps)
  }

  /** A tree of just an empty root. */
  lemma EmptyTree<N>(root: N, v: Snapshot<N>)
    requires v == map[root := Rec("", "", false, Static, "", [], None, [], [])]
    ensures Linked(root, v) && Filled(v, map[]) && AllLive(v, {[]})
  {
    assert Shape(root, v, root);
    assert [] <= v[root].full;
  }

  // ---- splitting -------------------------------------------------------

  function Head<N>(r: Rec<N>, i: nat, child: N): Rec<N>
    requires i < |r.path|
  {
    Rec(r.path[..i], [r.path[i]], false, Static, "", [child], None, r.base, r.base + Tokens(r.path[..i]))
  }

  function Tail<N>(r: Rec<N>, i: nat): Rec<N>
    requires i < |r.path|
  {
    r.(path := r.path[i..], base := r.base + Tokens(r.path[..i]))
  }

  lemma SplitTokens<N>(r: Rec<N>, i: nat)
    requires TextOk(r) && r.nType.Static? && 0 < i < |r.path|
    ensures |Tokens(r.path[..i])| == i && Tokens(r.path) == Tokens(r.path[..i]) + Tokens(r.path[i..])
    ensures |Tokens(r.path)| == |r.path|
  {
    assert r.path == r.path[..i] + r.path[i..];
    TokensPlain(r.path[..i], r.path[i..]);
    TokensPlain(r.path[i..], "");
    assert r.path[i..] + "" == r.path[i..];
  }

  ghost predicate CanSplit<N>(root: N, v: Snapshot<N>, n: N, i: nat, child: N) {
    Linked(root, v) && n in v && v[n].nType.Static? && 0 < i < |v[n].path| && child !in v
  }

  ghost function SplitAt<N>(v: Snapshot<N>, n: N, i: nat, child: N): Snapshot<N>
    requires n in v && i < |v[n].path|
  {
    v[n := Head(v[n], i, child)][child := Tail(v[n], i)]
  }

  lemma SplitFacts<N>(root: N, v: Snapshot<N>, n: N, i: nat, child: N)
    requires CanSplit(root, v, n, i, child)
    ensures n != root && n != child && Closed(SplitAt(v, n, i, child))
    ensures Shape(root, v, n) && v[n].base < v[n].full
    ensures var v' := SplitAt(v, n, i, child); v'[child].full == v[n].full && v[n].base < v'[n].full < v[n].full
  {
    assert Shape(root, v, n);
    SplitTokens(v[n], i);
  }

  lemma SplitShape<N>(root: N, v: Snapshot<N>, n: N, i: nat, child: N, m: N)
    requires CanSplit(root, v, n, i, child) && m in SplitAt(v, n, i, child)
    ensures Closed(SplitAt(v, n, i, child)) && Shape(root, SplitAt(v, n, i, child), m)
  {
    SplitFacts(root, v, n, i, child);
    SplitTokens(v[n], i);
    if m != n && m != child {
      SplitShapeOther(root, v, n, i, child, m);
    } else if m == child {
      SplitShapeChild(root, v, n, i, child);
    }
  }

  lemma SplitShapeChild<N>(root: N, v: Snapshot<N>, n: N, i: nat, child: N)
    requires CanSplit(root, v, n, i, child)
    ensures Closed(SplitAt(v, n, i, child)) && Shape(root, SplitAt(v, n, i, child), child)
  {
    SplitFacts(root, v, n, i, child);
    SplitTokens(v[n], i);
    var v' := SplitAt(v, n, i, child);
    assert v'[child].full == v'[child].base + Tokens(v'[child].path);
    assert StaticOk(v', v'[child]) by {
      assert StaticOk(v, v[n]);
      assert forall j :: 0 <= j < |v[n].children| ==> v[n].children[j] != n;
    }
  }

  lemma SplitShapeOther<N>(root: N, v: Snapshot<N>, n: N, i: nat, child: N, m: N)
    requires CanSplit(root, v, n, i, child) && m in v && m != n
    ensures Closed(SplitAt(v, n, i, child)) && Shape(root, SplitAt(v, n, i, child), m)
  {
    SplitFacts(root, v, n, i, child);
    assert Shape(root, v, m);
  }

  /** Two nodes with text of their own never stand for the same tokens. */
  lemma OneTextPerPlace<N>(root: N, v: Snapshot<N>, m1: N, m2: N)
    requires Linked(root, v) && m1 in v && m2 in v && v[m1].full == v[m2].full
    requires v[m1].base < v[m1].full && v[m2].base < v[m2].full
    ensures m1 == m2
  {
    assert Apart(v, m1, m2);
    OnlyChild(root, v, m1, m2);
    OnlyChild(root, v, m2, m1);
  }

  lemma OnlyChild<N>(root: N, v: Snapshot<N>, m: N, c: N)
    requires Linked(root, v) && m in v && c in v
    ensures v[m].children == [c] ==> v[c].base == v[m].full
    ensures v[m].base <= v[m].full
  {
    assert Shape(root, v, m);
    assert v[m].children == [c] ==> v[v[m].children[0]].base == v[m].full;
  }

  /** No node ends inside the text of another. */
  lemma NoneInside<N>(root: N, v: Snapshot<N>, n: N, m: N, h: Pattern)
    requires Linked(root, v) && n in v && m in v
    requires v[n].base < h < v[n].full && h <= v[m].full
    ensures v[n].full <= v[m].full
  {
    assert Owns(v, n, m);
    assert v[n].full[..|v[n].base| + 1] <= h;
  }

  lemma SplitLeads<N>(root: N, v: Snapshot<N>, n: N, i: nat, child: N, m1: N, m2: N)
    requires CanSplit(root, v, n, i, child)
    requires m1 in SplitAt(v, n, i, child) && m2 in SplitAt(v, n, i, child)
    ensures Closed(SplitAt(v, n, i, child)) && Leads(SplitAt(v, n, i, child), m1, m2)
  {
    SplitFacts(root, v, n, i, child);
    var v' := SplitAt(v, n, i, child);
    if v'[m1].full < v'[m2].full {
      if m1 == n {
        if m2 != child {
          NoneInside(root, v, n, m2, v'[n].full);
        }
        assert v'[v'[m1].children[0]].full <= v'[m2].full;
      } else {
        var o1, o2 := if m1 == child then n else m1, if m2 == child then n else m2;
        var j := LeadingChild(root, v, o1, o2);
        var c := v[o1].children[j];
        assert v'[m1].children[j] == c;
        if m2 == n && c != n {
          SplitSibling(root, v, n, i, child, c, v[o1].full);
        }
        assert v'[v'[m1].children[j]].full <= v'[m2].full;
      }
    }
  }

  lemma LeadingChild<N>(root: N, v: Snapshot<N>, m1: N, m2: N) returns (j: nat)
    requires Linked(root, v) && m1 in v && m2 in v && v[m1].full < v[m2].full
    ensures j < |v[m1].children| && v[m1].children[j] in v
    ensures v[v[m1].children[j]].full <= v[m2].full && v[v[m1].children[j]].base == v[m1].full
  {
    assert Leads(v, m1, m2) && Shape(root, v, m1);
    j :| 0 <= j < |v[m1].children| && v[v[m1].children[j]].full <= v[m2].full;
  }

  lemma SplitSibling<N>(root: N, v: Snapshot<N>, n: N, i: nat, child: N, c: N, base: Pattern)
    requires CanSplit(root, v, n, i, child) && c in v && c != n
    requires v[c].full <= v[n].full && v[c].base == base
    requires base < SplitAt(v, n, i, child)[n].full
    ensures v[c].full <= SplitAt(v, n, i, child)[n].full
  {
    SplitFacts(root, v, n, i, child);
    var h := SplitAt(v, n, i, child)[n].full;
    if !(v[c].full <= h) {
      assert h < v[c].full;
      NoneInside(root, v, n, c, h);
      OneTextPerPlace(root, v, n, c);
      assert false;
    }
  }

  lemma SplitApart<N>(root: N, v: Snapshot<N>, n: N, i: nat, child: N, m1: N, m2: N)
    requires CanSplit(root, v, n, i, child)
    requires m1 in SplitAt(v, n, i, child) && m2 in SplitAt(v, n, i, child)
    ensures Apart(SplitAt(v, n, i, child), m1, m2)
  {
    SplitFacts(root, v, n, i, child);
    var v' := SplitAt(v, n, i, child);
    if m1 != m2 && v'[m1].full == v'[m2].full {
      if m1 == n || m2 == n {
        NoneInside(root, v, n, if m1 == n then m2 else m1, v'[n].full);
        assert false;
      }
      var o1, o2 := if m1 == child then n else m1, if m2 == child then n else m2;
      assert Apart(v, o1, o2);
      OnlyChild(root, v, o1, n);
      OnlyChild(root, v, o2, n);
    }
  }

  lemma SplitOwns<N>(root: N, v: Snapshot<N>, n: N, i: nat, child: N, m1: N, m2: N)
    requires CanSplit(root, v, n, i, child)
    requires m1 in SplitAt(v, n, i, child) && m2 in SplitAt(v, n, i, child)
    ensures Owns(SplitAt(v, n, i, child), m1, m2)
  {
    SplitFacts(root, v, n, i, child);
    var v' := SplitAt(v, n, i, child);
    var h := v'[n].full;
    var o1, o2 := if m1 == child then n else m1, if m2 == child then n else m2;
    assert Owns(v, o1, o2);
    if m2 == n && m1 != n && m1 != child && v[m1].base < v[m1].full && v[m1].full[..|v[m1].base| + 1] <= h {
      if !(v[m1].full <= h) {
        NoneInside(root, v, n, m1, h);
        OneTextPerPlace(root, v, n, m1);
        assert false;
      }
    }
  }

  lemma SplitFilled<N>(root: N, v: Snapshot<N>, routes: map<Pattern, Chain>, n: N, i: nat, child: N)
    requires CanSplit(root, v, n, i, child) && Filled(v, routes)
    ensures Filled(SplitAt(v, n, i, child), routes)
  {
    SplitFacts(root, v, n, i, child);
    var v' := SplitAt(v, n, i, child);
    forall m | m in v'
      ensures HandlersOk(v', routes, m)
    {
      assert HandlersOk(v, routes, if m == child then n else m);
    }
    forall p | p in routes
      ensures Homed(v', p)
    {
      assert Homed(v, p);
      var m :| m in v && v[m].full == p && v[m].handlers.Some?;
      var m' := if m == n then child else m;
      assert m' in v' && v'[m'].full == p && v'[m'].handlers.Some?;
    }
  }

  lemma SplitLive<N>(root: N, v: Snapshot<N>, ps: set<Pattern>, n: N, i: nat, child: N)
    requires CanSplit(root, v, n, i, child) && AllLive(v, ps)
    ensures AllLive(SplitAt(v, n, i, child), ps)
  {
    SplitFacts(root, v, n, i, child);
    var v' := SplitAt(v, n, i, child);
    forall m | m in v'
      ensures Live(v'[m].full, ps)
    {
      assert Live(v[if m == child then n else m].full, ps);
    }
  }

  /** Splitting a static node keeps the tree well formed and its routes in place. */
  lemma SplitKeeps<N>(root: N, v: Snapshot<N>, n: N, i: nat, child: N)
    requires CanSplit(root, v, n, i, child)
    ensures Linked(root, SplitAt(v, n, i, child))
  {
    SplitFacts(root, v, n, i, child);
    var v' := SplitAt(v, n, i, child);
    forall m | m in v' ensures Shape(root, v', m) { SplitShape(root, v, n, i, child, m); }
    forall m1, m2 | m1 in v' && m2 in v' ensures Leads(v', m1, m2) { SplitLeads(root, v, n, i, child, m1, m2); }
    forall m1, m2 | m1 in v' && m2 in v' ensures Apart(v', m1, m2) { SplitApart(root, v, n, i, child, m1, m2); }
    forall m1, m2 | m1 in v' && m2 in v' ensures Owns(v', m1, m2) { SplitOwns(root, v, n, i, child, m1, m2); }
  }

  // ---- hanging a new child ---------------------------------------------

  /**
   * r can hang below p: a wildcard below bare text, text with a new first character, or anything below
   * a childless wildcard.
   */
  ghost predicate Hangs<N>(p: Rec<N>, r: Rec<N>, index: string, wild: bool) {
    && TextOk(r)
    && r.base == p.full && r.children == [] && r.handlers == None && r.indices == "" && !r.wildChild
    && !p.wildChild
    && (p.nType.Static? && wild ==> p.children == [] && !r.nType.Static? && index == "")
    && (p.nType.Static? && !wild ==> r.nType.Static? && r.path != "" && index == [r.path[0]] && r.path[0] !in p.indices)
    && (!p.nType.Static? ==>
          !wild && p.children == [] && r.nType.Static?
          && (if r.path == "" then index == "" else index == "/" && r.path[0] == '/'))
  }

  ghost predicate CanAttach<N>(root: N, v: Snapshot<N>, n: N, c: N, r: Rec<N>, index: string, wild: bool) {
    Linked(root, v) && n in v && c !in v && Hangs(v[n], r, index, wild)
  }

  ghost function AttachAt<N>(v: Snapshot<N>, n: N, c: N, r: Rec<N>, index: string, wild: bool): Snapshot<N>
    requires n in v
  {
    v[n := v[n].(indices := v[n].indices + index, children := v[n].children + [c], wildChild := wild)][c := r]
  }

  /** The text of a node begins with the token that its first character announces. */
  lemma FirstToken<N>(r: Rec<N>)
    requires TextOk(r) && r.path != ""
    ensures |r.full| > |r.base| && r.base < r.full
    ensures r.nType.Static? ==> r.full[|r.base|] == Lit(r.path[0])
    ensures !r.nType.Static? ==> IsWild(r.full[|r.base|]) && r.full == r.base + [r.full[|r.base|]]
  {
    if r.nType.Static? {
      TokensPlain(r.path, "");
      assert r.path + "" == r.path;
    } else {
      TokensWild(r.path[0], r.paramName, "");
      assert r.path == [r.path[0]] + r.paramName + "";
    }
  }

  lemma AttachFresh<N>(root: N, v: Snapshot<N>, n: N, c: N, r: Rec<N>, index: string, wild: bool, m: N)
    requires CanAttach(root, v, n, c, r, index, wild) && m in v
    requires v[n].full < v[m].full
    ensures r.path != "" && |r.full| > |r.base| && r.full[|r.base|] != v[m].full[|r.base|]
  {
    var j := LeadingChild(root, v, n, m);
    var d := v[v[n].children[j]];
    assert Shape(root, v, n) && Shape(root, v, v[n].children[j]);
    FirstToken(r);
    FirstToken(d);
    assert d.path[0] == v[n].indices[j];
  }

  lemma AttachShapeParent<N>(root: N, v: Snapshot<N>, n: N, c: N, r: Rec<N>, index: string, wild: bool)
    requires Closed(v) && n in v && c !in v && Shape(root, v, n) && Hangs(v[n], r, index, wild)
    ensures Closed(AttachAt(v, n, c, r, index, wild)) && Shape(root, AttachAt(v, n, c, r, index, wild), n)
  {
    var v' := AttachAt(v, n, c, r, index, wild);
    var s, s' := v[n], v'[n];
    var z := |s.children|;
    assert s'.children[z] == c;
    assert Closed(v') by {
      assert forall i :: 0 <= i < z ==> s'.children[i] == s.children[i] && s.children[i] in v;
    }
    forall i | 0 <= i < |s'.children|
      ensures v'[s'.children[i]].base == s'.full
    {
      assert i < z ==> v[s.children[i]].base == s.full;
    }
    if s.nType.Static? && !wild {
      AttachStaticShape(v, n, c, r, index);
    }
  }

  lemma AttachStaticShape<N>(v: Snapshot<N>, n: N, c: N, r: Rec<N>, index: string)
    requires Closed(v) && n in v && c !in v && v[n].nType.Static? && StaticOk(v, v[n]) && Hangs(v[n], r, index, false)
    requires Closed(AttachAt(v, n, c, r, index, false))
    ensures StaticOk(AttachAt(v, n, c, r, index, false), AttachAt(v, n, c, r, index, false)[n])
  {
    var v' := AttachAt(v, n, c, r, index, false);
    var s, s' := v[n], v'[n];
    assert forall i :: 0 <= i < |s.indices| ==> s'.indices[i] == s.indices[i] && s.indices[i] in s.indices;
    forall i | 0 <= i < |s'.indices|
      ensures var d := v'[s'.children[i]]; d.nType.Static? && d.path != "" && d.path[0] == s'.indices[i]
    {
      if i < |s.indices| {
        var d := v[s.children[i]];
        assert d.nType.Static? && d.path != "" && d.path[0] == s.indices[i];
      }
    }
  }

  lemma AttachShape<N>(root: N, v: Snapshot<N>, n: N, c: N, r: Rec<N>, index: string, wild: bool, m: N)
    requires CanAttach(root, v, n, c, r, index, wild) && m in AttachAt(v, n, c, r, index, wild)
    ensures Closed(AttachAt(v, n, c, r, index, wild)) && Shape(root, AttachAt(v, n, c, r, index, wild), m)
  {
    assert Shape(root, v, n);
    AttachShapeParent(root, v, n, c, r, index, wild);
    if m == c {
      AttachShapeChild(root, v, n, c, r, index, wild);
    } else if m != n {
      AttachShapeOther(root, v, n, c, r, index, wild, m);
    }
  }

  lemma AttachShapeChild<N>(root: N, v: Snapshot<N>, n: N, c: N, r: Rec<N>, index: string, wild: bool)
    requires n in v && c !in v && Hangs(v[n], r, index, wild) && Closed(AttachAt(v, n, c, r, index, wild))
    ensures Shape(root, AttachAt(v, n, c, r, index, wild), c)
  {
  }

  lemma AttachShapeOther<N>(root: N, v: Snapshot<N>, n: N, c: N, r: Rec<N>, index: string, wild: bool, m: N)
    requires Linked(root, v) && n in v && c !in v && Closed(AttachAt(v, n, c, r, index, wild))
    requires m in v && m != n && Shape(root, v, m)
    ensures Shape(root, AttachAt(v, n, c, r, index, wild), m)
  {
  }

  lemma AttachLeads<N>(root: N, v: Snapshot<N>, n: N, c: N, r: Rec<N>, index: string, wild: bool, m1: N, m2: N)
    requires CanAttach(root, v, n, c, r, index, wild)
    requires m1 in AttachAt(v, n, c, r, index, wild) && m2 in AttachAt(v, n, c, r, index, wild)
    ensures Closed(AttachAt(v, n, c, r, index, wild)) && Leads(AttachAt(v, n, c, r, index, wild), m1, m2)
  {
    var v' := AttachAt(v, n, c, r, index, wild);
    if v'[m1].full < v'[m2].full {
      if m1 == c {
        AttachFresh(root, v, n, c, r, index, wild, m2);
        assert false;
      } else if m2 == c {
        AttachBelow(root, v, n, c, r, index, wild, m1);
      } else {
        var j := LeadingChild(root, v, m1, m2);
        assert v'[m1].children[j] == v[m1].children[j];
      }
    }
  }

  lemma AttachBelow<N>(root: N, v: Snapshot<N>, n: N, c: N, r: Rec<N>, index: string, wild: bool, m: N)
    requires CanAttach(root, v, n, c, r, index, wild) && m in v && v[m].full < r.full
    ensures Closed(AttachAt(v, n, c, r, index, wild)) && Covers(AttachAt(v, n, c, r, index, wild), m, r.full)
  {
    var v' := AttachAt(v, n, c, r, index, wild);
    assert v'[n].children[|v[n].children|] == c;
    assert r.base <= r.full;
    if m == n {
      assert v'[v'[n].children[|v[n].children|]].full <= r.full;
    } else if v[m].full < v[n].full {
      var j := LeadingChild(root, v, m, n);
      assert v'[v'[m].children[j]].full <= r.full;
    } else if v[n].full < v[m].full {
      AttachFresh(root, v, n, c, r, index, wild, m);
      assert false;
    } else {
      assert |v[m].full| == |v[n].full| ==> v[m].full == v[n].full;
      assert Apart(v, m, n) && Shape(root, v, m);
      TwinIsParent(root, v, n, m);
      assert v'[v'[m].children[0]].full <= r.full;
    }
  }

  /** A node that stands for the same tokens as a static node, or as a childless one, is its parent. */
  lemma TwinIsParent<N>(root: N, v: Snapshot<N>, n: N, m: N)
    requires Linked(root, v) && n in v && m in v && m != n && v[m].full == v[n].full
    requires v[n].nType.Static? || v[n].children == []
    ensures v[m].children == [n]
  {
    assert Apart(v, m, n) && Shape(root, v, n);
    if v[n].children == [m] {
      var d := v[v[n].children[0]];
      assert Shape(root, v, v[n].children[0]);
      FirstToken(d);
      assert false;
    }
  }

  lemma AttachApart<N>(root: N, v: Snapshot<N>, n: N, c: N, r: Rec<N>, index: string, wild: bool, m1: N, m2: N)
    requires CanAttach(root, v, n, c, r, index, wild)
    requires m1 in AttachAt(v, n, c, r, index, wild) && m2 in AttachAt(v, n, c, r, index, wild)
    ensures Apart(AttachAt(v, n, c, r, index, wild), m1, m2)
  {
    var v' := AttachAt(v, n, c, r, index, wild);
    if m1 != m2 && v'[m1].full == v'[m2].full {
      if m1 == c || m2 == c {
        AttachTwin(root, v, n, c, r, index, wild, if m1 == c then m2 else m1);
      } else {
        assert Apart(v, m1, m2);
        if m1 == n || m2 == n {
          TwinIsParent(root, v, n, if m1 == n then m2 else m1);
        }
      }
    }
  }

  lemma AttachTwin<N>(root: N, v: Snapshot<N>, n: N, c: N, r: Rec<N>, index: string, wild: bool, m: N)
    requires CanAttach(root, v, n, c, r, index, wild) && m in v && v[m].full == r.full
    ensures m == n && v[n].children == []
  {
    if r.path != "" {
      FirstToken(r);
      AttachFresh(root, v, n, c, r, index, wild, m);
      assert false;
    } else if m != n {
      TwinIsParent(root, v, n, m);
      OnlyChild(root, v, m, n);
      assert Shape(root, v, n);
      FirstToken(v[n]);
      assert false;
    }
  }

  lemma AttachOwns<N>(root: N, v: Snapshot<N>, n: N, c: N, r: Rec<N>, index: string, wild: bool, m1: N, m2: N)
    requires CanAttach(root, v, n, c, r, index, wild)
    requires m1 in AttachAt(v, n, c, r, index, wild) && m2 in AttachAt(v, n, c, r, index, wild)
    ensures Owns(AttachAt(v, n, c, r, index, wild), m1, m2)
  {
    var v' := AttachAt(v, n, c, r, index, wild);
    var k := |v'[m1].base|;
    if v'[m1].base < v'[m1].full && v'[m1].full[..k + 1] <= v'[m2].full && m1 != m2 {
      if m1 == c {
        AttachFresh(root, v, n, c, r, index, wild, m2);
        assert false;
      } else if m2 == c {
        var head := v[m1].full[..k + 1];
        if k < |v[n].full| {
          assert head <= v[n].full;
          assert Owns(v, m1, n);
        } else {
          assert v[n].full < head;
          AttachFresh(root, v, n, c, r, index, wild, m1);
          assert false;
        }
      } else {
        assert Owns(v, m1, m2);
      }
    }
  }

  /** Hanging a child whose first token is new below n keeps the tree well formed. */
  lemma AttachKeeps<N>(root: N, v: Snapshot<N>, n: N, c: N, r: Rec<N>, index: string, wild: bool)
    requires CanAttach(root, v, n, c, r, index, wild)
    ensures Linked(root, AttachAt(v, n, c, r, index, wild))
  {
    var v' := AttachAt(v, n, c, r, index, wild);
    AttachShape(root, v, n, c, r, index, wild, root);
    forall m | m in v' ensures Shape(root, v', m) { AttachShape(root, v, n, c, r, index, wild, m); }
    forall m1, m2 | m1 in v' && m2 in v' ensures Leads(v', m1, m2) {
      AttachLeads(root, v, n, c, r, index, wild, m1, m2);
    }
    forall m1, m2 | m1 in v' && m2 in v' ensures Apart(v', m1, m2) {
      AttachApart(root, v, n, c, r, index, wild, m1, m2);
    }
    forall m1, m2 | m1 in v' && m2 in v' ensures Owns(v', m1, m2) { AttachOwns(root, v, n, c, r, index, wild, m1, m2); }
  }

  lemma AttachLive<N>(v: Snapshot<N>, ps: set<Pattern>, n: N, c: N, r: Rec<N>, index: string, wild: bool)
    requires n in v && c !in v && AllLive(v, ps) && Live(r.full, ps)
    ensures AllLive(AttachAt(v, n, c, r, index, wild), ps)
  {
    var v' := AttachAt(v, n, c, r, index, wild);
    forall m | m in v' ensures Live(v'[m].full, ps) {
      assert m != c ==> Live(v[m].full, ps);
    }
  }

  lemma AttachFilled<N>(root: N, v: Snapshot<N>, routes: map<Pattern, Chain>, n: N, c: N, r: Rec<N>, index: string,
      wild: bool)
    requires CanAttach(root, v, n, c, r, index, wild) && Filled(v, routes)
    ensures Filled(AttachAt(v, n, c, r, index, wild), routes)
  {
    var v' := AttachAt(v, n, c, r, index, wild);
    forall m | m in v' ensures HandlersOk(v', routes, m) { assert HandlersOk(v, routes, if m == c then n else m); }
    forall p | p in routes
      ensures Homed(v', p)
    {
      assert Homed(v, p);
      var m :| m in v && v[m].full == p && v[m].handlers.Some?;
      assert m in v' && v'[m].full == p && v'[m].handlers.Some?;
    }
  }

  // ---- setting handlers --------------------------------------------------

  ghost function SetAt<N>(v: Snapshot<N>, n: N, h: Chain): Snapshot<N>
    requires n in v
  {
    v[n := v[n].(handlers := Some(h))]
  }

  lemma SetLive<N>(v: Snapshot<N>, ps: set<Pattern>, n: N, handlers: Chain)
    requires n in v && AllLive(v, ps)
    ensures AllLive(SetAt(v, n, handlers), ps)
  {
    var v' := SetAt(v, n, handlers);
    forall m | m in v' ensures Live(v'[m].full, ps) {
      assert Live(v[m].full, ps);
    }
  }

  lemma SetShape<N>(root: N, v: Snapshot<N>, n: N, h: Chain, m: N)
    requires Linked(root, v) && n in v && (v[n].path != "" || n == root) && m in v
    ensures Closed(SetAt(v, n, h)) && Shape(root, SetAt(v, n, h), m)
  {
    assert Shape(root, v, m);
    SetKeepsShape(root, v, n, h, m);
  }

  lemma SetKeepsShape<N>(root: N, v: Snapshot<N>, n: N, h: Chain, m: N)
    requires Closed(v) && n in v && (v[n].path != "" || n == root) && m in v && Shape(root, v, m)
    ensures Closed(SetAt(v, n, h)) && Shape(root, SetAt(v, n, h), m)
  {
    SetClosed(v, n, h);
    if v[m].nType.Static? {
      SetStatic(v, n, h, m);
    } else {
      SetWild(v, n, h, m);
    }
  }

  lemma SetClosed<N>(v: Snapshot<N>, n: N, h: Chain)
    requires Closed(v) && n in v
    ensures Closed(SetAt(v, n, h))
  {
  }

  lemma SetStatic<N>(v: Snapshot<N>, n: N, h: Chain, m: N)
    requires n in v && m in v && Closed(v) && Closed(SetAt(v, n, h)) && StaticOk(v, v[m])
    ensures StaticOk(SetAt(v, n, h), SetAt(v, n, h)[m])
  {
  }

  lemma SetWild<N>(v: Snapshot<N>, n: N, h: Chain, m: N)
    requires n in v && m in v && Closed(v) && Closed(SetAt(v, n, h)) && WildOk(v, v[m])
    ensures WildOk(SetAt(v, n, h), SetAt(v, n, h)[m])
  {
  }

  lemma SetLeads<N>(root: N, v: Snapshot<N>, n: N, h: Chain, m1: N, m2: N)
    requires Linked(root, v) && n in v && m1 in v && m2 in v
    ensures Closed(SetAt(v, n, h)) && Leads(SetAt(v, n, h), m1, m2)
  {
    var v' := SetAt(v, n, h);
    if v[m1].full < v[m2].full {
      var j := LeadingChild(root, v, m1, m2);
      assert v'[v'[m1].children[j]].full <= v'[m2].full;
    }
  }

  lemma SetLinked<N>(root: N, v: Snapshot<N>, n: N, h: Chain)
    requires Linked(root, v) && n in v && (v[n].path != "" || n == root)
    ensures Linked(root, SetAt(v, n, h))
  {
    var v' := SetAt(v, n, h);
    SetShape(root, v, n, h, root);
    forall m | m in v' ensures Shape(root, v', m) { SetShape(root, v, n, h, m); }
    forall m1, m2 | m1 in v' && m2 in v' ensures Leads(v', m1, m2) { SetLeads(root, v, n, h, m1, m2); }
    forall m1, m2 | m1 in v' && m2 in v' ensures Apart(v', m1, m2) { SetPair(root, v, n, h, m1, m2); }
    forall m1, m2 | m1 in v' && m2 in v' ensures Owns(v', m1, m2) { SetPair(root, v, n, h, m1, m2); }
  }

  lemma SetPair<N>(root: N, v: Snapshot<N>, n: N, h: Chain, m1: N, m2: N)
    requires Linked(root, v) && n in v && m1 in v && m2 in v
    ensures Apart(SetAt(v, n, h), m1, m2) && Owns(SetAt(v, n, h), m1, m2)
  {
    assert Apart(v, m1, m2) && Owns(v, m1, m2);
  }

  /** Handlers set on a node that is not an empty child become the handlers of exactly its pattern. */
  lemma SetFilled<N>(root: N, v: Snapshot<N>, routes: map<Pattern, Chain>, n: N, h: Chain)
    requires Linked(root, v) && Filled(v, routes)
    requires n in v && (v[n].path != "" || n == root)
    ensures Filled(SetAt(v, n, h), routes[v[n].full := h])
  {
    var v' := SetAt(v, n, h);
    var routes' := routes[v[n].full := h];
    forall m | m in v'
      ensures HandlersOk(v', routes', m)
    {
      assert HandlersOk(v, routes, m);
      if m != n && v[m].full == v[n].full {
        TwinHasNone(root, v, n, m);
      }
    }
    forall p | p in routes'
      ensures Homed(v', p)
    {
      if p == v[n].full {
        assert v'[n].full == p && v'[n].handlers.Some?;
      } else {
        assert Homed(v, p);
        var m :| m in v && v[m].full == p && v[m].handlers.Some?;
        assert m in v' && v'[m].full == p && v'[m].handlers.Some?;
      }
    }
  }

  /** The empty twin of a node never carries handlers. */
  lemma TwinHasNone<N>(root: N, v: Snapshot<N>, n: N, m: N)
    requires Linked(root, v)
    requires n in v && (v[n].path != "" || n == root)
    requires m in v && m != n && v[m].full == v[n].full
    ensures v[m].handlers == None
  {
    assert Apart(v, n, m) && Shape(root, v, n) && Shape(root, v, m);
    OnlyChild(root, v, n, m);
    OnlyChild(root, v, m, n);
    if v[m].path != "" {
      FirstToken(v[m]);
    }
    if v[n].path != "" {
      FirstToken(v[n]);
    }
    if n == root && v[m].path == "" {
      assert m != root;
    }
  }

  // ---- walking down --------------------------------------------------------

  /** In a conflict-free set a wildcard on the way of a pattern is the pattern's own. */
  lemma Agree<N>(root: N, v: Snapshot<N>, ps: set<Pattern>, n: N, r: Pattern)
    requires Linked(root, v) && AllLive(v, ps) && ConflictFree(ps)
    requires n in v && v[n].path != "" && r in ps && v[n].base < r
    ensures |v[n].base| < |v[n].full|
    ensures var k := |v[n].base|; IsWild(v[n].full[k]) || IsWild(r[k]) ==> v[n].full[k] == r[k]
  {
    assert Shape(root, v, n);
    FirstToken(v[n]);
    var k := |v[n].base|;
    assert Live(v[n].full, ps);
    var q :| q in ps && v[n].full <= q;
    assert Compatible(q, r);
    assert q[..k] == v[n].base == r[..k];
  }

  /** Once a node's text is consumed, the rest of the pattern hangs below the node. */
  lemma Consume<N>(r: Rec<N>, rest: string)
    requires TextOk(r) && r.path <= rest
    requires !r.nType.Static? ==> rest == r.path || rest[|r.path|] == '/'
    ensures r.base + Tokens(rest) == r.full + Tokens(rest[|r.path|..])
  {
    var tail := rest[|r.path|..];
    assert rest == r.path + tail;
    if r.nType.Static? {
      TokensPlain(r.path, tail);
    } else {
      FirstWild(r);
      assert rest == [r.path[0]] + r.paramName + tail;
      TokensWild(r.path[0], r.paramName, tail);
      assert Tokens(r.path) == [WildToken(r.path[0], r.paramName)];
    }
    Regroup(r.base, Tokens(r.path), Tokens(tail));
  }

  /** A pattern that reaches a wildcard node spells out that wildcard and goes on with '/' or ends. */
  lemma WildFits<N>(root: N, v: Snapshot<N>, ps: set<Pattern>, n: N, rest: string)
    requires Linked(root, v) && AllLive(v, ps) && ConflictFree(ps)
    requires n in v && !v[n].nType.Static? && v[n].path != "" && rest != "" && v[n].base + Tokens(rest) in ps
    ensures v[n].path != "" && v[n].path <= rest && (rest == v[n].path || rest[|v[n].path|] == '/')
    ensures rest[0] == v[n].path[0]
  {
    var r := v[n];
    assert Shape(root, v, n);
    assert r.path == [r.path[0]] + r.paramName;
    Agree(root, v, ps, n, r.base + Tokens(rest));
    FirstWild(r);
    SpelledOut(r.path[0], r.paramName, rest);
  }

  lemma FirstWild<N>(r: Rec<N>)
    requires TextOk(r) && !r.nType.Static?
    ensures r.full == r.base + [WildToken(r.path[0], r.paramName)] && IsWildMark(r.path[0])
    ensures Tokens(r.path) == [WildToken(r.path[0], r.paramName)]
  {
    TokensWild(r.path[0], r.paramName, "");
    assert [r.path[0]] + r.paramName + "" == r.path;
  }

  /** Below bare text, a pattern that goes on with a wildcard finds no child. */
  lemma NoChildYet<N>(root: N, v: Snapshot<N>, ps: set<Pattern>, n: N, rest: string)
    requires Linked(root, v) && AllLive(v, ps) && ConflictFree(ps)
    requires n in v && v[n].nType.Static? && !v[n].wildChild
    requires rest != "" && IsWildMark(rest[0]) && v[n].full + Tokens(rest) in ps
    ensures v[n].children == []
  {
    assert Shape(root, v, n);
    if v[n].children != [] {
      var d := v[n].children[0];
      assert v[d].base == v[n].full && v[d].nType.Static? && v[d].path != "";
      assert Shape(root, v, d);
      Agree(root, v, ps, d, v[n].full + Tokens(rest));
      FirstToken(v[d]);
      TokensWildHead(rest);
      assert false;
    }
  }

  /** The child an index byte leads to, or the wildcard child, continues the pattern. */
  lemma NextChild<N>(root: N, v: Snapshot<N>, ps: set<Pattern>, n: N, j: nat, rest: string)
    requires Linked(root, v) && AllLive(v, ps) && ConflictFree(ps)
    requires n in v && j < |v[n].children| && rest != "" && v[n].full + Tokens(rest) in ps
    requires !v[n].wildChild && v[n].nType.Static? ==> j < |v[n].indices| && v[n].indices[j] == rest[0]
    requires !v[n].wildChild && !v[n].nType.Static? ==> rest[0] == '/'
    ensures v[n].children[j] in v
    ensures var d := v[v[n].children[j]]; d.base == v[n].full && (d.path != "" ==> d.path[0] == rest[0])
    ensures v[n].nType.Static? ==> v[v[n].children[j]].path != ""
  {
    assert Shape(root, v, n);
    var c := v[n].children[j];
    assert Shape(root, v, c);
    if v[n].wildChild {
      WildFits(root, v, ps, c, rest);
    }
  }
}
