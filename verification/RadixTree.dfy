/**
 * The mutable radix tree behind one HTTP method: insertion splits and grows
 * nodes in place, lookup walks down once without backtracking. The tree is
 * proved to be an index of the route list: lookup agrees with Scan.
 */
module RadixTree {
  import opened Numbers
  import opened Options
  import opened RoutePatterns
  import opened RouteMeaning
  import opened TreeShape
  import opened TreeLookup

  class Node {
    var path: string
    var indices: string
    var wildChild: bool
    var nType: NodeType
    var paramName: string
    var children: seq<Node>
    var handlers: Option<Chain>

    ghost var base: Pattern
    ghost var full: Pattern

    constructor (path: string, nType: NodeType, paramName: string, ghost base: Pattern)
      ensures Fields() == Rec(path, "", false, nType, paramName, [], None, base, base + Tokens(path))
    {
      this.path, this.nType, this.paramName := path, nType, paramName;
      indices, wildChild, children, handlers := "", false, [], None;
      this.base, full := base, base + Tokens(path);
    }

    /** Keeps the text before position i here and moves everything else to a new child. */
    method SplitText(i: nat, ghost mid: Pattern) returns (child: Node)
      requires i < |path| && nType.Static?
      requires mid == base + Tokens(path[..i]) && full == mid + Tokens(path[i..])
      modifies this
      ensures fresh(child)
      ensures Fields() == Head(old(Fields()), i, child) && child.Fields() == Tail(old(Fields()), i)
    {
      child := new Node(path[i..], nType, paramName, mid);
      child.indices, child.wildChild, child.children, child.handlers := indices, wildChild, children, handlers;
      children := [child];
      indices := [path[i]];
      path := path[..i];
      handlers := None;
      wildChild := false;
      paramName := "";
      nType := Static;
      full := mid;
    }

    ghost function Fields(): Rec<Node>
      reads this
    {
      Rec(path, indices, wildChild, nType, paramName, children, handlers, base, full)
    }
  }

  /** The length of the longest common prefix. */
  method LongestCommonPrefix(a: string, b: string) returns (i: nat)
    ensures i <= |a| && i <= |b| && a[..i] == b[..i]
    ensures i < |a| && i < |b| ==> a[i] != b[i]
  {
    i := 0;
    var max := |a|;
    if |b| < max { max := |b|; }
    while i < max && a[i] == b[i]
      invariant i <= max && a[..i] == b[..i]
    {
      i := i + 1;
    }
  }

  /** The first position of c in s, or -1. */
  function IndexByte(s: string, c: char): (k: int)
    ensures -1 <= k < |s|
    ensures k == -1 ==> c !in s
    ensures k >= 0 ==> s[k] == c
  {
    if s == "" then -1
    else if s[0] == c then 0
    else
      var k := IndexByte(s[1..], c);
      if k == -1 then -1 else k + 1
  }

  /** The length of the text before the first wildcard mark. */
  function PlainPrefix(s: string): (k: nat)
    ensures k <= |s| && Plain(s[..k])
    ensures k < |s| ==> IsWildMark(s[k])
  {
    if s == "" || IsWildMark(s[0]) then 0
    else
      var k := PlainPrefix(s[1..]);
      assert s[..k + 1] == [s[0]] + s[1..][..k];
      k + 1
  }

  class Tree {
    var root: Node
    ghost var Repr: set<Node>
    ghost var routes: map<Pattern, Chain>
    ghost var added: seq<Route>

    ghost function View(): Snapshot<Node>
      reads `Repr, Repr
    {
      map n | n in Repr :: n.Fields()
    }

    ghost predicate Indexed()
      reads `root, `Repr, `routes, Repr
    {
      Linked(root, View()) && Filled(View(), routes)
    }

    /** Well formed, with every node on the way to some pattern of the conflict-free set ps. */
    ghost predicate Ready(ps: set<Pattern>)
      reads `root, `Repr, `routes, Repr
    {
      Indexed() && AllLive(View(), ps) && ConflictFree(ps)
    }

    /** Insertion has come to n with the text rest still to place, n's own text included. */
    ghost predicate At(n: Node, rest: string, ps: set<Pattern>)
      reads `root, `Repr, `routes, Repr, n
    {
      && Ready(ps) && n in Repr && n.base + Tokens(rest) in ps
      && (rest != "" || n == root)
      && (n.path != "" ==> rest != "" && rest[0] == n.path[0])
    }

    ghost predicate Valid()
      reads this, Repr
    {
      Ready(routes.Keys + {[]}) && routes == Table(added) && AllProper(routes.Keys)
    }

    constructor ()
      ensures Valid() && fresh(Repr) && added == []
    {
      root := new Node("", Static, "", []);
      new;
      Repr, routes, added := {root}, map[], [];
      EmptyTree(root, View());
      assert routes.Keys + {[]} == {[]};
    }

    /** Splits the text of a static node of the tree at position i. */
    method Split(n: Node, i: nat, ghost ps: set<Pattern>)
      requires Ready(ps)
      requires n in Repr && n.nType.Static? && 0 < i < |n.path|
      modifies this`Repr, n
      ensures Ready(ps) && (forall n :: n in Repr ==> n in old(Repr) || fresh(n)) && old(Repr) <= Repr
      ensures exists child :: child in Repr && fresh(child)
                && n.Fields() == Head(old(n.Fields()), i, child) && child.Fields() == Tail(old(n.Fields()), i)
    {
      ghost var was := View();
      SplitTokensOf(n, i);
      var child := n.SplitText(i, n.base + Tokens(n.path[..i]));
      SplitKeeps(root, was, n, i, child);
      SplitFilled(root, was, routes, n, i, child);
      SplitLive(root, was, ps, n, i, child);
      Repr := Repr + {child};
      assert View() == SplitAt(was, n, i, child);
    }

    lemma SplitTokensOf(n: Node, i: nat)
      requires Indexed() && n in Repr && n.nType.Static? && 0 < i < |n.path|
      ensures n.full == (n.base + Tokens(n.path[..i])) + Tokens(n.path[i..])
    {
      assert Shape(root, View(), n);
      SplitTokens(n.Fields(), i);
      var a, b := Tokens(n.path[..i]), Tokens(n.path[i..]);
      assert (n.base + a) + b == n.base + (a + b);
    }

    /** Hangs the new node c below n. */
    method Attach(n: Node, c: Node, index: string, wild: bool, ghost ps: set<Pattern>)
      requires Ready(ps)
      requires n in Repr && c !in Repr && Hangs(n.Fields(), c.Fields(), index, wild)
      requires Live(c.full, ps)
      modifies this`Repr, n`indices, n`children, n`wildChild
      ensures Ready(ps) && Repr == old(Repr) + {c}
    {
      ghost var was := View();
      AttachKeeps(root, was, n, c, c.Fields(), index, wild);
      AttachFilled(root, was, routes, n, c, c.Fields(), index, wild);
      AttachLive(was, ps, n, c, c.Fields(), index, wild);
      n.wildChild := wild;
      n.indices := n.indices + index;
      n.children := n.children + [c];
      Repr := Repr + {c};
      assert View() == AttachAt(was, n, c, old(c.Fields()), index, wild);
    }

    method SetHandlers(n: Node, handlers: Chain, ghost ps: set<Pattern>)
      requires Ready(ps)
      requires n in Repr && (n.path != "" || n == root)
      modifies this`routes, n`handlers
      ensures Ready(ps) && routes == old(routes)[n.full := handlers]
    {
      ghost var was := View();
      SetLinked(root, was, n, handlers);
      SetFilled(root, was, routes, n, handlers);
      SetLive(was, ps, n, handlers);
      n.handlers := Some(handlers);
      routes := routes[n.full := handlers];
      assert View() == SetAt(was, n, handlers);
    }

    /** Hangs the wildcard at the head of rest below the bare text of n. */
    method AttachWildcard(n: Node, rest: string, ghost ps: set<Pattern>) returns (child: Node)
      requires Ready(ps)
      requires n in Repr && n.nType.Static? && !n.wildChild && n.children == []
      requires rest != "" && IsWildMark(rest[0]) && n.full + Tokens(rest) in ps
      modifies this`Repr, n`indices, n`children, n`wildChild
      ensures Ready(ps) && fresh(child) && Repr == old(Repr) + {child}
      ensures var end := Segment(rest);
              && !child.nType.Static? && child.path == rest[..end] && child.path != ""
              && child.children == [] && child.indices == "" && !child.wildChild
              && child.full + Tokens(rest[end..]) == n.full + Tokens(rest)
              && (rest[end..] == "" || rest[end..][0] == '/')
    {
      var childType := ParamNode;
      if rest[0] == '*' {
        childType := CatchAllNode;
      }
      var end := Segment(rest);
      TokensWildHead(rest);
      child := new Node(rest[..end], childType, rest[1..end], n.full);
      Regroup(n.full, Tokens(rest[..end]), Tokens(rest[end..]));
      Attach(n, child, "", true, ps);
    }

    /** Adds the wildcard at the head of rest below n, and the text behind it below that. */
    method AddWildcard(n: Node, rest: string, handlers: Chain, ghost ps: set<Pattern>)
      requires Ready(ps)
      requires n in Repr && n.nType.Static? && !n.wildChild && n.children == []
      requires rest != "" && IsWildMark(rest[0]) && n.full + Tokens(rest) in ps
      modifies this`Repr, this`routes, Repr
      ensures Ready(ps) && (forall n :: n in Repr ==> n in old(Repr) || fresh(n)) && old(Repr) <= Repr
      ensures routes == old(routes)[old(n.full) + Tokens(rest) := handlers]
      decreases |rest|, 0
    {
      ghost var r := n.full + Tokens(rest);
      var end := Segment(rest);
      var child := AttachWildcard(n, rest, ps);
      if end == |rest| {
        assert child.full == r;
        SetHandlers(child, handlers, ps);
      } else {
        AddBehind(child, rest[end..], handlers, ps);
      }
    }

    /** Adds the text behind a childless wildcard below it. */
    method AddBehind(n: Node, rest: string, handlers: Chain, ghost ps: set<Pattern>)
      requires Ready(ps)
      requires n in Repr && !n.nType.Static? && n.children == [] && !n.wildChild
      requires rest != "" && n.full + Tokens(rest) in ps
      modifies this`Repr, this`routes, Repr
      ensures Ready(ps) && (forall n :: n in Repr ==> n in old(Repr) || fresh(n)) && old(Repr) <= Repr
      ensures routes == old(routes)[old(n.full) + Tokens(rest) := handlers]
      decreases |rest|, 3
    {
      var child := AttachEmpty(n, ps);
      InsertChild(child, rest, handlers, ps);
    }

    /** Hangs an empty node below a childless wildcard. */
    method AttachEmpty(n: Node, ghost ps: set<Pattern>) returns (child: Node)
      requires Ready(ps)
      requires n in Repr && !n.nType.Static? && n.children == [] && !n.wildChild
      modifies this`Repr, n`indices, n`children, n`wildChild
      ensures Ready(ps) && fresh(child) && Repr == old(Repr) + {child}
      ensures child.nType.Static? && child.path == "" && child.base == child.full == n.full
    {
      child := new Node("", Static, "", n.full);
      assert child.full == n.full;
      assert Live(View()[n].full, ps);
      Attach(n, child, "", false, ps);
    }

    /** Adds the rest of a pattern below n, which has no child to continue with. */
    method AddBelow(n: Node, rest: string, handlers: Chain, ghost ps: set<Pattern>)
      requires Ready(ps)
      requires n in Repr && !n.wildChild && rest != "" && n.full + Tokens(rest) in ps && rest[0] !in n.indices
      requires !n.nType.Static? ==> rest[0] == '/' && n.children == []
      modifies this`Repr, this`routes, Repr
      ensures Ready(ps) && (forall n :: n in Repr ==> n in old(Repr) || fresh(n)) && old(Repr) <= Repr
      ensures routes == old(routes)[old(n.full) + Tokens(rest) := handlers]
      decreases |rest|, 1
    {
      if IsWildMark(rest[0]) {
        NoChildYet(root, View(), ps, n, rest);
        AddWildcard(n, rest, handlers, ps);
        return;
      }
      var child := AttachText(n, rest, ps);
      var p := PlainPrefix(rest);
      if p < |rest| {
        AddWildcard(child, rest[p..], handlers, ps);
      } else {
        assert child.full + Tokens(rest[p..]) == child.full;
        SetHandlers(child, handlers, ps);
      }
    }

    /** Cuts n's text down to what it shares with rest. */
    method Fit(n: Node, rest: string, ghost ps: set<Pattern>) returns (i: nat)
      requires At(n, rest, ps)
      modifies this`Repr, n
      ensures Ready(ps) && (forall n :: n in Repr ==> n in old(Repr) || fresh(n)) && old(Repr) <= Repr
      ensures i <= |rest| && n.path == rest[..i] && (old(n.path) != "" ==> 0 < i)
      ensures n.full + Tokens(rest[i..]) == old(n.base) + Tokens(rest)
      ensures !n.nType.Static? ==> 0 < i && (i < |rest| ==> rest[i] == '/')
    {
      i := LongestCommonPrefix(rest, n.path);
      FullText(n, rest, i, ps);
      if i < |n.path| {
        Split(n, i, ps);
      }
      Advance(n, rest, i, ps);
    }

    method InsertChild(start: Node, path: string, handlers: Chain, ghost ps: set<Pattern>)
      requires Ready(ps)
      requires start in Repr && start.nType.Static? && start.path == "" && (path != "" || start == root)
      requires start.full == start.base && start.full + Tokens(path) in ps
      modifies this`Repr, this`routes, Repr
      ensures Ready(ps) && (forall n :: n in Repr ==> n in old(Repr) || fresh(n)) && old(Repr) <= Repr
      ensures routes == old(routes)[old(start.full) + Tokens(path) := handlers]
      decreases |path|, 2
    {
      ghost var r := start.full + Tokens(path);
      var n, rest := start, path;
      while true
        invariant At(n, rest, ps) && |rest| <= |path| && n.base + Tokens(rest) == r
        invariant (forall n :: n in Repr ==> n in old(Repr) || fresh(n)) && old(Repr) <= Repr && routes == old(routes)
        decreases |rest|, if n.path == "" then 1 else 0
      {
        var i := Fit(n, rest, ps);
        if i == |rest| {
          assert n.full + Tokens(rest[i..]) == n.full;
          SetHandlers(n, handlers, ps);
          return;
        }
        rest := rest[i..];
        var j := ChildFor(n, rest, ps);
        if j == -1 {
          AddBelow(n, rest, handlers, ps);
          return;
        }
        n := n.children[j];
      }
    }

    /** A common prefix stops inside a node's text only for bare text, and not before its first character. */
    lemma FullText(n: Node, rest: string, i: nat, ps: set<Pattern>)
      requires At(n, rest, ps)
      requires i <= |rest| && i <= |n.path| && rest[..i] == n.path[..i]
      requires i < |rest| && i < |n.path| ==> rest[i] != n.path[i]
      ensures i < |n.path| ==> n.nType.Static? && 0 < i
      ensures !n.nType.Static? ==> 0 < i
      ensures i == |n.path| && !n.nType.Static? ==> rest[i..] == "" || rest[i..][0] == '/'
    {
      assert Shape(root, View(), n);
      if !n.nType.Static? {
        WildFits(root, View(), ps, n, rest);
      }
    }

    lemma Advance(n: Node, rest: string, i: nat, ps: set<Pattern>)
      requires Ready(ps) && n in Repr
      requires i <= |rest| && n.path == rest[..i]
      requires !n.nType.Static? ==> rest[i..] == "" || rest[i..][0] == '/'
      ensures n.base + Tokens(rest) == n.full + Tokens(rest[i..])
    {
      assert Shape(root, View(), n);
      Consume(n.Fields(), rest);
    }

    /** The child that continues the pattern: the wildcard child, the child behind a parameter, or by first byte. */
    method ChildFor(n: Node, rest: string, ghost ps: set<Pattern>) returns (j: int)
      requires Ready(ps)
      requires n in Repr && rest != "" && n.full + Tokens(rest) in ps
      requires !n.nType.Static? ==> rest[0] == '/'
      ensures -1 <= j < |n.children|
      ensures j != -1 ==>
                && At(n.children[j], rest, ps) && n.children[j].base == n.full
                && (n.nType.Static? ==> n.children[j].path != "")
      ensures j == -1 ==> !n.wildChild && rest[0] !in n.indices && (!n.nType.Static? ==> n.children == [])
    {
      assert Shape(root, View(), n);
      if n.wildChild {
        j := 0;
      } else if !n.nType.Static? && rest[0] == '/' && |n.children| == 1 {
        j := 0;
      } else {
        j := IndexByte(n.indices, rest[0]);
      }
      if j != -1 {
        NextChild(root, View(), ps, n, j, rest);
      }
    }

    /** Hangs the text up to the first wildcard mark below n. */
    method AttachText(n: Node, rest: string, ghost ps: set<Pattern>) returns (child: Node)
      requires Ready(ps)
      requires n in Repr && rest != "" && !IsWildMark(rest[0]) && n.full + Tokens(rest) in ps
      requires !n.wildChild && rest[0] !in n.indices
      requires !n.nType.Static? ==> rest[0] == '/' && n.children == []
      modifies this`Repr, n`indices, n`children, n`wildChild
      ensures Ready(ps) && fresh(child) && Repr == old(Repr) + {child}
      ensures var p := PlainPrefix(rest);
              && child.nType.Static? && child.path == rest[..p] && child.path != ""
              && child.children == [] && !child.wildChild
              && child.full + Tokens(rest[p..]) == n.full + Tokens(rest)
    {
      var p := PlainPrefix(rest);
      assert rest == rest[..p] + rest[p..];
      TextHead(n.full, rest[..p], rest[p..]);
      child := new Node(rest[..p], Static, "", n.full);
      Attach(n, child, [rest[0]], false, ps);
    }

    method AddRoute(path: string, handlers: Chain)
      requires Valid() && ConflictFree(routes.Keys + {Tokens(path)})
      modifies this, Repr
      ensures Valid() && (forall n :: n in Repr ==> n in old(Repr) || fresh(n))
      ensures added == old(added) + [Route(Tokens(path), handlers)]
    {
      ghost var ps := routes.Keys + {Tokens(path), []};
      BeforeAdd(path, ps);
      TableExtends(added, Route(Tokens(path), handlers));
      KeysExtend(routes, path, handlers);
      added := added + [Route(Tokens(path), handlers)];
      InsertChild(root, path, handlers, ps);
    }

    lemma BeforeAdd(path: string, ps: set<Pattern>)
      requires Valid() && ConflictFree(routes.Keys + {Tokens(path)})
      requires ps == routes.Keys + {Tokens(path), []}
      ensures Ready(ps)
      ensures root.nType.Static? && root.path == "" && root.base == root.full
      ensures root.full + Tokens(path) == Tokens(path)
    {
      assert Shape(root, View(), root);
      forall n | n in Repr ensures Live(View()[n].full, ps) {
        assert Live(View()[n].full, routes.Keys + {[]});
      }
      assert routes.Keys + {Tokens(path)} + {[]} == ps;
    }

    /**
     * The handlers of the one route whose text reads as the path, with its values appended
     * to params under the names of its wildcards, in path order; or nothing when no route does.
     */
    method GetValue(path: string, params: seq<Binding>, u: Unescape)
      returns (handlers: Option<Chain>, found: seq<Binding>)
      requires Valid()
      ensures match Scan(u, added, path)
              case None => handlers == None
              case Some(hit) => handlers == Some(hit.0) && found == params + hit.1
      ensures match handlers
              case None => NothingReads(routes.Keys, path)
              case Some(chain) => params <= found && Answer(u, routes, path, chain, found[|params|..])
    {
      ScanMeans(u, added, path);
      handlers, found := Walk(path, params, u);
    }

    /** The walk: from the root to a child in every turn. */
    method Walk(path: string, params: seq<Binding>, u: Unescape)
      returns (handlers: Option<Chain>, found: seq<Binding>)
      requires Valid()
      ensures params <= found && Answers(u, path, handlers, found[|params|..])
    {
      ghost var acc: seq<Binding> := [];
      var n, rest := root, path;
      found := params;
      ghost var longest := Longest(View());
      Begin(u, path);
      while true
        invariant Stands(n, u, path, acc, rest) && found == params + acc
        decreases longest - |n.full|
      {
        assert n in View();
        var next, here, bound, left := Visit(n, rest, u, path, acc);
        Regroup(params, acc, bound);
        found, acc := found + bound, acc + bound;
        if next.None? {
          assert found[|params|..] == acc;
          return here, found;
        }
        n, rest := next.value, left;
      }
    }

    /** What the walk returns is what the scan of the routes returns. */
    ghost predicate Answers(u: Unescape, path: string, handlers: Option<Chain>, bound: seq<Binding>)
      reads this
    {
      match Scan(u, added, path)
      case None => handlers == None
      case Some(hit) => handlers == Some(hit.0) && hit.1 == bound
    }

    /** The walk stands at n with the text that is left, n's own text included. */
    ghost predicate Stands(n: Node, u: Unescape, path: string, acc: seq<Binding>, left: string)
      reads this, Repr
    {
      && Indexed() && n in Repr && n.nType.Static? && (left != "" || n == root)
      && Tracks(View(), routes, n, u, path, acc, left)
    }

    /** The walk goes on below n, at c. */
    ghost predicate Continues(n: Node, c: Node, u: Unescape, path: string, acc: seq<Binding>, left: string)
      reads this, Repr, n, c
    {
      Stands(c, u, path, acc, left) && |n.full| < |c.full|
    }

    /** One turn of the walk: the node's text, and then a child by its first character or a wildcard. */
    method Visit(n: Node, rest: string, u: Unescape, ghost path: string, ghost acc: seq<Binding>)
      returns (next: Option<Node>, handlers: Option<Chain>, bound: seq<Binding>, left: string)
      requires Valid() && Stands(n, u, path, acc, rest)
      ensures next.None? ==> Answers(u, path, handlers, acc + bound)
      ensures next.Some? ==> Continues(n, next.value, u, path, acc + bound, left)
    {
      bound, left := [], "";
      assert acc + bound == acc;
      TextStep(root, View(), routes, n, u, path, acc, rest);
      var prefix := n.path;
      if !(prefix <= rest) {
        NothingFound(u, path);
        return None, None, bound, left;
      }
      left := rest[|prefix|..];
      if left == "" {
        FoundHere(n, u, path, acc);
        return None, n.handlers, bound, left;
      }
      if n.wildChild {
        next, handlers, bound, left := PastWildcard(n, left, u, path, acc);
      } else {
        next := PastByte(n, left, u, path, acc);
        handlers := None;
      }
    }

    /** The child whose text begins with the next character, if there is one. */
    method PastByte(n: Node, rest: string, u: Unescape, ghost path: string, ghost acc: seq<Binding>)
      returns (next: Option<Node>)
      requires Valid() && n in Repr && n.nType.Static? && !n.wildChild
      requires rest != "" && Beyond(View(), routes, n, u, path, acc, rest)
      ensures next.None? ==> Answers(u, path, None, acc)
      ensures next.Some? ==> Continues(n, next.value, u, path, acc, rest)
    {
      var idx := IndexByte(n.indices, rest[0]);
      ByteStep(root, View(), routes, n, idx, u, path, acc, rest);
      if idx == -1 {
        NothingFound(u, path);
        return None;
      }
      next := Some(n.children[idx]);
    }

    /** The wildcard half of the walk: binds a value, and stops or goes on below with the text that is left. */
    method PastWildcard(n: Node, rest: string, u: Unescape, ghost path: string, ghost acc: seq<Binding>)
      returns (next: Option<Node>, handlers: Option<Chain>, bound: seq<Binding>, left: string)
      requires Valid() && n in Repr && n.nType.Static? && n.wildChild
      requires rest != "" && Beyond(View(), routes, n, u, path, acc, rest)
      ensures next.None? ==> Answers(u, path, handlers, acc + bound)
      ensures next.Some? ==> Continues(n, next.value, u, path, acc + bound, left)
    {
      ghost var view := View();
      WildStep(root, view, routes, n, u, path, acc, rest);
      var w := n.children[0];
      var end := if w.nType.ParamNode? then Segment(rest) else |rest|;
      assert rest[..|rest|] == rest;
      bound, left := Bind(u, w.paramName, rest[..end]), rest[end..];
      if left == "" {
        FoundHere(w, u, path, acc + bound);
        return None, w.handlers, bound, left;
      }
      SlashStep(root, view, routes, w, u, path, acc + bound, left);
      if w.children == [] {
        NothingFound(u, path);
        return None, None, bound, left;
      }
      next, handlers := Some(w.children[0]), None;
    }

    lemma Begin(u: Unescape, path: string)
      requires Valid()
      ensures Stands(root, u, path, [], path)
    {
      assert Shape(root, View(), root);
      forall r | r in routes
        ensures Match(u, r, path) == Prepend([], Match(u, r[0..], path))
      {
        assert r[0..] == r;
        PrependTwice([], [], Match(u, r, path));
      }
    }

    lemma NothingFound(u: Unescape, path: string)
      requires Valid() && NoneMatch(routes, u, path)
      ensures forall bound :: Answers(u, path, None, bound)
    {
      ScanIsTable(u, added, path);
    }

    lemma FoundHere(n: Node, u: Unescape, path: string, acc: seq<Binding>)
      requires Valid() && n in Repr && (n.path != "" || n == root)
      requires Beyond(View(), routes, n, u, path, acc, "")
      ensures Answers(u, path, n.handlers, acc)
    {
      EndOfText(View(), routes, n, u, path, acc);
      HandlersExact(root, View(), routes, n);
      ScanIsTable(u, added, path);
      assert n.full in routes ==> Match(u, n.full, path) == Some(acc);
    }
  }

  /** A pattern's bare beginning and its continuation. */
  lemma TextHead(full: Pattern, head: string, tail: string)
    requires Plain(head)
    ensures (full + Tokens(head)) + Tokens(tail) == full + Tokens(head + tail)
    ensures full + Tokens(head) <= full + Tokens(head + tail)
  {
    TokensPlain(head, tail);
    Regroup(full, Tokens(head), Tokens(tail));
  }

  lemma KeysExtend(routes: map<Pattern, Chain>, path: string, handlers: Chain)
    ensures routes[Tokens(path) := handlers].Keys + {[]} == routes.Keys + {Tokens(path), []}
    ensures AllProper(routes.Keys) ==> AllProper(routes[Tokens(path) := handlers].Keys)
  {
    TokensSpell(path);
  }

  lemma TableExtends(added: seq<Route>, r: Route)
    ensures Table(added + [r]) == Table(added)[r.pattern := r.handlers]
  {
    assert (added + [r])[..|added|] == added;
  }
}
