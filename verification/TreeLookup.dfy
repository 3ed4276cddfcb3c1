/**
 * What lookup knows at each step, as facts about a snapshot of the tree: for
 * every route, whether the whole path matches it is decided by what is still
 * to come below the current node.
 */
module TreeLookup {
  import opened Options
  import opened RoutePatterns
  import opened TreeShape

  /** Text still to match, the node's own text included. */
  ghost predicate Tracks<N>(v: Snapshot<N>, routes: map<Pattern, Chain>, n: N, u: Unescape, path: string,
                            acc: seq<Binding>, rest: string)
    requires n in v
  {
    && v[n].base <= v[n].full
    && forall r {:trigger Match(u, r, path)} :: r in routes ==>
         Match(u, r, path) == if v[n].full <= r then Prepend(acc, Match(u, r[|v[n].base|..], rest)) else None
  }

  /** Text still to match once the node's own text has been matched. */
  ghost predicate Beyond<N>(v: Snapshot<N>, routes: map<Pattern, Chain>, n: N, u: Unescape, path: string,
                            acc: seq<Binding>, rest: string)
    requires n in v
  {
    forall r {:trigger Match(u, r, path)} :: r in routes ==>
      Match(u, r, path) == if v[n].full <= r then Prepend(acc, Match(u, r[|v[n].full|..], rest)) else None
  }

  ghost predicate NoneMatch(routes: map<Pattern, Chain>, u: Unescape, path: string) {
    forall r {:trigger Match(u, r, path)} :: r in routes ==> Match(u, r, path) == None
  }

  /** A route that goes on below a node goes on through one of its children. */
  lemma RouteGoesOn<N>(root: N, v: Snapshot<N>, routes: map<Pattern, Chain>, n: N, r: Pattern) returns (j: nat)
    requires Linked(root, v) && Filled(v, routes) && n in v && r in routes && v[n].full < r
    ensures j < |v[n].children| && v[n].children[j] in v
    ensures v[v[n].children[j]].full <= r && v[v[n].children[j]].base == v[n].full
  {
    assert Homed(v, r);
    var m :| m in v && v[m].full == r && v[m].handlers.Some?;
    j := LeadingChild(root, v, n, m);
  }

  /** A node that is not an empty child carries exactly the handlers of its pattern. */
  lemma HandlersExact<N>(root: N, v: Snapshot<N>, routes: map<Pattern, Chain>, n: N)
    requires Linked(root, v) && Filled(v, routes) && n in v && (v[n].path != "" || n == root)
    ensures v[n].handlers == if v[n].full in routes then Some(routes[v[n].full]) else None
  {
    assert HandlersOk(v, routes, n);
    if v[n].full in routes {
      assert Homed(v, v[n].full);
      var m :| m in v && v[m].full == v[n].full && v[m].handlers.Some?;
      if m != n {
        TwinHasNone(root, v, n, m);
      }
    }
  }

  /** The node's text is matched, or nothing is. */
  lemma TextStep<N>(root: N, v: Snapshot<N>, routes: map<Pattern, Chain>, n: N, u: Unescape, path: string,
                    acc: seq<Binding>, rest: string)
    requires Linked(root, v) && n in v && v[n].nType.Static? && Tracks(v, routes, n, u, path, acc, rest)
    ensures v[n].path <= rest ==> Beyond(v, routes, n, u, path, acc, rest[|v[n].path|..])
    ensures !(v[n].path <= rest) ==> NoneMatch(routes, u, path)
  {
    var s := v[n];
    assert Shape(root, v, n);
    forall r | r in routes && s.full <= r
      ensures Match(u, r[|s.base|..], rest) ==
                if s.path <= rest then Match(u, r[|s.full|..], rest[|s.path|..]) else None
    {
      assert r[|s.base|..] == Tokens(s.path) + r[|s.full|..] by {
        assert r == s.full + r[|s.full|..];
      }
      MatchPlain(u, s.path, r[|s.full|..], rest);
    }
  }

  /** When no text is left, only the node's own pattern matches. */
  lemma EndOfText<N>(v: Snapshot<N>, routes: map<Pattern, Chain>, n: N, u: Unescape, path: string, acc: seq<Binding>)
    requires n in v && Beyond(v, routes, n, u, path, acc, "")
    ensures forall r :: r in routes ==> Match(u, r, path) == if r == v[n].full then Some(acc) else None
  {
    forall r | r in routes
      ensures Match(u, r, path) == if r == v[n].full then Some(acc) else None
    {
      if v[n].full <= r {
        assert r[|v[n].full|..] == [] <==> r == v[n].full;
        assert acc + [] == acc;
      }
    }
  }

  /** The first byte of the remaining text picks the only child that can match. */
  lemma ByteStep<N>(root: N, v: Snapshot<N>, routes: map<Pattern, Chain>, n: N, j: int, u: Unescape, path: string,
                    acc: seq<Binding>, rest: string)
    requires Linked(root, v) && Filled(v, routes) && n in v && v[n].nType.Static? && !v[n].wildChild
    requires rest != "" && Beyond(v, routes, n, u, path, acc, rest)
    requires -1 <= j < |v[n].indices| && (if j == -1 then rest[0] !in v[n].indices else v[n].indices[j] == rest[0])
    ensures |v[n].indices| == |v[n].children| && forall i :: 0 <= i < |v[n].children| ==> v[n].children[i] in v
    ensures j != -1 ==>
              var c := v[n].children[j];
              && v[c].nType.Static? && Tracks(v, routes, c, u, path, acc, rest)
              && |v[n].full| < |v[c].full|
    ensures j == -1 ==> NoneMatch(routes, u, path)
  {
    var s := v[n];
    assert Shape(root, v, n);
    if j != -1 {
      assert Shape(root, v, s.children[j]);
      FirstToken(v[s.children[j]]);
    }
    forall r | r in routes && s.full <= r && (j == -1 || !(v[s.children[j]].full <= r))
      ensures Match(u, r[|s.full|..], rest) == None
    {
      if r != s.full {
        var i := RouteGoesOn(root, v, routes, n, r);
        assert v[s.children[i]].path[0] == s.indices[i];
        assert Shape(root, v, s.children[i]);
        FirstToken(v[s.children[i]]);
        assert r[|s.full|..][0] == Lit(s.indices[i]);
      }
    }
    if j != -1 {
      var c := s.children[j];
      assert v[c].base == s.full;
      forall r | r in routes && v[c].full <= r ensures s.full <= r {}
    }
  }

  /** What a wildcard does to one pattern that passes through it. */
  lemma WildMatch(u: Unescape, q: Pattern, acc: seq<Binding>, rest: string)
    requires q != [] && IsWild(q[0]) && rest != ""
    ensures q[0].Param? ==>
              Prepend(acc, Match(u, q, rest)) ==
              Prepend(acc + Bind(u, q[0].name, rest[..Segment(rest)]), Match(u, q[1..], rest[Segment(rest)..]))
    ensures q[0].CatchAll? ==>
              Prepend(acc, Match(u, q, rest)) == Prepend(acc + Bind(u, q[0].name, rest), Match(u, q[1..], ""))
  {
    if q[0].Param? {
      PrependTwice(acc, Bind(u, q[0].name, rest[..Segment(rest)]), Match(u, q[1..], rest[Segment(rest)..]));
    } else {
      assert |q| == 1 <==> q[1..] == [];
      assert Bind(u, q[0].name, rest) + [] == Bind(u, q[0].name, rest);
      PrependTwice(acc, Bind(u, q[0].name, rest), Match(u, q[1..], ""));
    }
  }

  /** Below bare text with a wildcard child, only routes through that child can match. */
  lemma WildRoutes<N>(root: N, v: Snapshot<N>, routes: map<Pattern, Chain>, n: N, w: N, r: Pattern, u: Unescape,
      rest: string)
    requires Linked(root, v) && Filled(v, routes) && n in v && w in v && v[n].children == [w] && !v[w].nType.Static?
    requires v[w].path != "" && rest != "" && r in routes && v[n].full <= r
    ensures v[w].full == v[n].full + [WildToken(v[w].path[0], v[w].paramName)]
    ensures v[w].full <= r ==> r[|v[n].full|..] == [WildToken(v[w].path[0], v[w].paramName)] + r[|v[w].full|..]
    ensures !(v[w].full <= r) ==> Match(u, r[|v[n].full|..], rest) == None
  {
    assert Shape(root, v, w);
    OnlyChild(root, v, n, w);
    FirstWild(v[w]);
    var k := |v[n].full|;
    if v[w].full <= r {
      assert r[k] == v[w].full[k];
      assert r[k..] == [r[k]] + r[k + 1..];
    } else if v[n].full < r {
      var i := RouteGoesOn(root, v, routes, n, r);
      assert false;
    } else {
      assert r[k..] == [];
    }
  }

  lemma WildStep<N>(root: N, v: Snapshot<N>, routes: map<Pattern, Chain>, n: N, u: Unescape, path: string,
                    acc: seq<Binding>, rest: string)
    requires Linked(root, v) && Filled(v, routes) && n in v && v[n].nType.Static? && v[n].wildChild
    requires rest != "" && Beyond(v, routes, n, u, path, acc, rest)
    ensures |v[n].children| == 1 && v[n].children[0] in v
    ensures var w := v[n].children[0];
            var value := Bind(u, v[w].paramName, rest[..Segment(rest)]);
            && v[w].path != "" && |v[n].full| < |v[w].full|
            && !v[w].nType.Static?
            && (v[w].nType.ParamNode? ==> Beyond(v, routes, w, u, path, acc + value, rest[Segment(rest)..]))
            && (v[w].nType.CatchAllNode? ==> Beyond(v, routes, w, u, path, acc + Bind(u, v[w].paramName, rest), ""))
  {
    assert Shape(root, v, n);
    var w := v[n].children[0];
    WildSpelling(root, v, n, w);
    forall r | r in routes
      ensures v[w].full <= r ==> v[n].full <= r
      ensures Match(u, r, path) ==
                if !(v[w].full <= r) then None
                else if v[w].nType.ParamNode? then
                  Prepend(acc + Bind(u, v[w].paramName, rest[..Segment(rest)]),
                    Match(u, r[|v[w].full|..], rest[Segment(rest)..]))
                else Prepend(acc + Bind(u, v[w].paramName, rest), Match(u, r[|v[w].full|..], ""))
    {
      if v[n].full <= r {
        WildRoutes(root, v, routes, n, w, r, u, rest);
        if v[w].full <= r {
          WildMatch(u, r[|v[n].full|..], acc, rest);
          assert r[|v[n].full|..][1..] == r[|v[w].full|..];
        }
      }
    }
  }

  lemma WildSpelling<N>(root: N, v: Snapshot<N>, n: N, w: N)
    requires Linked(root, v) && n in v && w in v && v[n].children == [w] && !v[w].nType.Static?
    ensures v[w].path != "" && v[n].full < v[w].full && |v[w].full| == |v[n].full| + 1
    ensures v[w].path[0] == if v[w].nType.CatchAllNode? then '*' else ':'
  {
    assert Shape(root, v, w);
    OnlyChild(root, v, n, w);
    FirstWild(v[w]);
  }

  /** Behind a wildcard, a '/' goes on through its only child or nowhere. */
  lemma SlashStep<N>(root: N, v: Snapshot<N>, routes: map<Pattern, Chain>, w: N, u: Unescape, path: string,
                     acc: seq<Binding>, rest: string)
    requires Linked(root, v) && Filled(v, routes) && w in v && !v[w].nType.Static?
    requires rest != "" && Beyond(v, routes, w, u, path, acc, rest)
    ensures |v[w].children| <= 1 && forall i :: 0 <= i < |v[w].children| ==> v[w].children[i] in v
    ensures v[w].children == [] ==> NoneMatch(routes, u, path)
    ensures v[w].children != [] ==>
              var c := v[w].children[0];
              && v[c].nType.Static? && Tracks(v, routes, c, u, path, acc, rest)
              && |v[w].full| <= |v[c].full|
  {
    var s := v[w];
    assert Shape(root, v, w);
    FirstWild(s);
    if s.children != [] {
      assert Shape(root, v, s.children[0]);
      assert v[s.children[0]].base == s.full;
    }
    forall r | r in routes && s.full <= r && (s.children == [] || !(v[s.children[0]].full <= r))
      ensures Match(u, r[|s.full|..], rest) == None
    {
      if r != s.full {
        var i := RouteGoesOn(root, v, routes, w, r);
        assert false;
      }
    }
    if s.children != [] {
      var c := s.children[0];
      forall r | r in routes && v[c].full <= r ensures s.full <= r {}
    }
  }

  /** Some length bounds every pattern of the tree. */
  lemma {:induction false} Longest<N>(v: Snapshot<N>) returns (bound: nat)
    ensures forall n :: n in v ==> |v[n].full| <= bound
    decreases |v|
  {
    if v == map[] {
      bound := 0;
    } else {
      var n :| n in v;
      var rest := v - {n};
      assert v.Keys == rest.Keys + {n};
      bound := Longest(rest);
      bound := if |v[n].full| > bound then |v[n].full| else bound;
      assert forall m :: m in v && m != n ==> m in rest;
    }
  }
}
