/**
 * What a route pattern means, independently of any tree: a pattern is a
 * sequence of tokens, a path either matches it (and binds parameters) or does
 * not, and a list of routes is searched from the last one added to the first.
 */
module RoutePatterns {
  import opened Options

  datatype Token = Lit(c: char) | Param(name: string) | CatchAll(name: string)

  type Pattern = seq<Token>

  /** One URL parameter. */
  datatype Binding = Binding(key: string, value: string)

  /** The handler chain of a route; only its identity matters to the router. */
  datatype Chain = Chain(id: nat)

  datatype Route = Route(pattern: Pattern, handlers: Chain)

  /** url.PathUnescape: unseen library code, None when it reports an error. */
  type Unescape = string -> Option<string>

  predicate IsWildMark(c: char) {
    c == ':' || c == '*'
  }

  predicate IsWild(t: Token) {
    !t.Lit?
  }

  function WildToken(mark: char, name: string): Token {
    if mark == '*' then CatchAll(name) else Param(name)
  }

  predicate Plain(s: string) {
    forall i :: 0 <= i < |s| ==> !IsWildMark(s[i])
  }

  predicate NoSlash(s: string) {
    forall i :: 0 <= i < |s| ==> s[i] != '/'
  }

  /** The position of the first '/', or the length when there is none. */
  function Segment(s: string): (k: nat)
    ensures k <= |s| && NoSlash(s[..k])
    ensures k < |s| ==> s[k] == '/'
  {
    if s == "" || s[0] == '/' then 0
    else
      var k := Segment(s[1..]);
      assert s[..k + 1] == [s[0]] + s[1..][..k];
      k + 1
  }

  /** Segment is the only such position. */
  lemma {:induction false} SegmentOf(name: string, rest: string)
    requires NoSlash(name) && (rest == "" || rest[0] == '/')
    ensures Segment(name + rest) == |name|
  {
    var s := name + rest;
    var k := Segment(s);
    assert forall i :: 0 <= i < |name| ==> s[i] == name[i];
    assert rest != "" ==> s[|name|] == '/';
    assert forall i :: 0 <= i < k ==> s[i] == s[..k][i];
  }

  function Tokens(s: string): Pattern
    decreases |s|
  {
    if s == "" then []
    else if IsWildMark(s[0]) then
      [WildToken(s[0], s[1..Segment(s)])] + Tokens(s[Segment(s)..])
    else [Lit(s[0])] + Tokens(s[1..])
  }

  /** Text without wildcard marks is tokenised one character at a time. */
  lemma {:induction false} TokensPlain(a: string, b: string)
    requires Plain(a)
    ensures Tokens(a + b) == Tokens(a) + Tokens(b)
    ensures |Tokens(a)| == |a|
    ensures forall i :: 0 <= i < |a| ==> Tokens(a)[i] == Lit(a[i])
  {
    if a == "" {
      assert a + b == b;
    } else {
      assert (a + b)[1..] == a[1..] + b;
      TokensPlain(a[1..], b);
    }
  }

  lemma TokensWild(mark: char, name: string, rest: string)
    requires IsWildMark(mark) && NoSlash(name) && (rest == "" || rest[0] == '/')
    ensures Tokens([mark] + name + rest) == [WildToken(mark, name)] + Tokens(rest)
  {
    var s := [mark] + name + rest;
    assert s == ([mark] + name) + rest;
    SegmentOf([mark] + name, rest);
    assert s[1..|name| + 1] == name && s[|name| + 1..] == rest;
  }

  /** A wildcard mark takes its whole segment; a '/' or the end follows. */
  lemma TokensWildHead(s: string)
    requires s != "" && IsWildMark(s[0])
    ensures var end := Segment(s);
            && 1 <= end && s[..end] == [s[0]] + s[1..end] && NoSlash(s[1..end])
            && (s[end..] == "" || s[end..][0] == '/')
            && Tokens(s) == Tokens(s[..end]) + Tokens(s[end..])
            && Tokens(s[..end]) == [WildToken(s[0], s[1..end])]
  {
    var end := Segment(s);
    WildText(s);
    WildAlone(s[0], s[1..end]);
  }

  lemma WildText(s: string)
    requires s != "" && IsWildMark(s[0])
    ensures var end := Segment(s);
            && 1 <= end && s[..end] == [s[0]] + s[1..end] && NoSlash(s[1..end])
            && (s[end..] == "" || s[end..][0] == '/')
  {
    var end := Segment(s);
    assert forall i :: 0 <= i < end - 1 ==> s[1..end][i] == s[..end][i + 1];
  }

  lemma WildAlone(mark: char, name: string)
    requires IsWildMark(mark) && NoSlash(name)
    ensures Tokens([mark] + name) == [WildToken(mark, name)]
  {
    TokensWild(mark, name, "");
    assert [mark] + name + "" == [mark] + name;
  }

  /** Text whose first token is a given wildcard begins with that wildcard's spelling. */
  lemma SpelledOut(mark: char, name: string, s: string)
    requires IsWildMark(mark) && NoSlash(name) && s != "" && Tokens(s)[0] == WildToken(mark, name)
    ensures [mark] + name <= s && (|s| == |name| + 1 || s[|name| + 1] == '/') && s[0] == mark
  {
    var end := Segment(s);
    TokensWildHead(s);
    assert Tokens(s)[0] == Tokens(s[..end])[0];
    assert mark == s[0] && name == s[1..end];
    assert s[..end] <= s && |name| + 1 == end;
  }

  function Decoded(u: Unescape, raw: string): string {
    if '%' in raw then
      match u(raw)
      case Some(v) => v
      case None => raw
    else raw
  }

  /** A nameless wildcard matches but records nothing. */
  function Bind(u: Unescape, name: string, raw: string): seq<Binding> {
    if name == "" then [] else [Binding(name, Decoded(u, raw))]
  }

  function Prepend(b: seq<Binding>, m: Option<seq<Binding>>): Option<seq<Binding>> {
    match m
    case None => None
    case Some(c) => Some(b + c)
  }

  /**
   * Whether a path matches a pattern, and with which bindings. A parameter
   * takes the text up to the next '/', a catch-all takes everything; neither
   * matches when no text at all is left.
   */
  function Match(u: Unescape, p: Pattern, path: string): Option<seq<Binding>>
    decreases |p|
  {
    if p == [] then (if path == "" then Some([]) else None)
    else if path == "" then None
    else match p[0]
      case Lit(c) => if path[0] == c then Match(u, p[1..], path[1..]) else None
      case Param(name) =>
        Prepend(Bind(u, name, path[..Segment(path)]), Match(u, p[1..], path[Segment(path)..]))
      case CatchAll(name) => if |p| == 1 then Some(Bind(u, name, path)) else None
  }

  lemma {:induction false} PrependTwice(a: seq<Binding>, b: seq<Binding>, m: Option<seq<Binding>>)
    ensures Prepend(a, Prepend(b, m)) == Prepend(a + b, m)
    ensures Prepend([], m) == m
  {
    match m
    case None =>
    case Some(c) =>
      assert a + (b + c) == (a + b) + c;
      assert [] + c == c;
  }

  lemma MatchHead(u: Unescape, c: char, rest: Pattern, path: string)
    ensures Match(u, [Lit(c)] + rest, path) == if path != "" && path[0] == c then Match(u, rest, path[1..]) else None
  {
    assert ([Lit(c)] + rest)[1..] == rest;
  }

  /** Literal text matches itself and nothing else. */
  lemma {:induction false} MatchPlain(u: Unescape, a: string, q: Pattern, path: string)
    requires Plain(a)
    ensures Match(u, Tokens(a) + q, path) == if a <= path then Match(u, q, path[|a|..]) else None
  {
    if a == "" {
      assert Tokens(a) + q == q;
    } else {
      PlainHead(a, q);
      MatchHead(u, a[0], Tokens(a[1..]) + q, path);
      if path != "" && path[0] == a[0] {
        MatchPlain(u, a[1..], q, path[1..]);
        SamePrefix(a, path);
      }
    }
  }

  lemma PlainHead(a: string, q: Pattern)
    requires Plain(a) && a != ""
    ensures Plain(a[1..]) && Tokens(a) + q == [Lit(a[0])] + (Tokens(a[1..]) + q)
  {
    assert !IsWildMark(a[0]);
  }

  lemma SamePrefix(a: string, path: string)
    requires a != "" && path != "" && a[0] == path[0]
    ensures a <= path <==> a[1..] <= path[1..]
    ensures a <= path ==> path[1..][|a[1..]|..] == path[|a|..]
  {
    assert a == [a[0]] + a[1..] && path == [path[0]] + path[1..];
  }

  /**
   * Two patterns are compatible when, after any common beginning, a wildcard
   * of one meets the same wildcard (or the end) of the other.
   */
  ghost predicate Compatible(p: Pattern, q: Pattern) {
    forall k :: 0 <= k < |p| && k < |q| && p[..k] == q[..k] && (IsWild(p[k]) || IsWild(q[k])) ==> p[k] == q[k]
  }

  ghost predicate ConflictFree(ps: set<Pattern>) {
    forall p, q :: p in ps && q in ps ==> Compatible(p, q)
  }

  /** A path matches at most one of two compatible patterns. */
  lemma {:induction false} UniqueMatch(u: Unescape, p: Pattern, q: Pattern, path: string)
    requires Compatible(p, q)
    requires Match(u, p, path).Some? && Match(u, q, path).Some?
    ensures p == q
    decreases |p|
  {
    if p != [] && q != [] {
      assert p[..0] == q[..0];
      assert p[0] == q[0];
      if !p[0].CatchAll? {
        forall k | 0 <= k < |p| - 1 && k < |q| - 1 && p[1..][..k] == q[1..][..k]
                   && (IsWild(p[1..][k]) || IsWild(q[1..][k]))
          ensures p[1..][k] == q[1..][k]
        {
          assert p[..k + 1] == [p[0]] + p[1..][..k] && q[..k + 1] == [q[0]] + q[1..][..k];
        }
        UniqueMatch(u, p[1..], q[1..], if p[0].Lit? then path[1..] else path[Segment(path)..]);
      }
      assert p == [p[0]] + p[1..] && q == [q[0]] + q[1..];
    }
  }

  /** Linear search of the route list, the last one added first. */
  function Scan(u: Unescape, added: seq<Route>, path: string): Option<(Chain, seq<Binding>)> {
    if added == [] then None
    else
      var last := added[|added| - 1];
      match Match(u, last.pattern, path)
      case Some(b) => Some((last.handlers, b))
      case None => Scan(u, added[..|added| - 1], path)
  }

  function Patterns(added: seq<Route>): set<Pattern> {
    set i | 0 <= i < |added| :: added[i].pattern
  }

  /** The handlers last added for each pattern. */
  function Table(added: seq<Route>): (t: map<Pattern, Chain>)
    ensures t.Keys == Patterns(added)
  {
    if added == [] then map[]
    else
      var last := added[|added| - 1];
      assert Patterns(added) == Patterns(added[..|added| - 1]) + {last.pattern};
      Table(added[..|added| - 1])[last.pattern := last.handlers]
  }

  /** On conflict-free lists the search result is decided by the table alone. */
  lemma {:induction false} ScanIsTable(u: Unescape, added: seq<Route>, path: string)
    requires ConflictFree(Patterns(added))
    ensures forall p :: p in Table(added) && Match(u, p, path).Some? ==>
              Scan(u, added, path) == Some((Table(added)[p], Match(u, p, path).value))
    ensures (forall p :: p in Table(added) ==> Match(u, p, path).None?) ==> Scan(u, added, path).None?
  {
    if added != [] {
      var init, last := added[..|added| - 1], added[|added| - 1];
      assert Patterns(added) == Patterns(init) + {last.pattern};
      ScanIsTable(u, init, path);
      forall p | p in Table(added) && Match(u, p, path).Some?
        ensures Scan(u, added, path) == Some((Table(added)[p], Match(u, p, path).value))
      {
        if Match(u, last.pattern, path).Some? {
          assert Compatible(p, last.pattern);
          UniqueMatch(u, p, last.pattern, path);
        }
      }
    }
  }

  /** The order in which routes were added is irrelevant beyond which handlers came last. */
  lemma OrderIrrelevant(u: Unescape, a: seq<Route>, b: seq<Route>, path: string)
    requires ConflictFree(Patterns(a)) && Table(a) == Table(b)
    ensures Scan(u, a, path) == Scan(u, b, path)
  {
    ScanIsTable(u, a, path);
    assert Patterns(b) == Table(b).Keys;
    ScanIsTable(u, b, path);
    if p :| p in Table(a) && Match(u, p, path).Some? {
      assert p in Table(b);
    }
  }
}
