/**
 * What a match of a route means in terms of texts: values written in place of
 * the wildcards of the pattern give the path, and the parameters are those
 * values under the names of the wildcards.
 */
module RouteMeaning {
  import opened Options
  import opened RoutePatterns

  /** The names of a pattern's wildcards, in order. */
  function Names(p: Pattern): seq<string> {
    if p == [] then []
    else if p[0].Lit? then Names(p[1..])
    else [p[0].name] + Names(p[1..])
  }

  /** The text of a pattern with these texts in place of its wildcards. */
  function WrittenOut(p: Pattern, texts: seq<string>): string
    requires |texts| == |Names(p)|
  {
    if p == [] then ""
    else if p[0].Lit? then [p[0].c] + WrittenOut(p[1..], texts)
    else texts[0] + WrittenOut(p[1..], texts[1..])
  }

  /** A wildcard takes the rest of its segment, so a '/' follows it or nothing. */
  ghost predicate Proper(p: Pattern) {
    forall k :: 0 <= k < |p| - 1 && IsWild(p[k]) ==> p[k + 1] == Lit('/')
  }

  /**
   * What wildcards take: a parameter anything without '/', a catch-all, which
   * must be the last token, anything. At the end of a path neither takes nothing.
   */
  ghost predicate Fits(p: Pattern, values: seq<string>)
    requires |values| == |Names(p)|
  {
    && (forall k :: 0 <= k < |p| - 1 ==> !p[k].CatchAll?)
    && (forall i :: 0 <= i < |values| - 1 ==> NoSlash(values[i]))
    && (values != [] && !p[|p| - 1].CatchAll? ==> NoSlash(values[|values| - 1]))
    && (values != [] && IsWild(p[|p| - 1]) ==> values[|values| - 1] != "")
  }

  /** The path is the pattern's text with these values. */
  ghost predicate Reads(p: Pattern, values: seq<string>, path: string) {
    |values| == |Names(p)| && Fits(p, values) && WrittenOut(p, values) == path
  }

  /** What the library decodes an escaped text to, or the text itself if it cannot or there is no escape. */
  ghost predicate IsValue(u: Unescape, text: string, value: string) {
    && ('%' !in text ==> value == text)
    && ('%' in text && u(text).Some? ==> u(text) == Some(value))
    && ('%' in text && u(text).None? ==> value == text)
  }

  /** How many of the names are not empty. */
  function Named(names: seq<string>): nat {
    if names == [] then 0 else (if names[0] != "" then 1 else 0) + Named(names[1..])
  }

  /** One parameter for every named wildcard, in order, with its name and its value. */
  ghost predicate Bound(u: Unescape, names: seq<string>, values: seq<string>, b: seq<Binding>) {
    && |values| == |names| && |b| == Named(names)
    && forall i :: 0 <= i < |names| && names[i] != "" ==> BoundAt(u, names, values, b, i)
  }

  ghost predicate BoundAt(u: Unescape, names: seq<string>, values: seq<string>, b: seq<Binding>, i: nat)
    requires i < |names| == |values|
  {
    var k := Named(names[..i]);
    k < |b| && b[k].key == names[i] && IsValue(u, values[i], b[k].value)
  }

  /** With every wildcard named, the parameters are the wildcards one by one. */
  lemma {:induction false} AllNamed(names: seq<string>, k: nat)
    requires k <= |names| && forall i :: 0 <= i < |names| ==> names[i] != ""
    ensures Named(names[..k]) == k && Named(names) == |names|
  {
    if k > 0 {
      assert names[..k][1..] == names[1..][..k - 1];
      AllNamed(names[1..], k - 1);
    } else if names != [] {
      AllNamed(names[1..], 0);
    }
  }

  lemma BoundMore(u: Unescape, name: string, names: seq<string>, text: string, values: seq<string>, b: seq<Binding>,
                  first: seq<Binding>)
    requires Bound(u, names, values, b)
    requires if name == "" then first == []
             else |first| == 1 && first[0].key == name && IsValue(u, text, first[0].value)
    ensures Bound(u, [name] + names, [text] + values, first + b)
  {
    var all, texts := [name] + names, [text] + values;
    assert all[1..] == names;
    forall i | 0 <= i < |all| && all[i] != "" ensures BoundAt(u, all, texts, first + b, i) {
      if i > 0 {
        assert BoundAt(u, names, values, b, i - 1);
        assert all[..i][1..] == names[..i - 1];
      }
    }
  }

  lemma ProperTail(p: Pattern)
    requires Proper(p) && p != []
    ensures Proper(p[1..])
  {
    forall k | 0 <= k < |p| - 2 && IsWild(p[1..][k]) ensures p[1..][k + 1] == Lit('/') {
      assert p[k + 1] == p[1..][k];
    }
  }

  // ---- a match reads the path --------------------------------------------------------

  /** A match comes with values that the path reads, and binds them. */
  lemma {:induction false} MatchReads(u: Unescape, p: Pattern, path: string) returns (values: seq<string>)
    requires Proper(p) && Match(u, p, path).Some?
    ensures Reads(p, values, path) && Bound(u, Names(p), values, Match(u, p, path).value)
    decreases |p|
  {
    if p == [] {
      values := [];
    } else {
      ProperTail(p);
      match p[0] {
        case Lit(c) =>
          values := MatchReads(u, p[1..], path[1..]);
          ReadsLit(p, values, path);
        case Param(name) =>
          var k := Segment(path);
          var rest := MatchReads(u, p[1..], path[k..]);
          values := [path[..k]] + rest;
          ReadsParam(p, path[..k], rest, path);
          BoundMore(u, name, Names(p[1..]), path[..k], rest, Match(u, p[1..], path[k..]).value,
                    Bind(u, name, path[..k]));
        case CatchAll(name) =>
          values := [path];
          assert p[1..] == [];
          BoundMore(u, name, [], path, [], [], Bind(u, name, path));
      }
    }
  }

  lemma ReadsLit(p: Pattern, values: seq<string>, path: string)
    requires p != [] && p[0].Lit? && path != "" && path[0] == p[0].c && Reads(p[1..], values, path[1..])
    ensures Reads(p, values, path)
  {
    forall k | 0 <= k < |p| - 1 ensures !p[k].CatchAll? {
      assert k > 0 ==> p[k] == p[1..][k - 1];
    }
    assert |p| == 1 ==> values == [];
    assert |p| > 1 ==> p[|p| - 1] == p[1..][|p| - 2];
  }

  lemma ReadsParam(p: Pattern, value: string, values: seq<string>, path: string)
    requires p != [] && p[0].Param? && NoSlash(value) && value <= path != ""
    requires Reads(p[1..], values, path[|value|..])
    ensures Reads(p, [value] + values, path)
  {
    var all := [value] + values;
    forall k | 0 <= k < |p| - 1 ensures !p[k].CatchAll? {
      assert k > 0 ==> p[k] == p[1..][k - 1];
    }
    assert all[1..] == values;
    assert path == value + path[|value|..];
    assert |p| > 1 ==> p[|p| - 1] == p[1..][|p| - 2];
    if values != [] {
      assert all[|all| - 1] == values[|values| - 1];
      forall i | 0 <= i < |all| - 1 ensures NoSlash(all[i]) {
        assert i > 0 ==> all[i] == values[i - 1];
      }
    } else if |p| > 1 {
      LastIsLit(p[1..]);
    }
  }

  lemma {:induction false} LastIsLit(p: Pattern)
    requires Names(p) == [] && p != []
    ensures p[|p| - 1].Lit?
  {
    if |p| > 1 {
      LastIsLit(p[1..]);
    }
  }

  // ---- and whatever the path reads is a match ------------------------------------------

  lemma {:induction false} ReadsMatch(u: Unescape, p: Pattern, values: seq<string>, path: string)
    requires Proper(p) && Reads(p, values, path)
    ensures Match(u, p, path).Some?
    decreases |p|
  {
    if p != [] {
      ProperTail(p);
      match p[0] {
        case Lit(c) =>
          TailReads(p, values, path);
          ReadsMatch(u, p[1..], values, path[1..]);
        case Param(_) =>
          TailReads(p, values, path);
          ParamTakes(p, values, path);
          ReadsMatch(u, p[1..], values[1..], path[|values[0]|..]);
        case CatchAll(_) =>
          CatchAllTakes(p, values, path);
      }
    }
  }

  lemma TailReads(p: Pattern, values: seq<string>, path: string)
    requires p != [] && !p[0].CatchAll? && Reads(p, values, path)
    ensures p[0].Lit? ==> path != "" && path[0] == p[0].c && Reads(p[1..], values, path[1..])
    ensures p[0].Param? ==> values != [] && values[0] <= path && NoSlash(values[0])
    ensures p[0].Param? ==> Reads(p[1..], values[1..], path[|values[0]|..])
  {
    var rest := p[1..];
    forall k | 0 <= k < |rest| - 1 ensures !rest[k].CatchAll? {
      assert rest[k] == p[k + 1];
    }
    assert rest != [] ==> rest[|rest| - 1] == p[|p| - 1];
    assert rest == [] ==> Names(rest) == [];
    if p[0].Param? {
      if |values| == 1 && |p| > 1 {
        LastIsLit(rest);
      }
      var more := values[1..];
      assert path[|values[0]|..] == WrittenOut(rest, more);
      forall i | 0 <= i < |more| - 1 ensures NoSlash(more[i]) {
        assert more[i] == values[i + 1];
      }
    }
  }

  lemma CatchAllTakes(p: Pattern, values: seq<string>, path: string)
    requires p != [] && p[0].CatchAll? && Reads(p, values, path)
    ensures |p| == 1 && values == [path] && path != ""
  {
    assert |p| == 1 && p[1..] == [];
    assert Names(p[1..]) == [] && Names(p) == [p[0].name];
    assert WrittenOut(p[1..], values[1..]) == "";
    assert path == values[0] + "" == values[0];
  }

  /** A parameter's value is all of the segment. */
  lemma ParamTakes(p: Pattern, values: seq<string>, path: string)
    requires Proper(p) && p != [] && p[0].Param? && Reads(p, values, path)
    requires values != [] && NoSlash(values[0])
    ensures path != "" && Segment(path) == |values[0]|
  {
    var rest := WrittenOut(p[1..], values[1..]);
    if |p| > 1 {
      assert IsWild(p[0]) && p[1..][0] == Lit('/');
      assert rest != "" && rest[0] == '/';
    }
    SegmentOf(values[0], rest);
  }

  /** A pattern reads a path in one way. */
  lemma {:induction false} OneReading(p: Pattern, a: seq<string>, b: seq<string>, path: string)
    requires Proper(p) && Reads(p, a, path) && Reads(p, b, path)
    ensures a == b
    decreases |p|
  {
    if p != [] {
      ProperTail(p);
      if p[0].CatchAll? {
        CatchAllTakes(p, a, path);
        CatchAllTakes(p, b, path);
      } else {
        TailReads(p, a, path);
        TailReads(p, b, path);
        if p[0].Lit? {
          OneReading(p[1..], a, b, path[1..]);
        } else {
          ParamTakes(p, a, path);
          ParamTakes(p, b, path);
          OneReading(p[1..], a[1..], b[1..], path[|a[0]|..]);
          assert a == [a[0]] + a[1..] && b == [b[0]] + b[1..];
        }
      }
    }
  }

  /** What a pattern matches and binds, without any matching: exactly the paths it reads. */
  lemma MatchMeans(u: Unescape, p: Pattern, path: string)
    requires Proper(p)
    ensures Match(u, p, path).Some? <==> exists values :: Reads(p, values, path)
    ensures forall values :: Reads(p, values, path) ==> Bound(u, Names(p), values, Match(u, p, path).value)
  {
    forall values | Reads(p, values, path)
      ensures Match(u, p, path).Some? && Bound(u, Names(p), values, Match(u, p, path).value)
    {
      ReadsMatch(u, p, values, path);
      var found := MatchReads(u, p, path);
      OneReading(p, values, found, path);
    }
    if Match(u, p, path).Some? {
      var values := MatchReads(u, p, path);
    }
  }

  function Values(b: seq<Binding>): (r: seq<string>)
    ensures |r| == |b| && forall i :: 0 <= i < |b| ==> r[i] == b[i].value
  {
    if b == [] then [] else [b[0].value] + Values(b[1..])
  }

  /** With every wildcard named and no escapes, keys and values are names and texts: written out they are the path. */
  lemma ValuesWriteThePath(u: Unescape, p: Pattern, values: seq<string>, path: string, b: seq<Binding>)
    requires Reads(p, values, path) && Bound(u, Names(p), values, b)
    requires (forall i :: 0 <= i < |Names(p)| ==> Names(p)[i] != "") && '%' !in path
    ensures |b| == |Names(p)| && forall i :: 0 <= i < |b| ==> b[i].key == Names(p)[i]
    ensures Values(b) == values && WrittenOut(p, Values(b)) == path
  {
    AllNamed(Names(p), 0);
    forall i | 0 <= i < |b| ensures b[i].key == Names(p)[i] && b[i].value == values[i] {
      assert BoundAt(u, Names(p), values, b, i);
      AllNamed(Names(p), i);
      NoEscapeWithin(p, values, i);
    }
  }

  lemma {:induction false} NoEscapeWithin(p: Pattern, values: seq<string>, i: nat)
    requires |values| == |Names(p)| && i < |values| && '%' !in WrittenOut(p, values)
    ensures '%' !in values[i]
  {
    if p[0].Lit? {
      NoEscapeWithin(p[1..], values, i);
    } else if i > 0 {
      NoEscapeWithin(p[1..], values[1..], i - 1);
    }
  }

  // ---- a list of routes --------------------------------------------------------------------

  ghost predicate AllProper(ps: set<Pattern>) {
    forall p <- ps :: Proper(p)
  }

  ghost predicate NothingReads(ps: set<Pattern>, path: string) {
    forall p, values :: p in ps ==> !Reads(p, values, path)
  }

  /** These handlers are a route's that reads the path, and these parameters its values. */
  ghost predicate Answer(u: Unescape, table: map<Pattern, Chain>, path: string, handlers: Chain, b: seq<Binding>) {
    exists p, values :: p in table && table[p] == handlers && Reads(p, values, path) && Bound(u, Names(p), values, b)
  }

  /** The search finds the route that reads the path, and nothing when none does. */
  lemma ScanMeans(u: Unescape, added: seq<Route>, path: string)
    requires ConflictFree(Patterns(added)) && AllProper(Patterns(added))
    ensures match Scan(u, added, path)
            case None => NothingReads(Patterns(added), path)
            case Some(hit) => Answer(u, Table(added), path, hit.0, hit.1)
  {
    ScanIsTable(u, added, path);
    if p :| p in Table(added) && Match(u, p, path).Some? {
      MatchMeans(u, p, path);
      var values :| Reads(p, values, path);
      assert Bound(u, Names(p), values, Scan(u, added, path).value.1);
    } else {
      forall p, values | p in Patterns(added) ensures !Reads(p, values, path) {
        MatchMeans(u, p, path);
      }
    }
  }

  // ---- the pattern of a route's text ----------------------------------------------------

  /** The wildcards of a pattern as routes spell them. */
  function Spelling(p: Pattern): (r: seq<string>)
    ensures |r| == |Names(p)|
  {
    if p == [] then []
    else match p[0]
      case Lit(_) => Spelling(p[1..])
      case Param(name) => [":" + name] + Spelling(p[1..])
      case CatchAll(name) => ["*" + name] + Spelling(p[1..])
  }

  ghost predicate LitsArePlain(p: Pattern) {
    forall k :: 0 <= k < |p| && p[k].Lit? ==> p[k].c != ':' && p[k].c != '*'
  }

  /** The text is the pattern with every wildcard spelled out; each wildcard ends its segment. */
  ghost predicate SpellsText(p: Pattern, s: string) {
    && Proper(p) && LitsArePlain(p) && WrittenOut(p, Spelling(p)) == s
    && forall name <- Names(p) :: NoSlash(name)
  }

  /** The parser of routes gives such a pattern. */
  lemma {:induction false} TokensSpell(s: string)
    ensures SpellsText(Tokens(s), s)
    decreases |s|
  {
    if s != "" {
      if IsWildMark(s[0]) {
        var k := Segment(s);
        WildText(s);
        TokensSpell(s[k..]);
        SlashFirst(s[k..]);
        WildBefore(s[0], s[1..k], Tokens(s[k..]), s[k..]);
        WildSplit(s);
      } else {
        TokensSpell(s[1..]);
        LitBefore(s[0], Tokens(s[1..]), s[1..]);
        LitSplit(s);
        HeadFirst(s);
      }
    }
  }

  lemma WildSplit(s: string)
    requires s != "" && IsWildMark(s[0])
    ensures var k := Segment(s);
            1 <= k && Tokens(s) == [WildToken(s[0], s[1..k])] + Tokens(s[k..]) && s == [s[0]] + s[1..k] + s[k..]
  {
    WildText(s);
    assert s == s[..Segment(s)] + s[Segment(s)..];
  }

  lemma LitSplit(s: string)
    requires s != "" && !IsWildMark(s[0])
    ensures Tokens(s) == [Lit(s[0])] + Tokens(s[1..])
  {
  }

  lemma HeadFirst(s: string)
    requires s != ""
    ensures [s[0]] + s[1..] == s
  {
  }

  lemma SlashFirst(rest: string)
    requires rest == "" || rest[0] == '/'
    ensures Tokens(rest) != [] ==> Tokens(rest)[0] == Lit('/')
  {
  }

  lemma LitBefore(c: char, p: Pattern, s: string)
    requires SpellsText(p, s) && !IsWildMark(c)
    ensures SpellsText([Lit(c)] + p, [c] + s)
  {
    assert ([Lit(c)] + p)[1..] == p;
  }

  lemma WildBefore(mark: char, name: string, p: Pattern, rest: string)
    requires IsWildMark(mark) && NoSlash(name) && SpellsText(p, rest) && (p != [] ==> p[0] == Lit('/'))
    ensures SpellsText([WildToken(mark, name)] + p, [mark] + name + rest)
  {
    var all := [WildToken(mark, name)] + p;
    assert all[1..] == p && Names(all) == [name] + Names(p);
    assert Spelling(all) == [[mark] + name] + Spelling(p);
    assert Spelling(all)[1..] == Spelling(p);
    forall n | n in Names(all) ensures NoSlash(n) {
      assert n == name || n in Names(p);
    }
  }
}
