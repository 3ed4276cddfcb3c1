/** Paging: a cursor is an offset into the sorted matches, and following cursors visits each match once. */
module SearchPaging {
  import opened Numbers
  import opened Options

  /** How offsets are written as cursors. */
  datatype Codec = Codec(encode: nat -> string, decode: string -> Option<nat>)

  /** CURSORS lead back to their offsets, and only offset zero has the empty one. */
  ghost predicate Faithful(c: Codec, largest: nat) {
    forall n: nat :: n <= largest ==> c.decode(c.encode(n)) == Some(n) && (c.encode(n) == "" <==> n == 0)
  }

  datatype Page<T> = Page(items: seq<T>, next: string)

  function PageAt<T>(c: Codec, documents: seq<T>, offset: nat, limit: int): Page<T>
    requires limit >= 1
  {
    if offset >= |documents| then Page([], "")
    else if offset + limit < |documents| then Page(documents[offset..offset + limit], c.encode(offset + limit))
    else Page(documents[offset..], "")
  }

  /** The page at a cursor; None for a malformed cursor. */
  function PageOf<T>(c: Codec, documents: seq<T>, cursor: string, limit: int): Option<Page<T>>
    requires limit >= 1
  {
    match c.decode(cursor)
    case None => None
    case Some(offset) => Some(PageAt(c, documents, offset, limit))
  }

  method PageDocuments<T>(c: Codec, documents: seq<T>, cursor: string, limit: int) returns (page: Option<Page<T>>)
    requires limit >= 1
    ensures page == PageOf(c, documents, cursor, limit)
  {
    var decoded := c.decode(cursor);
    if decoded.None? {
      return None;
    }
    var offset := decoded.value;
    if offset >= |documents| {
      return Some(Page([], ""));
    }
    var end := if offset + limit < |documents| then offset + limit else |documents|;
    var items := [];
    for i := offset to end
      invariant items == documents[offset..i]
    {
      items := items + [documents[i]];
    }
    assert end == |documents| ==> documents[offset..end] == documents[offset..];
    var next := "";
    if end < |documents| {
      next := c.encode(end);
    }
    page := Some(Page(items, next));
  }

  /** The i-th page was asked for with the cursor of the page before it, which has one. */
  /** The cursor of a page is readable. */
  lemma NextDecodes<T>(c: Codec, documents: seq<T>, cursor: string, limit: int)
    requires limit >= 1 && Faithful(c, |documents|) && PageOf(c, documents, cursor, limit).Some?
    ensures c.decode(PageOf(c, documents, cursor, limit).value.next).Some?
  {
    assert c.decode(c.encode(0)) == Some(0);
    var offset := c.decode(cursor).value;
    if offset + limit < |documents| {
      assert c.decode(c.encode(offset + limit)) == Some(offset + limit);
    }
  }

  ghost predicate FollowsAt<T>(c: Codec, documents: seq<T>, limit: int, pages: seq<Page<T>>, i: nat)
    requires limit >= 1 && i < |pages|
  {
    && PageOf(c, documents, if i == 0 then "" else pages[i - 1].next, limit) == Some(pages[i])
    && (i > 0 ==> pages[i - 1].next != "")
  }

  ghost predicate Followed<T>(c: Codec, documents: seq<T>, limit: int, pages: seq<Page<T>>)
    requires limit >= 1
  {
    forall i :: 0 <= i < |pages| ==> FollowsAt(c, documents, limit, pages, i)
  }

  function Concat<T>(pages: seq<Page<T>>): seq<T> {
    if pages == [] then [] else Concat(pages[..|pages| - 1]) + pages[|pages| - 1].items
  }

  /** How many documents n full pages hold: n * limit. */
  function Reach(n: nat, limit: int): (r: int)
    ensures limit >= 1 ==> r >= n
  {
    if n == 0 then 0 else Reach(n - 1, limit) + limit
  }

  /** A page has a cursor exactly when there are documents after it. */
  lemma HasMore<T>(c: Codec, documents: seq<T>, limit: int, offset: nat)
    requires limit >= 1 && Faithful(c, |documents|)
    ensures PageAt(c, documents, offset, limit).next != "" <==> offset + limit < |documents|
    ensures PageAt(c, documents, offset, limit).next != "" ==>
      PageAt(c, documents, offset, limit).next == c.encode(offset + limit)
  {
    if offset + limit < |documents| {
      assert c.decode(c.encode(offset + limit)) == Some(offset + limit);
    }
  }

  /** The k-th page is the one at offset k * limit. */
  lemma {:induction false} PageIs<T>(c: Codec, documents: seq<T>, limit: int, pages: seq<Page<T>>, k: nat)
    requires limit >= 1 && Faithful(c, |documents|) && k < |pages| && Followed(c, documents, limit, pages)
    ensures pages[k] == PageAt(c, documents, Reach(k, limit), limit)
    ensures k > 0 ==> Reach(k, limit) < |documents|
  {
    assert FollowsAt(c, documents, limit, pages, k);
    if k > 0 {
      PageIs(c, documents, limit, pages, k - 1);
      HasMore(c, documents, limit, Reach(k - 1, limit));
      assert c.decode(c.encode(Reach(k, limit))) == Some(Reach(k, limit));
    } else {
      assert c.decode(c.encode(0)) == Some(0);
    }
  }

  ghost predicate InPlace<T>(c: Codec, documents: seq<T>, limit: int, pages: seq<Page<T>>)
    requires limit >= 1
  {
    forall k :: 0 <= k < |pages| ==> pages[k] == PageAt(c, documents, Reach(k, limit), limit)
  }

  lemma PageExtends<T>(c: Codec, documents: seq<T>, limit: int, offset: nat)
    requires limit >= 1 && (offset == 0 || offset < |documents|)
    ensures documents[..Min(offset, |documents|)] + PageAt(c, documents, offset, limit).items
         == documents[..Min(offset + limit, |documents|)]
  {
  }

  /** Pages at successive offsets hold a prefix of the documents. */
  lemma {:induction false} Prefix<T>(c: Codec, documents: seq<T>, limit: int, pages: seq<Page<T>>)
    requires limit >= 1 && InPlace(c, documents, limit, pages)
    requires |pages| > 1 ==> Reach(|pages| - 1, limit) < |documents|
    ensures Concat(pages) == documents[..Min(Reach(|pages|, limit), |documents|)]
  {
    if pages != [] {
      var n := |pages| - 1;
      Prefix(c, documents, limit, pages[..n]);
      PageExtends(c, documents, limit, Reach(n, limit));
    }
  }

  /** Following cursors until there is none visits every document once, in order. */
  lemma WholeCrawl<T>(c: Codec, documents: seq<T>, limit: int, pages: seq<Page<T>>)
    requires limit >= 1 && Faithful(c, |documents|) && pages != [] && Followed(c, documents, limit, pages)
    requires pages[|pages| - 1].next == ""
    ensures Concat(pages) == documents
  {
    AllInPlace(c, documents, limit, pages);
    PageIs(c, documents, limit, pages, |pages| - 1);
    Prefix(c, documents, limit, pages);
    LastPage(c, documents, limit, |pages| - 1);
  }

  lemma AllInPlace<T>(c: Codec, documents: seq<T>, limit: int, pages: seq<Page<T>>)
    requires limit >= 1 && Faithful(c, |documents|) && Followed(c, documents, limit, pages)
    ensures InPlace(c, documents, limit, pages)
  {
    forall k | 0 <= k < |pages| ensures pages[k] == PageAt(c, documents, Reach(k, limit), limit) {
      PageIs(c, documents, limit, pages, k);
    }
  }

  /** A page without a cursor reaches the end. */
  lemma LastPage<T>(c: Codec, documents: seq<T>, limit: int, n: nat)
    requires limit >= 1 && Faithful(c, |documents|) && PageAt(c, documents, Reach(n, limit), limit).next == ""
    ensures documents[..Min(Reach(n + 1, limit), |documents|)] == documents
  {
    HasMore(c, documents, limit, Reach(n, limit));
  }

  /** And it ends: all pages but the last are full, and do not hold all documents. */
  lemma CrawlIsShort<T>(c: Codec, documents: seq<T>, limit: int, pages: seq<Page<T>>)
    requires limit >= 1 && Faithful(c, |documents|) && |pages| > 1 && Followed(c, documents, limit, pages)
    ensures Reach(|pages| - 1, limit) < |documents|
  {
    PageIs(c, documents, limit, pages, |pages| - 1);
  }
}
