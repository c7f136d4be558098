/**
 * The search handler: the items of both sources are pooled, split into a
 * title tier and a description tier by the lower-cased query, each tier is
 * sorted newest first, and the first fifty of the two tiers are shown.
 *
 * `lower` stands for `toLowerCase` and `stamp` for the instant
 * `new Date(pubDate)` denotes; both are parameters of the model.
 */
module Ranking {
  import opened Optional
  import opened Text
  import opened News
  import GoogleFeed
  import NaverFeed

  /** How many ranked items are shown. */
  const ResultLimit := 50

  /** The lower-cased title contains the lower-cased query. */
  predicate TitleHit(item: NewsItem, keyword: string, lower: string -> string) {
    Contains(lower(item.title), keyword)
  }

  /** The title does not match, but the lower-cased description does. */
  predicate ContentHit(item: NewsItem, keyword: string, lower: string -> string) {
    !TitleHit(item, keyword, lower) && Contains(lower(item.description), keyword)
  }

  /** `s.filter(p)`: the elements that pass, in their order. */
  function Filter<T>(s: seq<T>, p: T -> bool): (r: seq<T>)
    ensures |r| <= |s|
  {
    if s == [] then []
    else (if p(s[0]) then [s[0]] else []) + Filter(s[1..], p)
  }

  /**
   * What passes the filter: each element that satisfies `p`, as often as
   * `s` holds it, and nothing else.
   */
  lemma {:induction false} FilterCount<T(!new)>(s: seq<T>, p: T -> bool)
    ensures forall x :: multiset(Filter(s, p))[x] == if p(x) then multiset(s)[x] else 0
    ensures forall x :: x in Filter(s, p) <==> x in s && p(x)
  {
    if s != [] {
      FilterCount(s[1..], p);
      assert s == [s[0]] + s[1..];
    }
    forall x ensures x in Filter(s, p) <==> x in multiset(Filter(s, p)) {}
  }

  /** The title-tier candidates, in pool order. */
  function TitleMatches(pool: seq<NewsItem>, keyword: string, lower: string -> string): seq<NewsItem> {
    Filter(pool, (x: NewsItem) => TitleHit(x, keyword, lower))
  }

  /** The description-tier candidates, in pool order. */
  function ContentMatches(pool: seq<NewsItem>, keyword: string, lower: string -> string): seq<NewsItem> {
    Filter(pool, (x: NewsItem) => ContentHit(x, keyword, lower))
  }

  /** Every item is at least as recent as every item after it. */
  ghost predicate NewestFirst(s: seq<NewsItem>, stamp: string -> int) {
    forall i, j :: 0 <= i < j < |s| ==> stamp(s[i].pubDate) >= stamp(s[j].pubDate)
  }

  /**
   * Puts `x` into a newest-first list in front of the first item that is
   * not more recent than it.
   */
  function Insert(x: NewsItem, s: seq<NewsItem>, stamp: string -> int): seq<NewsItem> {
    if s == [] || stamp(s[0].pubDate) <= stamp(x.pubDate) then [x] + s
    else [s[0]] + Insert(x, s[1..], stamp)
  }

  /** Inserting adds `x` once and keeps every other item. */
  lemma {:induction false} InsertCount(x: NewsItem, s: seq<NewsItem>, stamp: string -> int)
    ensures multiset(Insert(x, s, stamp)) == multiset(s) + multiset{x}
  {
    if s != [] && stamp(s[0].pubDate) > stamp(x.pubDate) {
      InsertCount(x, s[1..], stamp);
      assert s == [s[0]] + s[1..];
    }
  }

  /** Inserting into a newest-first list keeps it newest first. */
  lemma {:induction false} InsertKeepsOrder(x: NewsItem, s: seq<NewsItem>, stamp: string -> int)
    requires NewestFirst(s, stamp)
    ensures NewestFirst(Insert(x, s, stamp), stamp)
  {
    if s == [] || stamp(s[0].pubDate) <= stamp(x.pubDate) {
      ConsNewestFirst(x, s, stamp);
    } else {
      var rest := Insert(x, s[1..], stamp);
      assert NewestFirst(s[1..], stamp);
      InsertKeepsOrder(x, s[1..], stamp);
      InsertCount(x, s[1..], stamp);
      forall y | y in rest ensures stamp(y.pubDate) <= stamp(s[0].pubDate) {
        assert y in multiset(rest);
        assert y == x || y in multiset(s[1..]);
      }
      ConsNewestFirst(s[0], rest, stamp);
    }
  }

  /** A newest-first list stays newest first behind an item at least as recent as all of it. */
  lemma ConsNewestFirst(h: NewsItem, s: seq<NewsItem>, stamp: string -> int)
    requires NewestFirst(s, stamp)
    requires forall y :: y in s ==> stamp(y.pubDate) <= stamp(h.pubDate)
    ensures NewestFirst([h] + s, stamp)
  {
    var r := [h] + s;
    forall i, j | 0 <= i < j < |r| ensures stamp(r[i].pubDate) >= stamp(r[j].pubDate) {
      if i == 0 {
        assert r[j] == s[j - 1];
      } else {
        assert r[i] == s[i - 1] && r[j] == s[j - 1];
      }
    }
  }

  /**
   * `s.sort((a, b) => new Date(b.pubDate) - new Date(a.pubDate))`: newest
   * first, and (the sort being stable) items of equal date in their
   * original order.
   */
  function SortNewest(s: seq<NewsItem>, stamp: string -> int): (r: seq<NewsItem>)
    ensures NewestFirst(r, stamp)
    ensures multiset(r) == multiset(s)
  {
    if s == [] then []
    else
      var rest := SortNewest(s[1..], stamp);
      InsertKeepsOrder(s[0], rest, stamp);
      InsertCount(s[0], rest, stamp);
      assert s == [s[0]] + s[1..];
      Insert(s[0], rest, stamp)
  }

  /** The items whose date is `t`. */
  function DatedAt(stamp: string -> int, t: int): NewsItem -> bool {
    (x: NewsItem) => stamp(x.pubDate) == t
  }

  /** `Filter` on a list with a first element. */
  lemma FilterCons<T>(x: T, s: seq<T>, p: T -> bool)
    ensures Filter([x] + s, p) == (if p(x) then [x] else []) + Filter(s, p)
  {
    assert ([x] + s)[1..] == s;
  }

  /** Inserting puts the new item first among the items of its date. */
  lemma {:induction false} InsertStable(x: NewsItem, s: seq<NewsItem>, stamp: string -> int, t: int)
    ensures Filter(Insert(x, s, stamp), DatedAt(stamp, t))
         == (if stamp(x.pubDate) == t then [x] else []) + Filter(s, DatedAt(stamp, t))
    decreases |s|
  {
    if s == [] || stamp(s[0].pubDate) <= stamp(x.pubDate) {
      FilterCons(x, s, DatedAt(stamp, t));
    } else {
      InsertStable(x, s[1..], stamp, t);
      InsertStableStep(x, s, stamp, t);
    }
  }

  /** The step of `InsertStable` past a more recent first item. */
  lemma InsertStableStep(x: NewsItem, s: seq<NewsItem>, stamp: string -> int, t: int)
    requires s != [] && stamp(s[0].pubDate) > stamp(x.pubDate)
    requires Filter(Insert(x, s[1..], stamp), DatedAt(stamp, t))
          == (if stamp(x.pubDate) == t then [x] else []) + Filter(s[1..], DatedAt(stamp, t))
    ensures Filter(Insert(x, s, stamp), DatedAt(stamp, t))
         == (if stamp(x.pubDate) == t then [x] else []) + Filter(s, DatedAt(stamp, t))
  {
    var p := DatedAt(stamp, t);
    var rest := Insert(x, s[1..], stamp);
    var head := if p(s[0]) then [s[0]] else [];
    var mine := if stamp(x.pubDate) == t then [x] else [];
    var tail := Filter(s[1..], p);
    assert Filter(Insert(x, s, stamp), p) == head + Filter(rest, p) by {
      assert Insert(x, s, stamp) == [s[0]] + rest;
      FilterCons(s[0], rest, p);
    }
    assert Filter(s, p) == head + tail;
    assert head == [] || mine == [] by {
      assert p(s[0]) <==> stamp(s[0].pubDate) == t;
    }
    DisjointHeads(head, mine, tail);
  }

  /** Two lists of which at least one is empty can be put in front in either order. */
  lemma DisjointHeads<T>(head: seq<T>, mine: seq<T>, tail: seq<T>)
    requires head == [] || mine == []
    ensures head + (mine + tail) == mine + (head + tail)
  {
  }

  /** Sorting keeps the order of the items that share a date. */
  lemma {:induction false} SortNewestStable(s: seq<NewsItem>, stamp: string -> int, t: int)
    ensures Filter(SortNewest(s, stamp), DatedAt(stamp, t)) == Filter(s, DatedAt(stamp, t))
  {
    if s != [] {
      SortNewestStable(s[1..], stamp, t);
      InsertStable(s[0], SortNewest(s[1..], stamp), stamp, t);
    }
  }

  /** The title tier: title matches, newest first. */
  function TitleTier(pool: seq<NewsItem>, keyword: string, lower: string -> string, stamp: string -> int): seq<NewsItem> {
    SortNewest(TitleMatches(pool, keyword, lower), stamp)
  }

  /** The description tier: description-only matches, newest first. */
  function ContentTier(pool: seq<NewsItem>, keyword: string, lower: string -> string, stamp: string -> int): seq<NewsItem> {
    SortNewest(ContentMatches(pool, keyword, lower), stamp)
  }

  /** The ranked list: the title tier, then the description tier, cut to the limit. */
  function Rank(keyword: string, pool: seq<NewsItem>, lower: string -> string, stamp: string -> int): seq<NewsItem> {
    var all := TitleTier(pool, keyword, lower, stamp) + ContentTier(pool, keyword, lower, stamp);
    all[..Min(|all|, ResultLimit)]
  }

  /**
   * Each tier is newest first and holds exactly the pool items of its kind,
   * as often as the pool holds them.
   */
  lemma TiersAreSortedMatches(pool: seq<NewsItem>, keyword: string, lower: string -> string, stamp: string -> int)
    ensures var a := TitleTier(pool, keyword, lower, stamp);
      NewestFirst(a, stamp)
      && forall x :: multiset(a)[x] == if TitleHit(x, keyword, lower) then multiset(pool)[x] else 0
    ensures var b := ContentTier(pool, keyword, lower, stamp);
      NewestFirst(b, stamp)
      && forall x :: multiset(b)[x] == if ContentHit(x, keyword, lower) then multiset(pool)[x] else 0
  {
    FilterCount(pool, (x: NewsItem) => TitleHit(x, keyword, lower));
    FilterCount(pool, (x: NewsItem) => ContentHit(x, keyword, lower));
  }

  /** Membership in a tier is membership in the pool plus the tier's test. */
  lemma TierMembers(pool: seq<NewsItem>, keyword: string, lower: string -> string, stamp: string -> int)
    ensures forall x :: x in TitleTier(pool, keyword, lower, stamp) <==> x in pool && TitleHit(x, keyword, lower)
    ensures forall x :: x in ContentTier(pool, keyword, lower, stamp) <==> x in pool && ContentHit(x, keyword, lower)
  {
    var a, b := TitleTier(pool, keyword, lower, stamp), ContentTier(pool, keyword, lower, stamp);
    TiersAreSortedMatches(pool, keyword, lower, stamp);
    forall x ensures x in a <==> x in pool && TitleHit(x, keyword, lower) {
      assert x in a <==> x in multiset(a);
      assert x in pool <==> x in multiset(pool);
    }
    forall x ensures x in b <==> x in pool && ContentHit(x, keyword, lower) {
      assert x in b <==> x in multiset(b);
      assert x in pool <==> x in multiset(pool);
    }
  }

  /** A title match goes to the title tier and never to the description tier. */
  lemma TiersDisjoint(pool: seq<NewsItem>, keyword: string, lower: string -> string, stamp: string -> int)
    ensures forall x :: x in pool && TitleHit(x, keyword, lower) ==>
              x in TitleTier(pool, keyword, lower, stamp) && x !in ContentTier(pool, keyword, lower, stamp)
    ensures forall x :: x in ContentTier(pool, keyword, lower, stamp) ==> !TitleHit(x, keyword, lower)
  {
    TierMembers(pool, keyword, lower, stamp);
  }

  /**
   * The ranked list has at most fifty items, as many as there are matches
   * up to that limit, and is a prefix of the title tier followed by the
   * description tier.
   */
  lemma RankIsPrefix(keyword: string, pool: seq<NewsItem>, lower: string -> string, stamp: string -> int)
    ensures var r := Rank(keyword, pool, lower, stamp);
      |r| <= ResultLimit
      && |r| == Min(|TitleMatches(pool, keyword, lower)| + |ContentMatches(pool, keyword, lower)|, ResultLimit)
      && r == (TitleTier(pool, keyword, lower, stamp) + ContentTier(pool, keyword, lower, stamp))[..|r|]
  {
    var a, b := TitleTier(pool, keyword, lower, stamp), ContentTier(pool, keyword, lower, stamp);
    assert |a| == |multiset(a)| == |multiset(TitleMatches(pool, keyword, lower))|;
    assert |b| == |multiset(b)| == |multiset(ContentMatches(pool, keyword, lower))|;
  }

  /**
   * Every shown item is a pool item whose lower-cased title or description
   * contains the lower-cased query; a pool item that matches neither is
   * never shown.
   */
  lemma RankOnlyMatches(keyword: string, pool: seq<NewsItem>, lower: string -> string, stamp: string -> int)
    ensures forall x :: x in Rank(keyword, pool, lower, stamp) ==>
              x in pool && (TitleHit(x, keyword, lower) || ContentHit(x, keyword, lower))
    ensures forall x :: x in Rank(keyword, pool, lower, stamp) ==>
              Contains(lower(x.title), keyword) || Contains(lower(x.description), keyword)
  {
    var a, b := TitleTier(pool, keyword, lower, stamp), ContentTier(pool, keyword, lower, stamp);
    var r := Rank(keyword, pool, lower, stamp);
    TierMembers(pool, keyword, lower, stamp);
    forall x | x in r ensures x in a + b {
      var i :| 0 <= i < |r| && r[i] == x;
      assert (a + b)[i] == x;
    }
  }

  /**
   * Title matches come first: an item after a description-only match is
   * itself a description-only match.
   */
  lemma RankTitleTierFirst(keyword: string, pool: seq<NewsItem>, lower: string -> string, stamp: string -> int)
    ensures var r := Rank(keyword, pool, lower, stamp);
      forall i, j :: 0 <= i < j < |r| && TitleHit(r[j], keyword, lower) ==> TitleHit(r[i], keyword, lower)
  {
    var a, b := TitleTier(pool, keyword, lower, stamp), ContentTier(pool, keyword, lower, stamp);
    var r := Rank(keyword, pool, lower, stamp);
    TierMembers(pool, keyword, lower, stamp);
    forall i, j | 0 <= i < j < |r| && TitleHit(r[j], keyword, lower)
      ensures TitleHit(r[i], keyword, lower)
    {
      CutIndex(a, b, |r|, j);
      CutIndex(a, b, |r|, i);
    }
  }

  /** The `i`-th item of a cut concatenation comes from one of its halves. */
  lemma CutIndex(a: seq<NewsItem>, b: seq<NewsItem>, n: nat, i: nat)
    requires i < n <= |a| + |b|
    ensures (a + b)[..n][i] == if i < |a| then a[i] else b[i - |a|]
    ensures i < |a| ==> (a + b)[..n][i] in a
    ensures i >= |a| ==> (a + b)[..n][i] in b
  {
  }

  /** Within each tier the shown items are newest first. */
  lemma RankNewestFirstInTier(keyword: string, pool: seq<NewsItem>, lower: string -> string, stamp: string -> int)
    ensures var r := Rank(keyword, pool, lower, stamp);
      forall i, j :: 0 <= i < j < |r| && TitleHit(r[i], keyword, lower) == TitleHit(r[j], keyword, lower) ==>
        stamp(r[i].pubDate) >= stamp(r[j].pubDate)
  {
    var a, b := TitleTier(pool, keyword, lower, stamp), ContentTier(pool, keyword, lower, stamp);
    var r := Rank(keyword, pool, lower, stamp);
    TierMembers(pool, keyword, lower, stamp);
    forall i, j | 0 <= i < j < |r| && TitleHit(r[i], keyword, lower) == TitleHit(r[j], keyword, lower)
      ensures stamp(r[i].pubDate) >= stamp(r[j].pubDate)
    {
      assert (i < |a|) == (j < |a|) by {
        CutIndex(a, b, |r|, i);
        CutIndex(a, b, |r|, j);
      }
      CutSameHalf(a, b, |r|, i, j, stamp);
    }
  }

  /** Two entries of a cut concatenation from the same newest-first half are in date order. */
  lemma CutSameHalf(a: seq<NewsItem>, b: seq<NewsItem>, n: nat, i: nat, j: nat, stamp: string -> int)
    requires NewestFirst(a, stamp) && NewestFirst(b, stamp)
    requires i < j < n <= |a| + |b| && (i < |a|) == (j < |a|)
    ensures stamp((a + b)[..n][i].pubDate) >= stamp((a + b)[..n][j].pubDate)
  {
    CutIndex(a, b, n, i);
    CutIndex(a, b, n, j);
  }

  /**
   * With no more matches than the limit, every match is shown, as often as
   * the pool holds it.
   */
  lemma RankComplete(keyword: string, pool: seq<NewsItem>, lower: string -> string, stamp: string -> int)
    requires |TitleMatches(pool, keyword, lower)| + |ContentMatches(pool, keyword, lower)| <= ResultLimit
    ensures forall x :: multiset(Rank(keyword, pool, lower, stamp))[x]
              == if TitleHit(x, keyword, lower) || ContentHit(x, keyword, lower) then multiset(pool)[x] else 0
  {
    var a, b := TitleTier(pool, keyword, lower, stamp), ContentTier(pool, keyword, lower, stamp);
    RankIsPrefix(keyword, pool, lower, stamp);
    var r := Rank(keyword, pool, lower, stamp);
    assert r == a + b;
    TiersAreSortedMatches(pool, keyword, lower, stamp);
    forall x ensures multiset(r)[x]
      == if TitleHit(x, keyword, lower) || ContentHit(x, keyword, lower) then multiset(pool)[x] else 0
    {
      assert multiset(r)[x] == multiset(a)[x] + multiset(b)[x];
    }
  }

  /**
   * A title match that is not shown was cut by the limit: the list is full
   * of title matches, each at least as recent as it.
   */
  lemma RankKeepsNewestTitles(keyword: string, pool: seq<NewsItem>, lower: string -> string, stamp: string -> int, x: NewsItem)
    requires x in pool && TitleHit(x, keyword, lower) && x !in Rank(keyword, pool, lower, stamp)
    ensures var r := Rank(keyword, pool, lower, stamp);
      |r| == ResultLimit
      && forall y :: y in r ==> TitleHit(y, keyword, lower) && stamp(y.pubDate) >= stamp(x.pubDate)
  {
    var a, b := TitleTier(pool, keyword, lower, stamp), ContentTier(pool, keyword, lower, stamp);
    var r := Rank(keyword, pool, lower, stamp);
    RankIsPrefix(keyword, pool, lower, stamp);
    TierMembers(pool, keyword, lower, stamp);
    var p :| 0 <= p < |a| && a[p] == x;
    if p < |r| {
      CutIndex(a, b, |r|, p);
    }
    forall y | y in r ensures TitleHit(y, keyword, lower) && stamp(y.pubDate) >= stamp(x.pubDate) {
      var q :| 0 <= q < |r| && r[q] == y;
      CutIndex(a, b, |r|, q);
    }
  }

  /**
   * A description-only match that is not shown was cut by the limit: the
   * list is full, and every description-only match in it is at least as
   * recent as it.
   */
  lemma RankKeepsNewestContent(keyword: string, pool: seq<NewsItem>, lower: string -> string, stamp: string -> int, x: NewsItem)
    requires x in pool && ContentHit(x, keyword, lower) && x !in Rank(keyword, pool, lower, stamp)
    ensures var r := Rank(keyword, pool, lower, stamp);
      |r| == ResultLimit
      && forall y :: y in r && ContentHit(y, keyword, lower) ==> stamp(y.pubDate) >= stamp(x.pubDate)
  {
    var a, b := TitleTier(pool, keyword, lower, stamp), ContentTier(pool, keyword, lower, stamp);
    var r := Rank(keyword, pool, lower, stamp);
    TierMembers(pool, keyword, lower, stamp);
    var p :| 0 <= p < |b| && b[p] == x;
    CutDropsLater(a, b, |r|, p);
    forall y | y in r && ContentHit(y, keyword, lower) ensures stamp(y.pubDate) >= stamp(x.pubDate) {
      var q :| 0 <= q < |r| && r[q] == y;
      assert q >= |a| by {
        if q < |a| {
          CutIndex(a, b, |r|, q);
        }
      }
      CutSecondNewer(a, b, |r|, p, q, stamp);
    }
  }

  /** An entry of the second list missing from the cut concatenation was cut by the limit. */
  lemma CutDropsLater(a: seq<NewsItem>, b: seq<NewsItem>, n: nat, p: nat)
    requires n == Min(|a + b|, ResultLimit) && p < |b|
    requires b[p] !in (a + b)[..n]
    ensures n == ResultLimit && n <= |a| + p
  {
    if |a| + p < n {
      CutIndex(a, b, n, |a| + p);
    }
  }

  /** Past the first list, a cut concatenation is newest first against the second list's later items. */
  lemma CutSecondNewer(a: seq<NewsItem>, b: seq<NewsItem>, n: nat, p: nat, q: nat, stamp: string -> int)
    requires NewestFirst(b, stamp) && p < |b| && |a| <= q < n <= |a| + p
    ensures stamp((a + b)[..n][q].pubDate) >= stamp(b[p].pubDate)
  {
    assert (a + b)[..n][q] == b[q - |a|];
  }

  /** What one press of the search button yields. */
  datatype Outcome = EmptyQuery | Shown(items: seq<NewsItem>)

  /**
   * The search handler: an empty query is refused before anything is
   * fetched; otherwise both sources' normalised items are pooled, RSS items
   * first, and ranked by the lower-cased query.
   */
  function Search(
    query: string,
    feed: Option<seq<GoogleFeed.GoogleItem>>,
    reply: Option<NaverFeed.NaverReply>,
    hostOf: string -> Option<string>,
    lower: string -> string,
    stamp: string -> int): (o: Outcome)
    ensures o.EmptyQuery? <==> query == ""
  {
    if query == "" then EmptyQuery
    else
      var pool := GoogleFeed.Normalize(feed) + NaverFeed.Normalize(reply, hostOf);
      Shown(Rank(lower(query), pool, lower, stamp))
  }

  /**
   * A failed source does not stop the other: with one source failed, every
   * shown item comes from the other; with both failed, nothing is shown.
   */
  lemma SearchSurvivesFailedSource(
    query: string,
    feed: Option<seq<GoogleFeed.GoogleItem>>,
    reply: Option<NaverFeed.NaverReply>,
    hostOf: string -> Option<string>,
    lower: string -> string,
    stamp: string -> int)
    requires query != ""
    ensures feed.None? ==> forall x :: x in Search(query, feed, reply, hostOf, lower, stamp).items ==>
              x in NaverFeed.Normalize(reply, hostOf)
    ensures reply.None? ==> forall x :: x in Search(query, feed, reply, hostOf, lower, stamp).items ==>
              x in GoogleFeed.Normalize(feed)
    ensures feed.None? && reply.None? ==> Search(query, feed, reply, hostOf, lower, stamp).items == []
  {
    var pool := GoogleFeed.Normalize(feed) + NaverFeed.Normalize(reply, hostOf);
    RankOnlyMatches(lower(query), pool, lower, stamp);
    if feed.None? && reply.None? {
      RankIsPrefix(lower(query), pool, lower, stamp);
    }
  }
}
