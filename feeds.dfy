/** The record both sources are normalised into. */
module News {
  /**
   * One article. `pubDate` is kept as the source's own text; only the
   * ranking turns it into an instant.
   */
  datatype NewsItem = NewsItem(
    title: string,
    description: string,
    link: string,
    source: string,
    pubDate: string)

  function Min(a: int, b: int): int {
    if a <= b then a else b
  }
}

/**
 * The RSS source: each `<item>` element arrives as the text of its
 * `title`, `link`, `pubDate`, `source` and `description` children, `None`
 * for a child that is absent (the `?.textContent` that yields undefined).
 */
module GoogleFeed {
  import opened Optional
  import opened Text
  import opened News

  datatype GoogleItem = GoogleItem(
    title: Option<string>,
    link: Option<string>,
    pubDate: Option<string>,
    source: Option<string>,
    description: Option<string>)

  /** How many feed items are kept. */
  const MaxItems := 100
  /** The source label used when the item names none. */
  const DefaultSource := "구글뉴스"
  /** The separator between headline and publisher in the feed's titles. */
  const Separator := " - "

  /** `text || fallback`: the fallback replaces a missing or empty text. */
  function TextOr(text: Option<string>, fallback: string): string {
    if text.Some? && text.value != "" then text.value else fallback
  }

  /** The per-item callback of the feed mapping. */
  function NormalizeItem(item: GoogleItem): (n: NewsItem)
    ensures n.link == TextOr(item.link, "")
    ensures n.pubDate == TextOr(item.pubDate, "")
    ensures n.description == TextOr(item.description, "")
    ensures !Contains(TextOr(item.title, ""), Separator) ==>
              n.title == TextOr(item.title, "") && n.source == TextOr(item.source, DefaultSource)
  {
    var title := TextOr(item.title, "");
    var link := TextOr(item.link, "");
    var pubDate := TextOr(item.pubDate, "");
    var source := TextOr(item.source, DefaultSource);
    var description := TextOr(item.description, "");
    if Contains(title, Separator) then
      var parts := Split(title, Separator);
      SplitAt(title, Separator, IndexOf(title, Separator).value);
      NewsItem(Trim(parts[0]), description, link, Trim(parts[1]), pubDate)
    else
      NewsItem(title, description, link, source, pubDate)
  }

  /** `items.map(NormalizeItem)`. */
  function NormalizeAll(items: seq<GoogleItem>): (r: seq<NewsItem>)
    ensures |r| == |items|
    ensures forall i :: 0 <= i < |items| ==> r[i] == NormalizeItem(items[i])
  {
    if items == [] then [] else [NormalizeItem(items[0])] + NormalizeAll(items[1..])
  }

  /**
   * The RSS source's result: `None` stands for a failed fetch or parse,
   * which the source turns into the empty list.
   */
  function Normalize(feed: Option<seq<GoogleItem>>): (r: seq<NewsItem>)
    ensures feed.None? ==> r == []
    ensures feed.Some? ==> |r| == Min(|feed.value|, MaxItems)
    ensures feed.Some? ==> forall i :: 0 <= i < |r| ==> r[i] == NormalizeItem(feed.value[i])
  {
    match feed
    case None => []
    case Some(items) => NormalizeAll(items[..Min(|items|, MaxItems)])
  }

  /**
   * A title with the separator is cut at it: the headline is the trimmed
   * text before the first separator, the publisher the trimmed text between
   * the first and the second separator (or the end of the title).
   */
  lemma TitleSplit(item: GoogleItem, i: nat, k: nat)
    requires FirstAt(TextOr(item.title, ""), Separator, 0, i)
    requires SegmentEndsAt(TextOr(item.title, ""), Separator, i + |Separator|, k)
    ensures var t := TextOr(item.title, "");
      i + |Separator| <= k <= |t|
      && NormalizeItem(item).title == Trim(t[..i])
      && NormalizeItem(item).source == Trim(t[i + |Separator|..k])
  {
    var t := TextOr(item.title, "");
    SplitFirstTwo(t, Separator, i, k);
  }

  /** An occurrence of the separator has its dash right after its start. */
  lemma SeparatorDash(s: string, j: int)
    requires OccursAt(s, Separator, j)
    ensures j + 1 < |s| && s[j + 1] == '-'
  {
    assert s[j..j + 3][1] == s[j + 1];
  }

  /**
   * In `p + a + " - " + rest` with no dash in `a`, the first separator at or
   * after `p` is the one right after `a`.
   */
  lemma FirstSeparator(p: string, a: string, rest: string)
    requires '-' !in a
    ensures FirstAt(p + a + Separator + rest, Separator, |p|, |p| + |a|)
  {
    var s := p + a + Separator + rest;
    assert s[|p| + |a|..|p| + |a| + 3] == Separator;
    forall j | |p| <= j < |p| + |a| ensures !OccursAt(s, Separator, j) {
      if OccursAt(s, Separator, j) {
        SeparatorDash(s, j);
      }
    }
  }

  /** With no dash in `b`, a segment `b` that closes the text ends at the end. */
  lemma LastSegment(p: string, b: string)
    requires '-' !in b
    ensures SegmentEndsAt(p + b, Separator, |p|, |p + b|)
  {
    var s := p + b;
    forall j | |p| <= j ensures !OccursAt(s, Separator, j) {
      if OccursAt(s, Separator, j) {
        SeparatorDash(s, j);
      }
    }
  }

  /**
   * The feed's usual title form `headline - publisher`: with no dash in
   * either part, the two parts come back trimmed.
   */
  lemma TwoPartTitle(item: GoogleItem, a: string, b: string)
    requires '-' !in a && '-' !in b
    requires item.title == Some(a + Separator + b)
    ensures NormalizeItem(item).title == Trim(a) && NormalizeItem(item).source == Trim(b)
  {
    var t := a + Separator + b;
    var i, k := |a|, |t|;
    assert TextOr(item.title, "") == t;
    assert FirstAt(t, Separator, 0, i) by {
      FirstSeparator("", a, b);
      assert "" + a + Separator + b == t;
    }
    assert SegmentEndsAt(t, Separator, i + 3, k) by {
      LastSegment(a + Separator, b);
    }
    assert t[..i] == a by { PrefixOf(a + Separator, b); }
    assert t[i + 3..k] == b by { SuffixOf(a + Separator, b); }
    SplitProjections(item, t, i, k);
  }

  /**
   * A title with two separators `headline - middle - rest`: the publisher is
   * the middle part only, not everything after the first separator.
   */
  lemma ThreePartTitle(item: GoogleItem, a: string, b: string, c: string)
    requires '-' !in a && '-' !in b
    requires item.title == Some(a + Separator + b + Separator + c)
    ensures NormalizeItem(item).title == Trim(a) && NormalizeItem(item).source == Trim(b)
  {
    var t := a + Separator + b + Separator + c;
    var i, k := |a|, |a| + 3 + |b|;
    assert TextOr(item.title, "") == t;
    assert FirstAt(t, Separator, 0, i) by { FirstOfThree(a, b, c); }
    assert SegmentEndsAt(t, Separator, i + 3, k) by { FirstSeparator(a + Separator, b, c); }
    assert t[..i] == a by { PrefixOfThree(a, b, c); }
    assert t[i + 3..k] == b by { MiddleOfThree(a, b, c); }
    SplitProjections(item, t, i, k);
  }

  lemma SplitProjections(item: GoogleItem, t: string, i: nat, k: nat)
    requires TextOr(item.title, "") == t
    requires FirstAt(t, Separator, 0, i) && SegmentEndsAt(t, Separator, i + 3, k)
    ensures i + 3 <= k <= |t|
    ensures NormalizeItem(item).title == Trim(t[..i])
    ensures NormalizeItem(item).source == Trim(t[i + 3..k])
  {
    TitleSplit(item, i, k);
  }

  lemma FirstOfThree(a: string, b: string, c: string)
    requires '-' !in a
    ensures FirstAt(a + Separator + b + Separator + c, Separator, 0, |a|)
  {
    FirstSeparator("", a, b + Separator + c);
    assert "" + a + Separator + (b + Separator + c) == a + Separator + b + Separator + c;
  }

  lemma MiddleOfThree(a: string, b: string, c: string)
    ensures var t := a + Separator + b + Separator + c; t[|a| + 3..|a| + 3 + |b|] == b
  {
  }

  lemma PrefixOfThree(a: string, b: string, c: string)
    ensures (a + Separator + b + Separator + c)[..|a|] == a
  {
  }

  lemma PrefixOf(a: string, b: string)
    ensures (a + b)[..|a|] == a
  {
  }

  lemma SuffixOf(a: string, b: string)
    ensures (a + b)[|a|..|a + b|] == b
  {
  }

  /** The headline and the publisher of the feed's usual title form. */
  lemma TitleSplitExample(item: GoogleItem, headline: string, publisher: string)
    requires headline == "Storm warns coast" && publisher == "Daily Times"
    requires item == GoogleItem(Some(headline + Separator + publisher), None, None, None, None)
    ensures NormalizeItem(item).title == headline
    ensures NormalizeItem(item).source == publisher
  {
    TwoPartTitle(item, headline, publisher);
    ExampleTrims(headline, publisher);
  }

  lemma ExampleTrims(headline: string, publisher: string)
    requires headline == "Storm warns coast" && publisher == "Daily Times"
    ensures Trim(headline) == headline && Trim(publisher) == publisher
  {
    assert headline[0] == 'S' && headline[|headline| - 1] == 't';
    assert publisher[0] == 'D' && publisher[|publisher| - 1] == 's';
    LettersAreNotWhiteSpace();
    TrimKeeps(headline);
    TrimKeeps(publisher);
  }

  lemma LettersAreNotWhiteSpace()
    ensures !IsWhiteSpace('S') && !IsWhiteSpace('t') && !IsWhiteSpace('D') && !IsWhiteSpace('s')
  {
  }
}

/**
 * The JSON source: the reply's `items`, each with `title`, `description`,
 * `link`, `originallink` and `pubDate`. `None` marks a field the reply
 * leaves out.
 */
module NaverFeed {
  import opened Optional
  import opened Text
  import opened Markup
  import opened News

  datatype NaverItem = NaverItem(
    title: Option<string>,
    description: Option<string>,
    link: string,
    originallink: Option<string>,
    pubDate: string)

  datatype NaverReply = NaverReply(items: Option<seq<NaverItem>>)

  /** Publisher names by domain. */
  const MediaMap: map<string, string> := map[
    "chosun.com" := "조선일보",
    "joongang.co.kr" := "중앙일보",
    "donga.com" := "동아일보",
    "hani.co.kr" := "한겨레",
    "kyunghyang.com" := "경향신문",
    "kbs.co.kr" := "KBS",
    "sbs.co.kr" := "SBS",
    "imbc.com" := "MBC",
    "ytn.co.kr" := "YTN",
    "yna.co.kr" := "연합뉴스",
    "news.mt.co.kr" := "머니투데이",
    "hankookilbo.com" := "한국일보",
    "dt.co.kr" := "디지털타임즈",
    "kmib.co.kr" := "국민일보",
    "v.daum.net" := "다음 뉴스"
  ]

  /** The label for an item without an original link. */
  const DefaultSource := "네이버뉴스"
  /** The label for an original link that is not a URL. */
  const UnknownSource := "언론사 미확인"
  /** The text removed from the host name, once, wherever it first occurs. */
  const Www := "www."

  /** `hostname.replace("www.", "")`. */
  function Domain(host: string): string {
    ReplaceFirst(host, Www, "")
  }

  /** The publisher name for a domain: the table's entry, or the domain itself. */
  function Publisher(d: string): string {
    if d in MediaMap then MediaMap[d] else d
  }

  /**
   * The publisher for an item. `hostOf` stands for `new URL(link).hostname`,
   * `None` when the constructor throws.
   */
  function ResolveSource(originallink: Option<string>, hostOf: string -> Option<string>): string {
    if originallink.None? || originallink.value == "" then DefaultSource
    else match hostOf(originallink.value)
      case None => UnknownSource
      case Some(host) => LookupOr(Domain(host))
  }

  /**
   * `mediaMap[d] || d`. Every name in the table is non-empty, so this is
   * the table's entry when there is one.
   */
  function LookupOr(d: string): (r: string)
    ensures r == Publisher(d)
  {
    assert forall k :: k in MediaMap ==> MediaMap[k] != "";
    if d in MediaMap && MediaMap[d] != "" then MediaMap[d] else d
  }

  /** A missing or empty original link gives the fixed JSON-source label. */
  lemma SourceWithoutLink(originallink: Option<string>, hostOf: string -> Option<string>)
    requires originallink.None? || originallink.value == ""
    ensures ResolveSource(originallink, hostOf) == DefaultSource
  {
  }

  /** An original link that is not a URL gives the "unknown publisher" label. */
  lemma SourceOfBadLink(link: string, hostOf: string -> Option<string>)
    requires link != "" && hostOf(link).None?
    ensures ResolveSource(Some(link), hostOf) == UnknownSource
  {
  }

  /** A parsed original link is looked up under its host name's domain. */
  lemma SourceOfHost(link: string, hostOf: string -> Option<string>, host: string)
    requires link != "" && hostOf(link) == Some(host)
    ensures ResolveSource(Some(link), hostOf) == Publisher(Domain(host))
  {
  }

  /**
   * A host name with `www.` first occurring at `i`: the publisher is looked
   * up under the host name with that one occurrence cut out.
   */
  lemma SourceOfWwwHost(link: string, hostOf: string -> Option<string>, host: string, i: nat)
    requires link != "" && hostOf(link) == Some(host)
    requires FirstAt(host, Www, 0, i)
    ensures ResolveSource(Some(link), hostOf) == Publisher(host[..i] + host[i + |Www|..])
  {
    DomainCut(host, i);
    SourceOfHost(link, hostOf, host);
  }

  /** Cutting the first `www.` out of a host name. */
  lemma DomainCut(host: string, i: nat)
    requires FirstAt(host, Www, 0, i)
    ensures Domain(host) == host[..i] + host[i + |Www|..]
  {
  }

  /** A host name without `www.` is looked up as it is. */
  lemma SourceOfPlainHost(link: string, hostOf: string -> Option<string>, host: string)
    requires link != "" && hostOf(link) == Some(host)
    requires forall j :: 0 <= j ==> !OccursAt(host, Www, j)
    ensures ResolveSource(Some(link), hostOf) == Publisher(host)
  {
    assert Domain(host) == host;
    SourceOfHost(link, hostOf, host);
  }

  /** Example: a link on the table's domain behind `www.`. */
  lemma ResolveSourceExample(link: string, host: string, hostOf: string -> Option<string>)
    requires link == "https://www.hani.co.kr/x" && host == "www.hani.co.kr"
    requires hostOf(link) == Some(host)
    ensures ResolveSource(Some(link), hostOf) == "한겨레"
  {
    assert FirstAt(host, Www, 0, 0) by {
      assert host[0..4] == Www;
    }
    assert host[..0] + host[4..] == "hani.co.kr";
    SourceOfWwwHost(link, hostOf, host, 0);
    assert Publisher("hani.co.kr") == "한겨레" by {}
  }

  /**
   * The per-item callback. It requires the title because the source calls
   * `title.replace` unguarded: a missing title throws (see `NormalizeAll`).
   */
  function NormalizeItem(item: NaverItem, hostOf: string -> Option<string>): (n: NewsItem)
    requires item.title.Some?
    ensures n.title == StripTags(item.title.value)
    ensures n.description == if item.description.Some? then StripTags(item.description.value) else ""
    ensures n.link == item.link && n.pubDate == item.pubDate
    ensures n.source == ResolveSource(item.originallink, hostOf)
    ensures TagFree(n.title) && TagFree(n.description)
  {
    StripTagsIsTagFree(item.title.value);
    StripTagsIsTagFree(if item.description.Some? then item.description.value else "");
    NewsItem(
      StripTags(item.title.value),
      if item.description.Some? then StripTags(item.description.value) else "",
      item.link,
      ResolveSource(item.originallink, hostOf),
      item.pubDate)
  }

  /** `items.map(NormalizeItem)`, which throws when some item has no title. */
  function NormalizeAll(items: seq<NaverItem>, hostOf: string -> Option<string>): (r: Option<seq<NewsItem>>)
    ensures r.None? <==> exists i :: 0 <= i < |items| && items[i].title.None?
    ensures r.Some? ==> |r.value| == |items|
    ensures r.Some? ==> forall i :: 0 <= i < |items| ==> items[i].title.Some? && r.value[i] == NormalizeItem(items[i], hostOf)
  {
    if items == [] then Some([])
    else if items[0].title.None? then None
    else match NormalizeAll(items[1..], hostOf)
      case None =>
        assert exists i :: 0 <= i < |items[1..]| && items[1..][i].title.None?;
        None
      case Some(rest) =>
        assert forall i :: 1 <= i < |items| ==> items[i] == items[1..][i - 1];
        Some([NormalizeItem(items[0], hostOf)] + rest)
  }

  /**
   * The JSON source's result. `None` stands for a failed fetch or a body
   * that is not JSON; a reply without `items` counts as no items; a thrown
   * error inside the mapping empties the whole list.
   */
  function Normalize(reply: Option<NaverReply>, hostOf: string -> Option<string>): (r: seq<NewsItem>)
    ensures reply.None? || reply.value.items.None? ==> r == []
    ensures reply.Some? && reply.value.items.Some? ==>
              var items := reply.value.items.value;
              ((exists i :: 0 <= i < |items| && items[i].title.None?) ==> r == [])
              && ((forall i :: 0 <= i < |items| ==> items[i].title.Some?) ==>
                   |r| == |items| && forall i :: 0 <= i < |items| ==> r[i] == NormalizeItem(items[i], hostOf))
  {
    if reply.None? || reply.value.items.None? then []
    else match NormalizeAll(reply.value.items.value, hostOf)
      case None => []
      case Some(r) => r
  }

  /** No item the JSON source yields has a tag left in its title or description. */
  lemma NormalizeIsTagFree(reply: Option<NaverReply>, hostOf: string -> Option<string>)
    ensures forall n :: n in Normalize(reply, hostOf) ==> TagFree(n.title) && TagFree(n.description)
  {
    var r := Normalize(reply, hostOf);
    forall n | n in r ensures TagFree(n.title) && TagFree(n.description) {
      var i :| 0 <= i < |r| && r[i] == n;
      var items := reply.value.items.value;
      assert r[i] == NormalizeItem(items[i], hostOf);
    }
  }
}
