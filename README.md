# News search pipeline of `weathersketch/news`

This project models the search that the browser app runs when the search button is pressed (`src/App.jsx`). It first normalises two news sources into one record shape:

- the Google News RSS feed: the first 100 `<item>` elements, with the publisher cut out of a `headline - publisher` title;
- the Naver news JSON reply: tags are stripped, and the publisher is resolved from the article's original link through the static `mediaMap` table.

It then pools the two lists, RSS items first. It ranks the pool in two tiers by the lower-cased query: items whose title matches, then items whose description matches and whose title does not. Each tier is sorted newest first, and the first 50 items are shown.

All of this code is pure, so the model is datatypes, functions and lemmas. There are no classes and no loops, because the source has none: it is `map`, `filter`, `sort` and `slice` over freshly built arrays.

Files:

- `text.dfy` holds the JavaScript string operations the pipeline uses: `includes`, `split`, `replace` with a string pattern (first occurrence only), and `trim` with the ECMAScript white-space set.
- `markup.dfy` holds the global replacement of `<[^>]+>`.
- `feeds.dfy` holds the shared `NewsItem` record and the two source normalisers.
- `ranking.dfy` holds the two-tier ranking and the search handler.

Several things the browser provides are parameters of the model:

- `lower` stands for `toLowerCase`.
- `stamp` stands for the instant `new Date(pubDate)` denotes, as an integer.
- `hostOf` stands for `new URL(link).hostname`. It returns `None` where the constructor throws.
- A source whose fetch or parse fails is given as `None`.
- The RSS items arrive as the texts of their child elements, with `None` for an absent child.

Behaviour of the code worth knowing:

1. The RSS publisher is `parts[1]` of `title.split(" - ")`. That is the text between the first and the second separator, not everything after the first one (`GoogleFeed.ThreePartTitle`).
2. `"www."` is removed at its first occurrence anywhere in the host name, not only as a leading prefix (`NaverFeed.SourceOfWwwHost`).
3. Only the JSON source strips tags. RSS titles and descriptions are taken as the feed gives them, so only JSON-source items are proved free of tags (`NaverFeed.NormalizeIsTagFree`).
4. The publisher can be empty. This happens for the title `"abc - "`, or for a host name that is exactly `"www."`.
5. A JSON item without a title makes `item.title.replace` throw inside the `map`. The `catch` then empties the whole JSON list, not just that item (`NaverFeed.NormalizeAll`).

## Model

| member | source | states |
|---|---|---|
| Text.IndexOf | src/App.jsx:56 | the index found is the first occurrence of the pattern, and none means it does not occur at all |
| Text.Contains | src/App.jsx:56 | `includes` holds exactly when the pattern occurs at some index |
| Text.Split | src/App.jsx:57 | `split` yields at least one part |
| Text.JoinSplit | src/App.jsx:57 | joining the parts of `split` with the separator gives back the text |
| Text.SplitPartsFree | src/App.jsx:57 | no part of `split` contains the separator |
| Text.SplitFirstTwo | src/App.jsx:57-59 | the first part ends at the first separator, and the second part runs from there to the next separator or to the end of the text |
| Text.ReplaceFirst | src/App.jsx:84 | `replace` with a string pattern changes nothing when the pattern is absent, and otherwise replaces exactly its first occurrence |
| Text.Trim | src/App.jsx:58-59 | `trim`: the slice of the text without leading and trailing ECMAScript white space, as `TrimIsMiddle` and `TrimEdges` state and `TrimKeeps` and `TrimIdempotent` use |
| Text.TrimIsMiddle | src/App.jsx:58-59 | `trim` returns a slice of the text with only white space outside it |
| Text.TrimEdges | src/App.jsx:58-59 | what `trim` returns is empty or has no white space at either of its ends |
| Text.TrimKeeps | src/App.jsx:58-59 | text with no white space at either end is left unchanged by `trim` |
| Text.TrimIdempotent | src/App.jsx:58-59 | trimming twice is trimming once |
| Markup.TagLength | src/App.jsx:91 | the length of the match of `<[^>]+>` at the start of the text, and none exactly when no such match starts there |
| Markup.StripTags | src/App.jsx:91-92 | stripping never lengthens the text and introduces no character that was not there |
| Markup.StripTagsIsTagFree | src/App.jsx:91-92 | after the global replacement no match of the pattern starts anywhere in the result |
| Markup.StripTagsKeepsTagFree | src/App.jsx:91-92 | text without a match is left as it is |
| Markup.StripTagsIdempotent | src/App.jsx:91-92 | stripping twice is stripping once |
| GoogleFeed.TextOr | src/App.jsx:50-54 | `text \|\| fallback`: the fallback for a missing or empty text, the text otherwise, as the `NormalizeItem` contract states for link, date, description and source |
| GoogleFeed.NormalizeItem | src/App.jsx:50-60 | link, date and description default to "" when missing or empty; without the separator the title is kept and the source defaults to "구글뉴스" |
| GoogleFeed.NormalizeAll | src/App.jsx:49 | the mapping keeps the length and maps each item in place |
| GoogleFeed.Normalize | src/App.jsx:49-67 | a failed feed gives no items; otherwise the first min(n, 100) items, in feed order, each normalised |
| GoogleFeed.TitleSplit | src/App.jsx:56-60 | a title with the separator gives the trimmed text before the first separator as title, and the trimmed text up to the second separator (or the end) as source |
| GoogleFeed.TwoPartTitle | src/App.jsx:56-60 | for `a - b` with no dash in either part, the title is trim(a) and the source trim(b) |
| GoogleFeed.ThreePartTitle | src/App.jsx:57-59 | for `a - b - c` the source is trim(b) only, not the rest of the title |
| GoogleFeed.TitleSplitExample | src/App.jsx:56-60 | "Storm warns coast - Daily Times" gives title "Storm warns coast" and source "Daily Times" |
| NaverFeed.LookupOr | src/App.jsx:4-20 | the fallback lookup of `mediaMap` is the table entry for a listed domain and the domain itself otherwise |
| NaverFeed.Domain | src/App.jsx:84 | `hostname.replace("www.", "")`: the host name with its first "www." cut out (`DomainCut`), or unchanged without one, as `ReplaceFirst` states |
| NaverFeed.DomainCut | src/App.jsx:84 | with "www." first at `i`, the domain is the host name without those four characters |
| NaverFeed.Publisher | src/App.jsx:85 | the table entry for a listed domain and the domain itself otherwise; `LookupOr` is proved equal to it |
| NaverFeed.ResolveSource | src/App.jsx:80-88 | the publisher of an item, by the three cases `SourceWithoutLink`, `SourceOfBadLink` and `SourceOfHost` state |
| NaverFeed.SourceOfHost | src/App.jsx:83-85 | a link the URL parser accepts gives the publisher of its host name's domain |
| NaverFeed.SourceWithoutLink | src/App.jsx:80-81 | a missing or empty original link gives "네이버뉴스" |
| NaverFeed.SourceOfBadLink | src/App.jsx:82-88 | an original link the URL parser rejects gives "언론사 미확인" |
| NaverFeed.SourceOfWwwHost | src/App.jsx:83-85 | the publisher is looked up under the host name with its first "www." cut out |
| NaverFeed.SourceOfPlainHost | src/App.jsx:83-85 | a host name without "www." is looked up as it is |
| NaverFeed.ResolveSourceExample | src/App.jsx:8 | the link https://www.hani.co.kr/x resolves to "한겨레" |
| NaverFeed.NormalizeItem | src/App.jsx:90-96 | title and description are tag-stripped (missing description gives ""), link and date are kept, the source is resolved, and neither text holds a tag |
| NaverFeed.NormalizeAll | src/App.jsx:79-97 | the mapping fails exactly when some item has no title; otherwise it keeps the length and maps each item in place |
| NaverFeed.Normalize | src/App.jsx:76-101 | a failed fetch, a missing `items` or an item without a title gives no items; otherwise as many items as the reply, in order |
| NaverFeed.NormalizeIsTagFree | src/App.jsx:91-92 | no item the JSON source yields has a tag left in its title or description |
| Ranking.TitleHit | src/App.jsx:124 | the lower-cased title contains the lower-cased query; `TierMembers` ties the title tier to it |
| Ranking.ContentHit | src/App.jsx:129-131 | the title does not match and the lower-cased description does; `TierMembers` and `TiersDisjoint` state the tiers it defines |
| Ranking.Filter | src/App.jsx:124 | `filter` keeps at most the input's length, and `FilterCount` states exactly which elements it keeps |
| Ranking.FilterCount | src/App.jsx:123-132 | `filter` keeps each passing element as often as the input holds it, and nothing else |
| Ranking.InsertCount | src/App.jsx:125 | inserting adds the item once and keeps every other item |
| Ranking.InsertKeepsOrder | src/App.jsx:125 | inserting into a newest-first list keeps it newest first |
| Ranking.SortNewest | src/App.jsx:125 | the sort returns a newest-first permutation of its input |
| Ranking.SortNewestStable | src/App.jsx:125 | the sort keeps the order of items that share a date, as the stable Array sort does |
| Ranking.TitleTier | src/App.jsx:123-126 | the title matches sorted newest first, as `TiersAreSortedMatches` and `TierMembers` state |
| Ranking.ContentTier | src/App.jsx:127-133 | the description-only matches sorted newest first, as `TiersAreSortedMatches` and `TierMembers` state |
| Ranking.Rank | src/App.jsx:120-136 | the shown list: the title tier then the description tier, cut to 50, as `RankIsPrefix`, `RankOnlyMatches`, `RankTitleTierFirst`, `RankNewestFirstInTier`, `RankComplete` and the two `RankKeepsNewest` lemmas state |
| Ranking.TiersAreSortedMatches | src/App.jsx:123-133 | each tier is newest first and a permutation of the pool items of its kind |
| Ranking.TierMembers | src/App.jsx:123-133 | an item is in a tier exactly when it is in the pool and passes that tier's test |
| Ranking.TiersDisjoint | src/App.jsx:127-133 | a title match is in the title tier and never in the description tier |
| Ranking.RankIsPrefix | src/App.jsx:136 | at most 50 items, as many as there are matches up to 50, and a prefix of title tier followed by description tier |
| Ranking.RankOnlyMatches | src/App.jsx:121-133 | every shown item is a pool item whose lower-cased title or description contains the lower-cased query |
| Ranking.RankTitleTierFirst | src/App.jsx:136 | no title match is shown after a description-only match |
| Ranking.RankNewestFirstInTier | src/App.jsx:123-136 | within each tier the shown items are newest first |
| Ranking.RankComplete | src/App.jsx:120-136 | with at most 50 matches, every match is shown as often as the pool holds it |
| Ranking.RankKeepsNewestTitles | src/App.jsx:136 | a title match left out was cut by the limit: 50 title matches are shown, each at least as recent |
| Ranking.RankKeepsNewestContent | src/App.jsx:136 | a description-only match left out was cut by the limit: 50 items are shown, and each shown description-only match is at least as recent |
| Ranking.Search | src/App.jsx:108-112 | the search is refused exactly when the query is empty |
| Ranking.SearchSurvivesFailedSource | src/App.jsx:114-120 | with one source failed every shown item comes from the other, and with both failed nothing is shown |

## Left out

- `timeAgo` (src/App.jsx:26-36) is not modelled: it reads the wall clock and uses floating-point division.
- `server/server.js`, the HTTP proxy, and `vite.config.js`, the development-server configuration, are not part of this model: they are I/O and build plumbing.
- `fetch`, `DOMParser` and `querySelector`, `new URL` and `new Date` are foreign calls. Their results are inputs or the parameters `hostOf` and `stamp`.
- Dates that do not parse are left out. `new Date(b) - new Date(a)` is NaN for them, which makes the sort comparator inconsistent. `stamp` yields an integer for every date.
- `Promise.all` and the asynchronous fan-in are not modelled: the two source results are plain inputs.
- React state, `alert`, `setResults` and the rendering are not modelled. The refused empty query is the `EmptyQuery` outcome.
- `toLowerCase` is the parameter `lower`. Its Unicode case mapping is not modelled.
- Strings are sequences of Unicode characters, while JavaScript strings are sequences of UTF-16 code units. On well-formed text, `includes`, `split`, `replace`, `trim` and `[^>]` behave alike either way, but a lone surrogate, which a JSON reply can carry, cannot be represented.
- NaverFeed.LookupOr: the object lookup `mediaMap[d]` also finds inherited `Object.prototype` keys such as `"constructor"`. The model only looks up the fifteen table entries.
- NaverFeed.NormalizeItem: `link` and `pubDate` of a JSON item are taken as present strings. A missing one, which would flow on as `undefined`, is not modelled.
- Ranking.Search: its own contract only separates the refused query from a shown list. What is shown is stated by the ranking lemmas on `Rank`.
