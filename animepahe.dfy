/**
  The AnimePahe provider: shaping of the JSON search API's items into search results, the
  split of a result id back into its numeric id and title, the session lookup that precedes
  an episode listing, the paginated release list with its final sort, and the play page's
  quality buttons. Every HTTP response is an input; the HTML of the detail page and of the
  play page arrives already parsed into the strings the code reads from it.
*/
module AnimePahe {
  import opened Wrappers
  import opened Strings
  import opened Titles
  import StableSort

  // ------------------------------------------------------------------
  // Search results
  // ------------------------------------------------------------------

  /** One element of the search API's `data` array. */
  datatype SearchItem = SearchItem(
    id: nat, title: string, kind: string, episodes: int, status: string, season: string,
    year: int, score: real, poster: string, session: string)

  /** The object literal's second `episodes` key replaces its first one. */
  datatype EpisodeCounts = EpisodeCounts(sub: Option<int>, dub: string)

  /** A search result, as handed to the AnimePahe mapper. */
  datatype SearchResult = SearchResult(
    id: string, title: string, name: string, kind: string, episodes: EpisodeCounts,
    status: string, season: string, year: int, score: real, poster: string, session: string)

  /**
    One search result: the id is the numeric id and the title joined by `-`, so that the
    part before the first `-` is the numeric id; missing fields take their defaults.
  */
  function ShapeResult(item: SearchItem): (r: SearchResult)
    ensures SplitOn(r.id, "-")[0] == DecimalString(item.id)
    ensures r.title == item.title && r.name == item.title && r.session == item.session
    ensures r.kind == (if item.kind == [] then "TV" else item.kind)
    ensures r.status == (if item.status == [] then "Unknown" else item.status)
    ensures r.season == (if item.season == [] then "Unknown" else item.season)
    ensures r.year == item.year && r.score == item.score && r.poster == item.poster
    ensures r.episodes.dub == "??" && r.episodes.sub == (if item.episodes == 0 then None else Some(item.episodes))
  {
    var digits := DecimalString(item.id);
    assert '-' !in digits by {
      assert forall i :: 0 <= i < |digits| ==> IsDigit(digits[i]);
    }
    SplitAfterChar(digits, '-', item.title);
    SearchResult(
      digits + "-" + item.title,
      item.title,
      item.title,
      if item.kind == [] then "TV" else item.kind,
      EpisodeCounts(if item.episodes == 0 then None else Some(item.episodes), "??"),
      if item.status == [] then "Unknown" else item.status,
      if item.season == [] then "Unknown" else item.season,
      item.year,
      item.score,
      item.poster,
      item.session)
  }

  /**
    `scrapeSearchResults` once the response has arrived: one result per item, in order, and
    none when `data` is missing or empty.
  */
  method ScrapeSearchResults(data: Option<seq<SearchItem>>) returns (results: seq<SearchResult>)
    ensures data.None? ==> results == []
    ensures data.Some? ==> |results| == |data.value|
    ensures data.Some? ==> forall i :: 0 <= i < |results| ==> results[i] == ShapeResult(data.value[i])
  {
    results := [];
    if data.None? || |data.value| == 0 {
      return;
    }
    var items := data.value;
    var i := 0;
    while i < |items|
      invariant 0 <= i <= |items|
      invariant |results| == i
      invariant forall j :: 0 <= j < i ==> results[j] == ShapeResult(items[j])
    {
      results := results + [ShapeResult(items[i])];
      i := i + 1;
    }
  }

  /** `url.split('-')[0]` and `url.split('-')[1]` (None where JavaScript gives undefined). */
  function SplitResultId(url: string): (string, Option<string>) {
    var parts := SplitOn(url, "-");
    (parts[0], if |parts| > 1 then Some(parts[1]) else None)
  }

  /** A result id splits back into the numeric id and the title when the title has no `-`. */
  lemma ResultIdRoundTrip(item: SearchItem)
    requires '-' !in item.title
    ensures SplitResultId(ShapeResult(item).id) == (DecimalString(item.id), Some(item.title))
  {
    var digits := DecimalString(item.id);
    assert '-' !in digits by {
      assert forall i :: 0 <= i < |digits| ==> IsDigit(digits[i]);
    }
    SplitAfterChar(digits, '-', item.title);
    IncludesChar(item.title, '-');
    SplitNoOccurrence(item.title, "-");
  }

  /** A title containing `-` comes back cut at its first `-`. */
  lemma ResultIdCutsTitle(item: SearchItem)
    requires '-' in item.title
    ensures var t := SplitResultId(ShapeResult(item).id).1;
      t.Some? && t.value != item.title && 0 <= IndexOf(item.title, "-")
      && t.value == item.title[..IndexOf(item.title, "-")]
  {
    var digits := DecimalString(item.id);
    assert '-' !in digits by {
      assert forall i :: 0 <= i < |digits| ==> IsDigit(digits[i]);
    }
    SplitAfterChar(digits, '-', item.title);
    IncludesChar(item.title, '-');
    SplitAtFirst(item.title, "-");
  }

  // ------------------------------------------------------------------
  // Session lookup
  // ------------------------------------------------------------------

  datatype SessionItem = SessionItem(id: nat, title: string, session: string)

  const SessionError: string := "Failed to get session"

  function Min(a: nat, b: nat): nat { if a <= b then a else b }

  function Max(a: nat, b: nat): nat { if a <= b then b else a }

  /**
    The similarity of two normalised titles used to pick a session: 1 when equal,
    0.8 times the length ratio when one contains the other, otherwise the share of the
    search words found among the candidate's words relative to the longer word list.
  */
  function SessionSimilarity(search: string, candidate: string): (r: real)
    ensures 0.0 <= r <= 1.0
    ensures search == candidate ==> r == 1.0
    ensures search != candidate && (Includes(candidate, search) || Includes(search, candidate))
      ==> r <= 0.8
  {
    if candidate == search then 1.0
    else if Includes(candidate, search) || Includes(search, candidate) then
      var lo := Min(|candidate|, |search|);
      var hi := Max(|candidate|, |search|);
      assert hi > 0;
      RatioInUnit(lo, hi);
      0.8 * (lo as real / hi as real)
    else
      var searchWords := SplitOn(search, " ");
      var animeWords := SplitOn(candidate, " ");
      var common := |CommonWords(searchWords, animeWords)|;
      RatioInUnit(common, Max(|searchWords|, |animeWords|));
      common as real / Max(|searchWords|, |animeWords|) as real
  }

  predicate IdMatches(animeId: string, item: SessionItem) {
    animeId != [] && DecimalString(item.id) == animeId
  }

  /** The index of the first item whose id is `animeId` (`data.find`). */
  function FirstIdMatch(animeId: string, data: seq<SessionItem>): (r: Option<nat>)
    ensures r.Some? ==>
      r.value < |data| && IdMatches(animeId, data[r.value])
      && (forall j :: 0 <= j < r.value ==> !IdMatches(animeId, data[j]))
    ensures r.None? <==> forall j :: 0 <= j < |data| ==> !IdMatches(animeId, data[j])
  {
    if data == [] then None
    else if IdMatches(animeId, data[0]) then Some(0)
    else
      var rest := FirstIdMatch(animeId, data[1..]);
      assert forall j :: 1 <= j < |data| ==> data[j] == data[1..][j - 1];
      if rest.None? then None else Some(rest.value + 1)
  }

  /** The similarity of each item's normalised title to the normalised search title. */
  function Scores(search: string, data: seq<SessionItem>): (xs: seq<real>)
    ensures |xs| == |data|
    ensures forall i :: 0 <= i < |xs| ==> 0.0 <= xs[i] <= 1.0
  {
    seq(|data|, i requires 0 <= i < |data| => SessionSimilarity(search, Normalize(data[i].title)))
  }

  /** `k` holds the highest value of `xs`, and no earlier element reaches it. */
  predicate FirstMax(xs: seq<real>, k: int) {
    0 <= k < |xs|
    && (forall j :: 0 <= j < |xs| ==> xs[j] <= xs[k])
    && (forall j :: 0 <= j < k ==> xs[j] < xs[k])
  }

  predicate AllAtMost(xs: seq<real>, bound: real) {
    forall j :: 0 <= j < |xs| ==> xs[j] <= bound
  }

  /**
    The choice among items with no id match: the earliest best-scoring item when its score
    exceeds 0.5, otherwise the first item.
  */
  predicate BestOrFirst(xs: seq<real>, k: int) {
    (FirstMax(xs, k) && xs[k] > 0.5) || (k == 0 && |xs| > 0 && AllAtMost(xs, 0.5))
  }

  /**
    `_getSession` once the search response has arrived. No results is an error; an item
    whose id is `animeId` wins; otherwise the earliest item of highest similarity wins if
    that similarity exceeds 0.5, and the first item otherwise. A missing title fails at the
    normalisation step, after the id scan.
  */
  method GetSession(title: Option<string>, animeId: string, data: seq<SessionItem>)
    returns (r: Result<string, string>)
    ensures data == [] ==> r == Failure(SessionError)
    ensures data != [] && FirstIdMatch(animeId, data).Some? ==>
      r == Success(data[FirstIdMatch(animeId, data).value].session)
    ensures data != [] && FirstIdMatch(animeId, data).None? && title.None? ==>
      r == Failure(SessionError)
    ensures data != [] && FirstIdMatch(animeId, data).None? && title.Some? ==>
      (exists k :: 0 <= k < |data| && BestOrFirst(Scores(Normalize(title.value), data), k)
        && r == Success(data[k].session))
  {
    if data == [] {
      return Failure(SessionError);
    }
    if animeId != [] {
      var i := 0;
      while i < |data|
        invariant 0 <= i <= |data|
        invariant forall j :: 0 <= j < i ==> !IdMatches(animeId, data[j])
      {
        if DecimalString(data[i].id) == animeId {
          assert FirstIdMatch(animeId, data) == Some(i);
          return Success(data[i].session);
        }
        i := i + 1;
      }
    }
    if title.None? {
      return Failure(SessionError);
    }
    var k := PickBest(Scores(Normalize(title.value), data));
    return Success(data[k].session);
  }

  /**
    The loop over the similarities: the earliest strictly highest one above 0 is kept, and
    taken when it exceeds 0.5; otherwise the first index.
  */
  method PickBest(xs: seq<real>) returns (k: nat)
    requires |xs| > 0
    ensures k < |xs| && BestOrFirst(xs, k)
  {
    var best := -1;
    var highest := 0.0;
    var i := 0;
    while i < |xs|
      invariant 0 <= i <= |xs|
      invariant -1 <= best < i
      invariant best == -1 ==> highest == 0.0
      invariant best >= 0 ==> highest == xs[best] && FirstMax(xs[..i], best)
      invariant AllAtMost(xs[..i], highest)
    {
      if xs[i] > highest {
        highest := xs[i];
        best := i;
      }
      i := i + 1;
    }
    assert xs[..|xs|] == xs;
    if best >= 0 && highest > 0.5 {
      return best;
    }
    return 0;
  }

  /** An item whose normalised title equals the normalised search title is chosen, or an earlier one equally good. */
  lemma ExactTitleWins(search: string, data: seq<SessionItem>, e: nat, k: int)
    requires e < |data| && Normalize(data[e].title) == search
    requires BestOrFirst(Scores(search, data), k)
    ensures Scores(search, data)[k] == 1.0 && k <= e
  {
    var xs := Scores(search, data);
    assert xs[e] == 1.0;
  }

  // ------------------------------------------------------------------
  // Release list
  // ------------------------------------------------------------------

  /** One element of a release page's `data`. */
  datatype ReleaseItem = ReleaseItem(episode: nat, session: string, snapshot: string, animeId: nat)

  /** One release page response. */
  datatype ReleasePage = ReleasePage(currentPage: nat, lastPage: int, total: int, data: seq<ReleaseItem>)

  datatype Episode = Episode(title: string, episodeId: string, number: nat, image: string)

  datatype AnimeDetails = AnimeDetails(kind: string, status: string, season: string, year: int, score: real)

  /**
    The detail page, as parsed: `Ok` carries the title element's text and each info field
    found on the page (None where the page lacks it); `NotOk` is a successful (2xx) response
    whose status is not 200. A request that throws is not a page at all.
  */
  datatype DetailPage =
    | DetailOk(titleText: string, kind: Option<string>, status: Option<string>,
               seasonYear: Option<(string, int)>, score: Option<real>)
    | DetailNotOk

  datatype EpisodeListing = EpisodeListing(
    title: string, session: string, totalEpisodes: int, details: AnimeDetails, episodes: seq<Episode>)

  const FetchError: string := "Failed to fetch episodes recursively"
  const NoTitle: string := "Could not fetch title"
  const DefaultDetails: AnimeDetails := AnimeDetails("TV", "Unknown", "Unknown", 0, 0.0)

  function ShapeEpisode(session: string, item: ReleaseItem): (e: Episode)
    ensures e.episodeId == session + "/" + item.session && e.number == item.episode
  {
    Episode("Episode " + DecimalString(item.episode), session + "/" + item.session, item.episode, item.snapshot)
  }

  function ShapePage(session: string, items: seq<ReleaseItem>): (r: seq<Episode>)
    ensures |r| == |items|
  {
    seq(|items|, i requires 0 <= i < |items| => ShapeEpisode(session, items[i]))
  }

  /** All pages' episodes, page after page, before any sorting. */
  function Flatten(session: string, pages: seq<ReleasePage>): seq<Episode> {
    if pages == [] then []
    else Flatten(session, pages[..|pages| - 1]) + ShapePage(session, pages[|pages| - 1].data)
  }

  function EpisodeNumber(e: Episode): real { e.number as real }

  /** `[...episodes].sort((a, b) => a.number - b.number)` */
  function SortEpisodes(episodes: seq<Episode>): seq<Episode> {
    StableSort.Sort(episodes, EpisodeNumber)
  }

  /**
    The recursion of `_recursiveFetchEpisodes` over the pages it visits: each level sorts its
    own page's episodes followed by the sorted episodes of the later pages.
  */
  function RecursiveEpisodes(session: string, pages: seq<ReleasePage>): seq<Episode>
    requires pages != []
  {
    if |pages| == 1 then SortEpisodes(ShapePage(session, pages[0].data))
    else SortEpisodes(ShapePage(session, pages[0].data) + RecursiveEpisodes(session, pages[1..]))
  }

  lemma {:induction false} FlattenFront(session: string, pages: seq<ReleasePage>)
    requires pages != []
    ensures Flatten(session, pages) == ShapePage(session, pages[0].data) + Flatten(session, pages[1..])
  {
    if |pages| > 1 {
      var front := pages[..|pages| - 1];
      FlattenFront(session, front);
      assert front[1..] == pages[1..][..|pages| - 2];
      assert front[0] == pages[0];
    } else {
      assert pages[..0] == [];
    }
  }

  /** Sorting at every level of the recursion is the same as one sort of all pages at the end. */
  lemma {:induction false} RecursionIsOneSort(session: string, pages: seq<ReleasePage>)
    requires pages != []
    ensures RecursiveEpisodes(session, pages) == SortEpisodes(Flatten(session, pages))
  {
    FlattenFront(session, pages);
    if |pages| == 1 {
      assert Flatten(session, pages[1..]) == [];
      assert ShapePage(session, pages[0].data) + [] == ShapePage(session, pages[0].data);
    } else {
      RecursionIsOneSort(session, pages[1..]);
      StableSort.SortAfterSortedSuffix(ShapePage(session, pages[0].data), Flatten(session, pages[1..]), EpisodeNumber);
    }
  }

  /** The URL of the page after `page`: the text before the first `&page=`, then the new number. */
  function NextPageUrl(url: string, page: nat): string {
    SplitOn(url, "&page=")[0] + "&page=" + DecimalString(page + 1)
  }

  /** Applying the detail page's fields over the defaults. */
  function ApplyDetails(page: DetailPage): (d: AnimeDetails)
    ensures page.DetailNotOk? ==> d == DefaultDetails
  {
    match page
    case DetailNotOk => DefaultDetails
    case DetailOk(_, kind, status, seasonYear, score) =>
      AnimeDetails(
        kind.GetOr(DefaultDetails.kind),
        status.GetOr(DefaultDetails.status),
        if seasonYear.Some? then seasonYear.value.0 else DefaultDetails.season,
        if seasonYear.Some? then seasonYear.value.1 else DefaultDetails.year,
        score.GetOr(DefaultDetails.score))
  }

  function DetailTitle(page: DetailPage): (t: string)
    ensures t != []
  {
    match page
    case DetailNotOk => NoTitle
    case DetailOk(text, _, _, _, _) => if Trim(text) == [] then NoTitle else Trim(text)
  }

  /** A page that has a next page. */
  predicate HasNext(p: ReleasePage) { p.currentPage < p.lastPage }

  /** Request `k + 1` was made because page `k` had a next page, and asked for that page. */
  predicate ChainStep(urls: seq<string>, pages: seq<ReleasePage>, k: int) {
    0 <= k < |pages| && k + 1 < |urls| && HasNext(pages[k])
    && urls[k + 1] == NextPageUrl(urls[k], pages[k].currentPage)
  }

  /**
    `_recursiveFetchEpisodes`, as a loop. `pages` are the responses to the successive
    requests (the first one already fetched), `detail` is the reply to the detail request
    of an anime id, None when that request throws. Pages are requested while the current
    one reports a later last page; running out of responses stands for a failed request.
    The detail page of the last page's first item gives the title and details;
    `totalEpisodes` is the first page's `total`. `urls` are the release URLs requested,
    starting with `url`.
  */
  method FetchEpisodes(url: string, session: string, pages: seq<ReleasePage>, detail: nat -> Option<DetailPage>)
    returns (r: Result<EpisodeListing, string>, urls: seq<string>)
    ensures |urls| >= 1 && urls[0] == url
    ensures |urls| <= |pages| || (|urls| == |pages| + 1 && r.Failure?)
    ensures forall k :: 0 <= k < |urls| - 1 ==> ChainStep(urls, pages, k)
    ensures r.Success? ==>
      (var n := |urls|;
      !HasNext(pages[n - 1]) && pages[n - 1].data != []
      && detail(pages[n - 1].data[0].animeId).Some?
      && r.value.episodes == RecursiveEpisodes(session, pages[..n])
      && r.value.totalEpisodes == pages[0].total
      && r.value.title == DetailTitle(detail(pages[n - 1].data[0].animeId).value)
      && r.value.details == ApplyDetails(detail(pages[n - 1].data[0].animeId).value)
      && r.value.session == session)
    ensures r.Failure? ==>
      r.error == FetchError
      && (|urls| == |pages| + 1
          || (!HasNext(pages[|urls| - 1])
              && (pages[|urls| - 1].data == [] || detail(pages[|urls| - 1].data[0].animeId).None?)))
  {
    urls := [url];
    var episodes: seq<Episode> := [];
    var i := 0;
    while i < |pages| && HasNext(pages[i])
      invariant 0 <= i <= |pages| && |urls| == i + 1 && urls[0] == url
      invariant forall k :: 0 <= k < i ==> ChainStep(urls, pages, k)
      invariant episodes == Flatten(session, pages[..i])
      decreases |pages| - i
    {
      assert pages[..i + 1][..i] == pages[..i];
      episodes := episodes + ShapePage(session, pages[i].data);
      ghost var prev := urls;
      urls := urls + [NextPageUrl(urls[i], pages[i].currentPage)];
      ChainExtend(prev, urls, pages, i);
      i := i + 1;
    }
    if i == |pages| {
      return Failure(FetchError), urls;
    }
    var page := pages[i];
    if page.data == [] {
      return Failure(FetchError), urls;
    }
    var reply := detail(page.data[0].animeId);
    if reply.None? {
      return Failure(FetchError), urls;
    }
    assert pages[..i + 1][..i] == pages[..i];
    episodes := episodes + ShapePage(session, page.data);
    RecursionIsOneSort(session, pages[..i + 1]);
    var listing := EpisodeListing(DetailTitle(reply.value), session, pages[0].total, ApplyDetails(reply.value), SortEpisodes(episodes));
    return Success(listing), urls;
  }

  /** Requesting the page after page `i` extends the chain of requests by one step. */
  lemma ChainExtend(prev: seq<string>, urls: seq<string>, pages: seq<ReleasePage>, i: nat)
    requires |prev| == i + 1 && i < |pages| && HasNext(pages[i])
    requires urls == prev + [NextPageUrl(prev[i], pages[i].currentPage)]
    requires forall k :: 0 <= k < i ==> ChainStep(prev, pages, k)
    ensures forall k :: 0 <= k <= i ==> ChainStep(urls, pages, k)
  {
    forall k | 0 <= k <= i
      ensures ChainStep(urls, pages, k)
    {
      assert urls[k] == prev[k];
      if k < i {
        assert ChainStep(prev, pages, k);
        assert urls[k + 1] == prev[k + 1];
      }
    }
  }

  /** The listing's episodes are ordered by number. */
  lemma ListingSorted(session: string, pages: seq<ReleasePage>)
    requires pages != []
    ensures StableSort.Sorted(RecursiveEpisodes(session, pages), EpisodeNumber)
  {
    RecursionIsOneSort(session, pages);
    StableSort.SortSorted(Flatten(session, pages), EpisodeNumber);
  }

  /** The listing holds exactly the pages' episodes, and equal numbers keep page order. */
  lemma ListingPermutation(session: string, pages: seq<ReleasePage>, k: real)
    requires pages != []
    ensures multiset(RecursiveEpisodes(session, pages)) == multiset(Flatten(session, pages))
    ensures StableSort.WithKey(RecursiveEpisodes(session, pages), EpisodeNumber, k)
      == StableSort.WithKey(Flatten(session, pages), EpisodeNumber, k)
  {
    RecursionIsOneSort(session, pages);
    StableSort.SortStable(Flatten(session, pages), EpisodeNumber, k);
  }

  /**
    The next-page URL keeps everything before `&page=` and replaces the number, provided the
    text before it does not itself contain `&page=`.
  */
  lemma NextPageUrlStep(prefix: string, n: nat)
    requires !Includes(prefix, "&page=")
    ensures NextPageUrl(prefix + "&page=" + DecimalString(n), n) == prefix + "&page=" + DecimalString(n + 1)
  {
    var url := prefix + "&page=" + DecimalString(n);
    var sep := "&page=";
    assert url[|prefix|..][..|sep|] == sep;
    assert MatchAt(url, sep, |prefix|);
    forall j | 0 <= j < |prefix|
      ensures !MatchAt(url, sep, j)
    {
      NoMatchInPrefix(prefix, DecimalString(n), j);
    }
    SplitAtFirst(url, sep);
    assert url[..IndexOf(url, sep)] == prefix;
  }

  /** `&page=` cannot start inside the prefix: `&` occurs in it only at its start. */
  lemma NoMatchInPrefix(prefix: string, digits: string, j: nat)
    requires !Includes(prefix, "&page=") && j < |prefix|
    ensures !MatchAt(prefix + "&page=" + digits, "&page=", j)
  {
    var url := prefix + "&page=" + digits;
    var sep := "&page=";
    if j + |sep| <= |prefix| {
      assert !MatchAt(prefix, sep, j);
      assert url[j..][..|sep|] == prefix[j..][..|sep|];
    } else {
      var off := |prefix| - j;
      assert url[|prefix|] == '&' && sep[off] != '&';
      assert |url[j..]| < |sep| || url[j..][..|sep|][off] != sep[off];
    }
  }

  // ------------------------------------------------------------------
  // Play page
  // ------------------------------------------------------------------

  /** A quality button: its `data-src` attribute (None when absent) and its text. */
  datatype QualityButton = QualityButton(dataSrc: Option<string>, text: string)

  datatype VideoLink = VideoLink(quality: string, url: Option<string>, referer: string)

  datatype EpisodeSources = EpisodeSources(sources: seq<Option<string>>, multiSrc: seq<VideoLink>)

  const KwikReferer: string := "https://kwik.cx"

  /**
    `scrapeEpisodesSrcs` once the play page is parsed: one link per button, each with the
    kwik referer, and at most one source, the first link's URL.
  */
  method ScrapeEpisodeSources(buttons: seq<QualityButton>) returns (r: EpisodeSources)
    ensures |r.multiSrc| == |buttons|
    ensures forall i :: 0 <= i < |buttons| ==>
      r.multiSrc[i] == VideoLink(buttons[i].text, buttons[i].dataSrc, KwikReferer)
    ensures |r.sources| <= 1 && (|r.sources| == 1 <==> buttons != [])
    ensures buttons != [] ==> r.sources[0] == buttons[0].dataSrc
  {
    var links: seq<VideoLink> := [];
    var i := 0;
    while i < |buttons|
      invariant 0 <= i <= |buttons| && |links| == i
      invariant forall j :: 0 <= j < i ==> links[j] == VideoLink(buttons[j].text, buttons[j].dataSrc, KwikReferer)
    {
      links := links + [VideoLink(buttons[i].text, buttons[i].dataSrc, KwikReferer)];
      i := i + 1;
    }
    var sources := if |links| > 0 then [links[0].url] else [];
    r := EpisodeSources(sources, links);
  }
}
