/**
  The AnimeKai mapper: which AnimeKai search result stands for an AniList entry. Three passes
  over the results, each returning at its first hit: a result whose normalised title or
  normalised Japanese title equals the normalised search title; a result whose episode count
  equals the AniList count (when that count is positive) and whose titles contain or are
  contained in the search title; the first result. Searching and fetching details are oracles.
*/
module AnimeKaiMapper {
  import opened Wrappers
  import opened Strings
  import opened Titles
  import opened Media

  /** One AnimeKai search result; a missing Japanese title is the empty string, a missing count 0. */
  datatype KaiResult = KaiResult(
    id: string,
    title: string,
    japaneseTitle: string,
    url: string,
    image: string,
    kind: string,
    episodes: int)

  /** The two normalised titles of a result; a missing Japanese title stays `''`. */
  datatype KaiNames = KaiNames(title: string, japanese: string)

  function NamesOf(result: KaiResult): (n: KaiNames)
    ensures result.japaneseTitle == [] ==> n.japanese == []
  {
    KaiNames(Normalize(result.title), if result.japaneseTitle != [] then Normalize(result.japaneseTitle) else [])
  }

  function AllNames(results: seq<KaiResult>): (names: seq<KaiNames>)
    ensures |names| == |results|
    ensures forall i :: 0 <= i < |results| ==> names[i] == NamesOf(results[i])
  {
    seq(|results|, i requires 0 <= i < |results| => NamesOf(results[i]))
  }

  /** The first pass: either normalised title equals the normalised search title. */
  predicate ExactMatch(search: string, n: KaiNames) {
    n.title == search || n.japanese == search
  }

  /** The second pass: the episode count agrees and a title contains or is contained in the search title. */
  predicate PartialMatch(search: string, expected: int, episodes: int, n: KaiNames) {
    episodes == expected && expected > 0
    && (Includes(n.title, search) || Includes(search, n.title)
        || Includes(n.japanese, search) || Includes(search, n.japanese))
  }

  /** The index of the first result from `i` on passing the first test. */
  function FirstExact(search: string, names: seq<KaiNames>, i: nat): (r: Option<nat>)
    requires i <= |names|
    ensures r.Some? ==> (i <= r.value < |names| && ExactMatch(search, names[r.value])
      && forall j :: i <= j < r.value ==> !ExactMatch(search, names[j]))
    ensures r.None? ==> forall j :: i <= j < |names| ==> !ExactMatch(search, names[j])
    decreases |names| - i
  {
    if i == |names| then None
    else if ExactMatch(search, names[i]) then Some(i)
    else FirstExact(search, names, i + 1)
  }

  /** The index of the first result from `i` on passing the second test. */
  function FirstPartial(search: string, expected: int, results: seq<KaiResult>, names: seq<KaiNames>, i: nat)
    : (r: Option<nat>)
    requires |names| == |results| && i <= |names|
    ensures r.Some? ==> (i <= r.value < |names| && PartialMatch(search, expected, results[r.value].episodes, names[r.value])
      && forall j :: i <= j < r.value ==> !PartialMatch(search, expected, results[j].episodes, names[j]))
    ensures r.None? ==> forall j :: i <= j < |names| ==> !PartialMatch(search, expected, results[j].episodes, names[j])
    decreases |names| - i
  {
    if i == |names| then None
    else if PartialMatch(search, expected, results[i].episodes, names[i]) then Some(i)
    else FirstPartial(search, expected, results, names, i + 1)
  }

  /** The three passes over the normalised names of a non-empty result list. */
  function Choose(search: string, expected: int, results: seq<KaiResult>, names: seq<KaiNames>): (k: nat)
    requires |names| == |results| > 0
    ensures k < |results|
  {
    match FirstExact(search, names, 0)
    case Some(k) => k
    case None =>
      match FirstPartial(search, expected, results, names, 0)
      case Some(k) => k
      case None => 0
  }

  /**
    `findBestMatch`, returning the index of the chosen result: None for no results, otherwise
    the passes of `Choose` over the normalised search title and result titles.
  */
  function FindBestMatch(searchTitle: string, media: AniListMedia, results: seq<KaiResult>): (r: Option<nat>)
    ensures r.None? <==> results == []
    ensures r.Some? ==> r.value < |results|
  {
    if results == [] then None
    else Some(Choose(Normalize(searchTitle), media.episodes, results, AllNames(results)))
  }

  /**
    The passes in order: an exact hit wins and is the first one; without one, a partial hit
    is the first one; without either, the first result.
  */
  lemma ChooseRules(search: string, expected: int, results: seq<KaiResult>, names: seq<KaiNames>)
    requires |names| == |results| > 0
    ensures var k := Choose(search, expected, results, names);
      if exists i :: 0 <= i < |results| && ExactMatch(search, names[i]) then
        ExactMatch(search, names[k]) && forall j :: 0 <= j < k ==> !ExactMatch(search, names[j])
      else if exists i :: 0 <= i < |results| && PartialMatch(search, expected, results[i].episodes, names[i]) then
        PartialMatch(search, expected, results[k].episodes, names[k])
        && forall j :: 0 <= j < k ==> !PartialMatch(search, expected, results[j].episodes, names[j])
      else k == 0
  {
    var exact := FirstExact(search, names, 0);
    var partial := FirstPartial(search, expected, results, names, 0);
    if exact.None? && partial.None? {
      assert Choose(search, expected, results, names) == 0;
    }
  }

  /** Beyond the first result, only an exact hit or a result with the AniList episode count is chosen. */
  lemma ChooseNeedsEpisodes(search: string, expected: int, results: seq<KaiResult>, names: seq<KaiNames>)
    requires |names| == |results| > 0
    requires Choose(search, expected, results, names) != 0
    ensures var k := Choose(search, expected, results, names);
      ExactMatch(search, names[k]) || (results[k].episodes == expected && expected > 0)
  {
    var exact := FirstExact(search, names, 0);
    var partial := FirstPartial(search, expected, results, names, 0);
  }

  /**
    A result without a Japanese title passes the containment test, since every string contains
    `''`: its episode count alone decides the second pass.
  */
  lemma MissingJapaneseTitlePasses(search: string, expected: int, result: KaiResult)
    requires result.japaneseTitle == []
    requires result.episodes == expected && expected > 0
    ensures PartialMatch(search, expected, result.episodes, NamesOf(result))
  {
    IncludesEmpty(search);
  }

  /** The start and season years are read but never used: the choice does not depend on them. */
  lemma FindBestMatchIgnoresYear(searchTitle: string, media: AniListMedia, results: seq<KaiResult>, startYear: int, seasonYear: int)
    ensures FindBestMatch(searchTitle, media.(startYear := startYear, seasonYear := seasonYear), results)
      == FindBestMatch(searchTitle, media, results)
  {
  }

  /** What `fetchAnimeInfo` reports for the chosen result. */
  datatype KaiDetails = KaiDetails(
    totalEpisodes: int,
    episodes: seq<string>,
    hasSub: bool,
    hasDub: bool,
    subOrDub: string,
    status: string,
    season: string,
    genres: seq<string>)

  datatype KaiEntry = KaiEntry(
    id: string,
    title: string,
    japaneseTitle: string,
    url: string,
    image: string,
    kind: string,
    episodes: int,
    episodesList: seq<string>,
    hasSub: bool,
    hasDub: bool,
    subOrDub: string,
    status: string,
    season: string,
    genres: seq<string>)

  /** The mapping; `animekai` is None (null) when nothing was found. */
  datatype KaiMapping = KaiMapping(id: nat, title: string, animekai: Option<KaiEntry>)

  const NoTitleError: string := "No title available for the anime"

  function NotFoundError(anilistId: nat): string {
    "Anime with id " + DecimalString(anilistId) + " not found on AniList"
  }

  /** The title searched: English, else romaji, else the preferred title. */
  function SearchTitle(t: AniListTitle): string {
    Or(t.english, Or(t.romaji, t.userPreferred))
  }

  function ShapeEntry(result: KaiResult, details: KaiDetails): KaiEntry {
    KaiEntry(result.id, result.title, result.japaneseTitle, result.url, result.image, result.kind,
      details.totalEpisodes, details.episodes, details.hasSub, details.hasDub, details.subOrDub,
      details.status, details.season, details.genres)
  }

  /**
    `mapAnilistToAnimeKai`. `media` is the AniList lookup (None when not found), `search` the
    AnimeKai search (Failure when it throws; a missing result list is `[]`) and `fetchInfo` the
    detail fetch of the chosen id (Failure when it throws).
  */
  function MapToAnimeKai(anilistId: nat, media: Option<AniListMedia>,
                         search: string -> Result<seq<KaiResult>, string>,
                         fetchInfo: string -> Result<KaiDetails, string>): (r: Result<KaiMapping, string>)
    ensures media.None? ==> r == Failure(NotFoundError(anilistId))
    ensures media.Some? && SearchTitle(media.value.title) == [] ==> r == Failure(NoTitleError)
    ensures media.Some? && SearchTitle(media.value.title) != [] ==>
      var title := SearchTitle(media.value.title);
      (search(title).Failure? ==> r == Failure(search(title).error))
      && (search(title) == Success([]) ==> r == Success(KaiMapping(media.value.id, title, None)))
    ensures r.Success? ==> media.Some? && r.value.id == media.value.id && r.value.title == SearchTitle(media.value.title)
    ensures (media.Some? && SearchTitle(media.value.title) != [] && search(SearchTitle(media.value.title)).Success?
      && search(SearchTitle(media.value.title)).value != []) ==>
      var results := search(SearchTitle(media.value.title)).value;
      var k := FindBestMatch(SearchTitle(media.value.title), media.value, results).value;
      (fetchInfo(results[k].id).Failure? ==> r == Failure(fetchInfo(results[k].id).error))
      && (fetchInfo(results[k].id).Success? ==>
            r.Success? && r.value.animekai == Some(ShapeEntry(results[k], fetchInfo(results[k].id).value)))
  {
    if media.None? then Failure(NotFoundError(anilistId))
    else
      var info := media.value;
      var title := SearchTitle(info.title);
      if title == [] then Failure(NoTitleError)
      else
        match search(title)
        case Failure(e) => Failure(e)
        case Success(results) =>
          if results == [] then Success(KaiMapping(info.id, title, None))
          else
            var k := FindBestMatch(title, info, results).value;
            match fetchInfo(results[k].id)
            case Failure(e) => Failure(e)
            case Success(details) => Success(KaiMapping(info.id, title, Some(ShapeEntry(results[k], details))))
  }
}
