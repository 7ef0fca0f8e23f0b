# anime-mapper, modelled in Dafny

anime-mapper maps an AniList anime to the catalogues of three streaming sites (AnimePahe,
AnimeKai, HiAnime) and resolves HiAnime episode ids to stream sources. This project models
the logic in between the HTTP calls:

- **title normalisation and scoring**: `normalizeText`, the word-variation table and
  `calculateTitleScore`, `calculateTitleSimilarity`, and the inline scorer of `_getSession`;
- **candidate selection**: the rule chains of the AnimePahe mapper, the AnimeKai mapper and
  HiAnime's `searchAnime`;
- **episode list assembly**: AnimePahe pagination with a stable sort by episode number,
  and HiAnime anchor numbering with ani.zip enrichment;
- **stream-source string logic**: episode-id validation, `?ep=` extraction, server records
  and server choice, the pass-through descriptor, MegaCloud nonce capture, `"file":"…"`
  extraction with `\/` unescaping, and the `.m3u8` flag.

Every network reply and every parsed HTML fragment is an input value or an oracle
function parameter. The external `stringSimilarity` is a function parameter whose bounds
appear as preconditions where they are needed.

Modules:

| module | file | what it holds |
|---|---|---|
| `Wrappers` | wrappers.dfy | `Option`, `Result` |
| `Strings` | strings.dfy | JavaScript string primitives: ASCII `toLowerCase`, `\s`, `trim`, `indexOf`/`includes`, `split`, `Number` of a digit string |
| `Titles` | titles.dfy | `normalizeText` / `normalizeTitle`, word lists |
| `StableSort` | sorting.dfy | `Array.prototype.sort` with a numeric comparator, stable |
| `Media` | media.dfy | the AniList record the mappers read |
| `AnimePahe` | animepahe.dfy | src/providers/animepahe.js |
| `AnimePaheMapper` | animepahe_mapper.dfy | src/mappers/animepahe-mapper.js |
| `AnimeKaiMapper` | animekai_mapper.dfy | src/mappers/animekai-mapper.js |
| `HiAnime` | hianime.dfy | src/providers/hianime.js |
| `HiAnimeServers` | hianime_servers.dfy | src/providers/hianime-servers.js |

Where the source loops and updates variables, the model is a `method` with a `while` loop.
It is proved against a specification function, and the properties are proved as lemmas
about that function. Examples:

- `AnimePahe.FetchEpisodes` against `RecursiveEpisodes`;
- `AnimePahe.GetSession` against `BestOrFirst`;
- `AnimePaheMapper.SelectResult` against `Chosen`;
- `HiAnime.WordVariations` against `Variations`;
- `HiAnime.CalculateTitleScore` against `TitleScore`;
- `HiAnime.SearchAnime` against `Search`;
- `HiAnimeServers.GetEpisodeServers` against `EpisodeServersOf`.

## Model

| member | source | states |
|---|---|---|
| Titles.Normalize | src/providers/hianime.js:28-33 | the result is normal: only lower-case ASCII word characters and single spaces, with no space at either end |
| Titles.NormalizeChain | src/mappers/animepahe-mapper.js:115 | the fused one-pass normaliser equals lowercase, then drop non-word characters, then collapse whitespace, then trim |
| Titles.StripLowerChain | src/mappers/animepahe-mapper.js:251-252 | lowercasing and stripping in one pass equals lowercasing followed by stripping |
| Titles.NormalFixed | src/mappers/animepahe-mapper.js:251-252 | normalising a string that is already normal leaves it unchanged |
| Titles.NormalizeIdempotent | src/providers/hianime.js:28-33 | normalisation is idempotent |
| Titles.CollapseSpaces | src/providers/hianime.js:31 | the output has no two consecutive spaces and every whitespace character has become a plain space |
| Titles.CommonWords | src/mappers/animepahe-mapper.js:262 | the common words are words of the first list that also occur in the second, and there are none when the lists share no word |
| Titles.NonEmpty | src/mappers/animepahe-mapper.js:258-259 | `filter(Boolean)` keeps exactly the non-empty words |
| Strings.Trim | src/providers/hianime.js:32 | the trimmed string occurs in the input and neither starts nor ends with whitespace |
| Strings.TrimLower | src/providers/hianime-servers.js:47 | lowercasing after trimming a lowercased string changes nothing |
| Strings.IndexOf | src/providers/hianime-servers.js:20 | `indexOf` gives the first position where the substring matches, or -1 when there is none |
| Strings.IncludesIff | src/providers/hianime-servers.js:128 | `includes` holds exactly when the substring matches at some position |
| Strings.JoinSplit | src/providers/animepahe.js:55-56 | joining the pieces of `split(sep)` with `sep` gives back the input |
| Strings.SplitAtFirst | src/providers/hianime-servers.js:24 | piece 0 of `split(sep)` is the text before the first separator, and the remaining pieces split the text after it |
| Strings.SplitNoOccurrence | src/providers/animepahe.js:99 | a string without the separator splits into itself alone |
| Strings.DigitsOfDecimal | src/providers/animepahe.js:28 | reading back the decimal rendering of a number gives the number |
| Strings.JsNumber | src/providers/hianime-servers.js:42 | `Number` of a digit string is non-negative, and of a blank string is 0 |
| StableSort.Sort | src/providers/animepahe.js:161 | the sorted list is a permutation of the input |
| StableSort.SortSorted | src/providers/animepahe.js:161 | the result is in ascending key order |
| StableSort.SortStable | src/providers/animepahe.js:161 | for each key, the elements with that key keep their input order (stability) |
| StableSort.SortOfSorted | src/providers/animepahe.js:161 | sorting a sorted list changes nothing |
| StableSort.SortAfterSortedSuffix | src/providers/animepahe.js:106-107 | sorting a prefix followed by an already-sorted suffix equals sorting the unsorted concatenation |
| AnimePahe.ShapeResult | src/providers/animepahe.js:27-43 | id segment 0 is the decimal API id; title, name, session, year, score and poster are copied; type defaults to TV, status and season to Unknown, when empty; dub is `??`; sub is the episode count, or absent when it is zero |
| AnimePahe.ScrapeSearchResults | src/providers/animepahe.js:22-46 | no data gives `[]`; otherwise there is one shaped result per API item, in order |
| AnimePahe.ResultIdRoundTrip | src/providers/animepahe.js:55-56 | splitting a shaped id on `-` gives back the API id and the title when the title has no `-` |
| AnimePahe.ResultIdCutsTitle | src/providers/animepahe.js:55-56 | when the title contains `-`, the recovered title is cut at its first `-` and differs from the title |
| AnimePahe.SessionSimilarity | src/providers/animepahe.js:244-263 | the similarity lies in [0,1]; it is 1 for equal titles and at most 0.8 when one title contains the other |
| AnimePahe.FirstIdMatch | src/providers/animepahe.js:227-232 | gives the first item whose id string equals the anime id, and none exactly when no item matches |
| AnimePahe.GetSession | src/providers/animepahe.js:213-281 | empty data fails; the first id match wins; without a title the call fails; otherwise the session is from the best-or-first item |
| AnimePahe.PickBest | src/providers/animepahe.js:238-276 | the chosen index is the first maximum when that maximum exceeds 0.5, otherwise index 0 |
| AnimePahe.ExactTitleWins | src/providers/animepahe.js:247-268 | when some item's normalised title equals the search, the chosen item scores 1 and is no later than that item |
| AnimePahe.ShapeEpisode | src/providers/animepahe.js:90-95 | the episode id is `session/item.session` and the number is the item's episode |
| AnimePahe.FetchEpisodes | src/providers/animepahe.js:74-174 | pages are fetched while `current_page < last_page`, along a chain of next-page URLs; a success holds the sorted episodes of all pages, the first page's total, and the title and details of the detail page of the last page's first item; it fails with the recursion's error when a release request is missing, when the last page has no items, or when the detail request throws |
| AnimePahe.FlattenFront | src/providers/animepahe.js:89-107 | the accumulated list is this page's episodes followed by the later pages' episodes |
| AnimePahe.RecursionIsOneSort | src/providers/animepahe.js:106-161 | re-sorting at every recursion level equals one stable sort of the concatenation of all pages |
| AnimePahe.ListingSorted | src/providers/animepahe.js:160-161 | the episode list is ascending by number |
| AnimePahe.ListingPermutation | src/providers/animepahe.js:161 | the episode list is a permutation of all pages' episodes, and episodes with equal numbers keep page order |
| AnimePahe.NextPageUrlStep | src/providers/animepahe.js:99 | the next-page URL replaces the page number after `&page=` with its successor |
| AnimePahe.ApplyDetails | src/providers/animepahe.js:81-118 | a 2xx detail reply other than 200 leaves the default details |
| AnimePahe.DetailTitle | src/providers/animepahe.js:120 | the title is never empty: it falls back to `Could not fetch title` |
| AnimePahe.ScrapeEpisodeSources | src/providers/animepahe.js:188-204 | one link per quality button, in order, each with the kwik referer; `sources` holds the first link's url, or nothing when there are no buttons |
| AnimePaheMapper.TitleSimilarity | src/mappers/animepahe-mapper.js:247-255 | 0 when either title is empty, and exactly 1 when both normalise to the same string |
| AnimePaheMapper.SimilarityOfNormalized | src/mappers/animepahe-mapper.js:251-252 | on already-normalised titles, the re-normalisation inside the scorer changes nothing |
| AnimePaheMapper.SimilarityNoSharedWords | src/mappers/animepahe-mapper.js:258-265 | different titles that share no word score 0 |
| AnimePaheMapper.SimilarityAtMostOne | src/mappers/animepahe-mapper.js:258-265 | the score is at most 1 when the first title has no repeated word |
| AnimePaheMapper.SimilarityCanExceedOne | src/mappers/animepahe-mapper.js:262-265 | a repeated word is counted once per occurrence, so "a a a" against "a" scores 1.5 |
| AnimePaheMapper.CommonWordsDistinct | src/mappers/animepahe-mapper.js:262 | common words drawn from a repetition-free list have no repetition |
| AnimePaheMapper.FirstYearGroup | src/mappers/animepahe-mapper.js:295 | finds the first `(`/`[` + four digits + `)`/`]` group, and none exactly when no such group exists |
| AnimePaheMapper.ExtractYear | src/mappers/animepahe-mapper.js:292-304 | a year y satisfies 1950 < y ≤ the current year and is read from a bracketed four-digit group; with no group the result is null |
| AnimePaheMapper.FirstGroupDecides | src/mappers/animepahe-mapper.js:295-304 | only the first group counts: if it is out of range the result is null, with no second search |
| AnimePaheMapper.AnimeYear | src/mappers/animepahe-mapper.js:123-127 | the start year wins when it is set; a known year is never 0 |
| AnimePaheMapper.RemoveGroupsCuts | src/mappers/animepahe-mapper.js:317 | a bracketed group that contains four digits is removed, together with its brackets |
| AnimePaheMapper.RemoveGroupsPrefix | src/mappers/animepahe-mapper.js:317 | text before the first opening bracket is kept unchanged |
| AnimePaheMapper.RemoveGroupsNone | src/mappers/animepahe-mapper.js:317 | a string without an opening bracket is unchanged |
| AnimePaheMapper.RemoveGroupsDrops | src/mappers/animepahe-mapper.js:317 | a leading group whose content has four digits is dropped up to its closing bracket |
| AnimePaheMapper.GetGenericTitle | src/mappers/animepahe-mapper.js:310-318 | null exactly when english, romaji and userPreferred are all empty; otherwise a trimmed string no longer than the chosen title |
| AnimePaheMapper.GenericTitleDropsYear | src/mappers/animepahe-mapper.js:313-317 | "A (…2012…) B" becomes trim("A  B") |
| AnimePaheMapper.AniListTitles | src/mappers/animepahe-mapper.js:116-120 | at most three titles, each normalised |
| AnimePaheMapper.ResultTitles | src/mappers/animepahe-mapper.js:146 | one normalised `title \|\| name` per result |
| AnimePaheMapper.AcceptsYearMatch | src/mappers/animepahe-mapper.js:145-168 | a year-matched result is accepted exactly when some AniList title passes the containment test (longer than 7 characters) or scores above 0.5 |
| AnimePaheMapper.ScoreTable | src/mappers/animepahe-mapper.js:210-221 | one row per result and one column per AniList title, all non-negative; an empty title scores 0 |
| AnimePaheMapper.FindBestSimilarityMatch | src/mappers/animepahe-mapper.js:205-226 | returns the first result holding the strict maximum when it exceeds 0.6, and null exactly when no score exceeds 0.6 |
| AnimePaheMapper.PickHighest | src/mappers/animepahe-mapper.js:207-225 | the same statement over the precomputed score table |
| AnimePaheMapper.ChosenUnique | src/mappers/animepahe-mapper.js:133-199 | the rule chain determines one index |
| AnimePaheMapper.SelectResult | src/mappers/animepahe-mapper.js:130-199 | the chosen index obeys the rule chain. With a known year and year-matched results, it is the first accepted year match, else the first year match. Otherwise it is the first exact title, then the best similarity above 0.6, then index 0 |
| AnimePaheMapper.FindBestMatchFromResults | src/mappers/animepahe-mapper.js:111-200 | null exactly for an empty list; otherwise an index of `results` chosen by the rule chain |
| AnimePaheMapper.ShapedIdMatches | src/mappers/animepahe-mapper.js:82-85 | a shaped result's id prefix equals the AniList id exactly when the API ids are equal |
| AnimePaheMapper.FindAnimePaheMatch | src/mappers/animepahe-mapper.js:71-106 | the first query is the best title, and the first result with a matching id prefix wins before any title rule; with no such result, the result the title rules of `findBestMatchFromResults` pick is returned. After an empty first search, the generic title is queried exactly when it is non-empty and differs from the best title; its non-empty results go through the title rules, and the answer is null otherwise. A failed search is an error |
| AnimeKaiMapper.NamesOf | src/mappers/animekai-mapper.js:114-115 | a missing Japanese title normalises to `''` |
| AnimeKaiMapper.FirstExact | src/mappers/animekai-mapper.js:113-120 | the first result whose normalised title or Japanese title equals the search; none when no result matches |
| AnimeKaiMapper.FirstPartial | src/mappers/animekai-mapper.js:123-137 | the first result that passes the episode-count and containment test; none when no result passes |
| AnimeKaiMapper.FindBestMatch | src/mappers/animekai-mapper.js:97-141 | null exactly when `results` is empty; otherwise an index of `results` |
| AnimeKaiMapper.ChooseRules | src/mappers/animekai-mapper.js:112-140 | rule precedence: the first exact match if any, else the first partial match if any, else index 0 |
| AnimeKaiMapper.ChooseNeedsEpisodes | src/mappers/animekai-mapper.js:123-140 | a choice other than the first result is an exact match, or its episode count equals the positive AniList count |
| AnimeKaiMapper.MissingJapaneseTitlePasses | src/mappers/animekai-mapper.js:126-133 | a result without a Japanese title passes containment whenever its episode count matches |
| AnimeKaiMapper.FindBestMatchIgnoresYear | src/mappers/animekai-mapper.js:105-110 | the choice does not depend on startDate or seasonYear |
| AnimeKaiMapper.MapToAnimeKai | src/mappers/animekai-mapper.js:27-88 | a missing anime and a missing title are errors; search and detail errors propagate; no results gives `animekai: null` with the id and the chosen title; otherwise the best match is shaped with its details |
| HiAnime.WordVariations | src/providers/hianime.js:36-61 | the loop builds exactly `Variations(word)` |
| HiAnime.ApplyTable | src/providers/hianime.js:49-56 | the loop over the replacement table builds `Expand` |
| HiAnime.VariationsBasics | src/providers/hianime.js:42-58 | the variations contain the word and its normalised form, with no duplicates |
| HiAnime.RemoveDigits | src/providers/hianime.js:46 | the result has no digit, and is empty for an all-digit word |
| HiAnime.VariationsOfKey | src/providers/hianime.js:50-51 | a word that normalises to a table key gains all of that key's values |
| HiAnime.VariationsOfValue | src/providers/hianime.js:52-54 | a word found in a key's value list gains the key and the whole list |
| HiAnime.TwoVariations | src/providers/hianime.js:7-56 | a word normalising to "2" gains "two", "ii" and "second" |
| HiAnime.DigitWordHasEmpty | src/providers/hianime.js:46-47 | an all-digit word has `''` among its variations |
| HiAnime.VarScore | src/providers/hianime.js:120-129 | a variation pair scores in [0,1], and exactly 1 when the two are equal |
| HiAnime.WordMaxOne | src/providers/hianime.js:117-134 | a search word's best match is 1 exactly when one of its variations equals a variation of some title word |
| HiAnime.WordMaxAttained | src/providers/hianime.js:117-134 | a non-zero best match is the score of some variation pair |
| HiAnime.BestWordMatch | src/providers/hianime.js:115-134 | the nested loops with early exit compute the maximum over all variation pairs |
| HiAnime.BestsMeaning | src/providers/hianime.js:113-140 | each search word's `bestWordMatch` lies in [0, 1], bounds the score of every pair of its variations with a title word's variations and is 0 or one of those scores; it is 1 exactly when one of its variations equals a variation of some title word |
| HiAnime.WordMatch | src/providers/hianime.js:111-143 | the loop computes (full matches + half the partial matches) / number of search words |
| HiAnime.WordMatchBounds | src/providers/hianime.js:136-143 | the word-match score lies in [0,1] |
| HiAnime.CalculateTitleScore | src/providers/hianime.js:95-147 | the method computes `TitleScore`: 1 on equal normalised titles, else 0.7 · word match + 0.3 · sim |
| HiAnime.TitleScoreBounds | src/providers/hianime.js:100-146 | the score is in [0,1] when sim is, and is 1 on normalised equality |
| HiAnime.SharedWordMatches | src/providers/hianime.js:120-123 | a search word that also occurs among the title words is a full match |
| HiAnime.NumericWordsMatch | src/providers/hianime.js:46-47 | any two purely numeric words count as a full match |
| HiAnime.UnrelatedWordScoresZero | src/providers/hianime.js:125-129 | with no containment between any variations, the best match is 0 |
| HiAnime.DropCjk | src/providers/hianime.js:80 | exactly the titles without a CJK ideograph are kept |
| HiAnime.KeepFirstIsDedup | src/providers/hianime.js:168 | `filter((t, i, arr) => arr.indexOf(t) === i)` keeps the first occurrence of each title |
| HiAnime.GetAnimeInfo | src/providers/hianime.js:64-92 | null exactly when the media is missing; otherwise id, title and episodes are copied |
| HiAnime.InfoSynonymsContents | src/providers/hianime.js:75-80 | the synonyms are the distinct non-empty, CJK-free synonyms and English and romaji titles |
| HiAnime.TitlesToTryContents | src/providers/hianime.js:163-168 | the titles are distinct and non-empty, drawn from English, romaji and the synonyms, and start with the English title when it is set |
| HiAnime.ParenYear | src/providers/hianime.js:157-160 | a captured year is four digits |
| HiAnime.Adjusted | src/providers/hianime.js:195-217 | boosts add at most 0.6 and penalties subtract at most 0.3; more than +0.3 needs the year in jname, and a lowered score needs a Movie with more than one AniList episode |
| HiAnime.ScoreItem | src/providers/hianime.js:193-228 | the method computes the adjusted score of one item |
| HiAnime.Scored | src/providers/hianime.js:191 | only items with an id are scored |
| HiAnime.BestOf | src/providers/hianime.js:231-233 | the running best never decreases, is at least every score, and is either the old best or one of the page's matches |
| HiAnime.Keep | src/providers/hianime.js:219-229 | exactly the matches scoring above 0.5 are kept |
| HiAnime.ScorePage | src/providers/hianime.js:176-235 | the loop over a result page updates the best match and the series matches as `BestOf` and `Keep` state |
| HiAnime.BestOfConcat | src/providers/hianime.js:176-235 | scoring two pages in a row equals scoring their concatenation |
| HiAnime.KeepConcat | src/providers/hianime.js:219-229 | keeping distributes over concatenation |
| HiAnime.ByScoreHead | src/providers/hianime.js:268-272 | after the descending sort, the head is a member with the top score |
| HiAnime.ByScoreOrder | src/providers/hianime.js:268 | the sorted list is descending by score |
| HiAnime.FilterFirst | src/providers/hianime.js:271 | the first element of a filter is the first element that satisfies the predicate |
| HiAnime.TopOrTVRule | src/providers/hianime.js:267-279 | the answer is the best TV match when it is within 0.2 of the top score, and otherwise the top match |
| HiAnime.SelectNone | src/providers/hianime.js:256-282 | the result is null exactly when no series match exists and the best score is at most 0.4 |
| HiAnime.SelectFromMatches | src/providers/hianime.js:244-280 | with series matches, the answer is the id of one of them |
| HiAnime.SelectHxH | src/providers/hianime.js:244-253 | for year "2011", a Hunter x Hunter candidate with the top score among such candidates wins |
| HiAnime.SelectExactEpisode | src/providers/hianime.js:257-265 | otherwise, a TV match with the AniList episode count and the top score among those wins |
| HiAnime.SelectPrefersTV | src/providers/hianime.js:267-279 | with no such match, the TV-within-0.2 rule decides |
| HiAnime.SearchResult | src/providers/hianime.js:150-287 | a found id occurs among the scored results of some searched title; when every search succeeds, null means that every candidate scored at most 0.4 |
| HiAnime.SearchFromSome | src/providers/hianime.js:238-282 | once the best score exceeds 0.4 or a series match exists, and no later fetch fails, an id is returned |
| HiAnime.SearchFromNone | src/providers/hianime.js:238-282 | starting from nothing, null means that every remaining page scored at most 0.4 |
| HiAnime.SearchAnime | src/providers/hianime.js:150-287 | the loop over titles, with an early stop above 0.85, computes `Search` |
| HiAnime.EpisodeOf | src/providers/hianime.js:324-332 | the episode id is `animeId?ep=<param>` and the number is the given one; the title comes from ani.zip, else the anchor, else `''`; a missing ani.zip entry leaves image, overview, airDate and runtime null |
| HiAnime.GetEpisodeIds | src/providers/hianime.js:290-347 | the loop over anchors builds `EpisodeIds` |
| HiAnime.EpisodesOfSource | src/providers/hianime.js:314-334 | each episode's number is the 1-based index of a usable anchor, and the episode is built from that anchor |
| HiAnime.EpisodesOfAscending | src/providers/hianime.js:320 | episode numbers are strictly ascending |
| HiAnime.EpisodesOfComplete | src/providers/hianime.js:317-333 | every usable anchor gives an episode |
| HiAnime.EpisodeIdsTotal | src/providers/hianime.js:306-345 | totalEpisodes equals the list length; missing HTML or a failed request gives an empty list |
| HiAnime.EpisodesForAnimeSuccess | src/providers/hianime.js:350-377 | a success carries the English-else-romaji title, a non-empty HiAnime id found by the search, and a positive episode count equal to the list length |
| HiAnimeServers.EpIdBetween | src/providers/hianime-servers.js:24 | `epId` is the text between the first `?ep=` and the next `?ep=`, or the end of the string |
| HiAnimeServers.EpIdOfBuilt | src/providers/hianime-servers.js:24 | for an id built as `anime?ep=<digits>`, `epId` is the digits |
| HiAnimeServers.ServerIdOf | src/providers/hianime-servers.js:48 | a server id is present exactly when the attribute parses to a non-zero number |
| HiAnimeServers.ServerNameNormal | src/providers/hianime-servers.js:47 | server names are lowercase and trimmed |
| HiAnimeServers.EpisodeNoOfNotice | src/providers/hianime-servers.js:42 | a notice ending in a space and digits gives that number |
| HiAnimeServers.SplitLastPiece | src/providers/hianime-servers.js:42 | `split(" ").pop()` is the text after the last space |
| HiAnimeServers.PushServers | src/providers/hianime-servers.js:45-66 | the push loop builds exactly the server records of the items, in order |
| HiAnimeServers.GetEpisodeServers | src/providers/hianime-servers.js:10-73 | the method computes `EpisodeServersOf` |
| HiAnimeServers.EpisodeServersRecords | src/providers/hianime-servers.js:19-68 | success exactly for a valid id and an HTML reply; the id is copied, and there is one record per sub, dub and raw item |
| HiAnimeServers.FindServer | src/providers/hianime-servers.js:93 | a match is a list member whose name equals the requested one case-insensitively; none exactly when no member's name does |
| HiAnimeServers.FindServerFirst | src/providers/hianime-servers.js:93 | the match is the first such member |
| HiAnimeServers.DirectSources | src/providers/hianime-servers.js:120-132 | one source equal to the link, Referer equal to the link, and isM3U8 exactly when the link contains `.m3u8` |
| HiAnimeServers.EpisodeSourcesSuccess | src/providers/hianime-servers.js:82-137 | a success needs a valid id, server HTML, a known category and a case-insensitive server match; a non-MegaCloud link gives the direct descriptor |
| HiAnimeServers.Origin | src/providers/hianime-servers.js:142-143 | the origin is a prefix of the URL and contains `://` |
| HiAnimeServers.OriginShape | src/providers/hianime-servers.js:142-143 | after `://` the origin holds only the host, with no `/`, `?` or `#` |
| HiAnimeServers.FirstToken | src/providers/hianime-servers.js:170-175 | finds the first standalone alphanumeric token of the given length at or after a position |
| HiAnimeServers.NonceShape | src/providers/hianime-servers.js:168-180 | a captured nonce is always 48 alphanumeric characters |
| HiAnimeServers.NonceLongTokenWins | src/providers/hianime-servers.js:170-173 | the first 48-character token wins when one exists |
| HiAnimeServers.NonceShortTokens | src/providers/hianime-servers.js:174-180 | otherwise capture fails exactly when there are no three successive non-overlapping 16-character tokens |
| HiAnimeServers.FindFile | src/providers/hianime-servers.js:216 | nothing is found exactly when no position matches, that is, holds `"file":"` followed by a closing quote before any line end; otherwise the capture is that of the leftmost such position, the text up to that quote |
| HiAnimeServers.UnescapeEscape | src/providers/hianime-servers.js:217 | turning `\/` into `/` inverts escaping every `/` as `\/` |
| HiAnimeServers.UnescapePlain | src/providers/hianime-servers.js:217 | text without a backslash is unchanged |
| HiAnimeServers.IsM3U8UrlIff | src/providers/hianime-servers.js:235 | the flag holds exactly when `.m3u8` occurs followed by the end of the string or `?` |
| HiAnimeServers.ExtractSuccess | src/providers/hianime-servers.js:140-239 | a success needs a file id and a nonce. It has exactly one non-empty source, whose flag follows the `.m3u8` rule, the embed URL's origin as referer and the mobile user agent |
| HiAnimeServers.ExtractListedFile | src/providers/hianime-servers.js:199-200 | a listed first `file` is used directly, with no decode step |

## Left out

- All HTTP calls are replaced by their replies, passed as values or functions. This covers the AnimePahe, AnimeKai, HiAnime, AniList, ani.zip, MegaCloud, key-repository and decoder requests. A thrown network error is the `Failure`/`None` case of the reply.
- HTML traversal with cheerio: the texts and attributes the selectors extract are inputs.
- `stringSimilarity` from string-similarity-js is an uninterpreted parameter; where a bound is needed, the lemma requires it to lie in [0,1].
- The `wordVariationsCache` memo: `Variations` is a pure function, so callers with different casing do not share one cached answer.
- `Promise.all` in `getEpisodeIds`: the episode page and the ani.zip reply are two independent inputs.
- `new Date().getFullYear()` is the `currentYear` parameter.
- Floating point: scores are exact reals, and `parseFloat` of the AnimePahe detail score is not modelled. The detail page arrives as already-extracted fields.
- `toLowerCase` is ASCII only, and `\s` covers the ASCII and common Unicode spaces listed in `Strings.IsSpace`. There is no full Unicode case mapping.
- JavaScript falsy values (`null`, `undefined`, `0`, `NaN`, `''`) that the code only tests for truthiness are modelled as `0` or `''`.
- `Number(...)` is modelled for decimal digit strings only (`Strings.JsNumber`). Any other text is treated as `NaN`.
- `getEpisodeSources` with a category that is an Object.prototype property name (`"constructor"`) or a result field (`"episodeId"`, `"episodeNo"`): the model treats it as an unknown category and returns the not-found error. The source instead throws a TypeError when it calls `.find` on that value. Both are errors; only the message differs.
- `new URL(...)` is not modelled in full: `HiAnimeServers.Origin` takes the text up to the end of the host. It does not lowercase the host, drop a default port or remove user information. A URL without `scheme://host` is an error, as `new URL` throws.
- The request URLs and headers built for each call, and the pass-through ani.zip fields `titles`, `images` and `mappings`, are not modelled.
- `mapAnilistToAnimePahe` and `getAnimePaheEpisodes` (src/mappers/animepahe-mapper.js:24-66, 231-242) only wrap other calls and catch their errors, so they are not modelled.
- AnimePahe.ReleaseItem: `episode` is a natural number, so fractional or negative episode numbers in the release JSON are not modelled; `Episode ${n}` is then the decimal digits of `n`.
- AnimePahe.ApplyDetails: the `Type`, `Status`, `Season` and `Score` regular expressions of the detail page are not modelled. The extracted fields are inputs, and the contract states only the default kept for a 2xx reply other than 200.
- AnimePahe.ShapePage: only the length is stated; the element-wise shape is `AnimePahe.ShapeEpisode`.
- AnimePaheMapper.TitleSimilarity: the upper bound 1 holds only when the first title has no repeated word (`SimilarityAtMostOne`), because the source counts repeated words once per occurrence (`SimilarityCanExceedOne`).
- HiAnime.Scored: its contract only says that unscored items are skipped; the score of each item is `HiAnime.ScoreItem`.
- HiAnimeServers.Records: only the length is stated; the element-wise form is in `HiAnimeServers.EpisodeServersRecords` and `HiAnimeServers.PushServers`.
