/**
  The AniList record the mappers start from. Fetching it is not part of this model; a missing
  string (null in the API) is the empty string and a missing number is 0, which is how the
  mappers' `||` and truthiness tests treat them.
*/
module Media {

  datatype AniListTitle = AniListTitle(romaji: string, english: string, userPreferred: string)

  datatype AniListMedia = AniListMedia(
    id: nat,
    title: AniListTitle,
    episodes: int,
    startYear: int,
    seasonYear: int,
    synonyms: seq<string>)
}
