/**
 * The catalog lookup of scraper.py (`search_discogs`), with every HTTP
 * exchange replaced by its outcome: the result list of the release search,
 * that of the master search, and the decoded bodies of the two follow-up
 * calls.  JSON bodies the model never looks into are kept as opaque objects.
 */
module Discogs {
  import opened Wrappers

  /** Prefix of a release page; the hit's `uri` is appended to it. */
  const SiteBase: string := "https://www.discogs.com"

  /** A JSON object whose members the model does not interpret. */
  type JsonObject = map<string, string>

  /** One entry of a search result list; every member may be missing. */
  datatype SearchHit = SearchHit(
    id: Option<int>,
    title: Option<string>,
    year: Option<int>,
    coverImage: Option<string>,
    uri: Option<string>,
    format: Option<seq<string>>)

  datatype Release = Release(
    title: Option<string>,
    year: Option<int>,
    coverImage: Option<string>,
    url: string,
    formats: seq<string>,
    prices: JsonObject,
    marketplace: JsonObject)

  /** How Python renders a possibly missing string inside an f-string. */
  function Render(s: Option<string>): string
  {
    if s.Some? then s.value else "None"
  }

  /**
   * The lookup.  `releaseSearch` is None when the release search failed (no
   * answer, an error status, or a body without a result list); `masterSearch`
   * is None when the master search, which is only sent when the release list
   * is empty, gave no answer or a body without a result list (its status is
   * not checked).  `suggestions` and `stats` are the bodies of the follow-up calls
   * when they answered 200 with JSON, None otherwise.
   */
  function SearchDiscogs(
    hasToken: bool,
    releaseSearch: Option<seq<SearchHit>>,
    masterSearch: Option<seq<SearchHit>>,
    suggestions: Option<JsonObject>,
    stats: Option<JsonObject>): Option<Release>
  {
    if !hasToken then None
    else if releaseSearch.None? then None
    else
      var results := if releaseSearch.value == [] then masterSearch else releaseSearch;
      if results.None? || results.value == [] then None
      else
        var best := results.value[0];
        if best.id.None? then None
        else
          Some(Release(
            best.title, best.year, best.coverImage,
            SiteBase + Render(best.uri),
            if best.format.Some? then best.format.value else [],
            if suggestions.Some? then suggestions.value else map[],
            if stats.Some? then stats.value else map[]))
  }

  /** The list the best match is taken from: the release hits, or the master hits when there are none. */
  function ChosenResults(releaseSearch: Option<seq<SearchHit>>, masterSearch: Option<seq<SearchHit>>): Option<seq<SearchHit>>
  {
    if releaseSearch.Some? && releaseSearch.value == [] then masterSearch else releaseSearch
  }

  /**
   * There is a release exactly when a token is configured, the release search
   * answered, and the chosen list is non-empty with an identified first hit;
   * that first hit supplies the descriptive fields, and a failed follow-up call
   * leaves its field empty instead of failing the lookup.
   */
  lemma SearchDiscogsSpec(
    hasToken: bool,
    releaseSearch: Option<seq<SearchHit>>,
    masterSearch: Option<seq<SearchHit>>,
    suggestions: Option<JsonObject>,
    stats: Option<JsonObject>)
    ensures var r := SearchDiscogs(hasToken, releaseSearch, masterSearch, suggestions, stats);
      var chosen := ChosenResults(releaseSearch, masterSearch);
      r.Some? <==> hasToken && releaseSearch.Some? && chosen.Some? && chosen.value != [] && chosen.value[0].id.Some?
    ensures var r := SearchDiscogs(hasToken, releaseSearch, masterSearch, suggestions, stats);
      var chosen := ChosenResults(releaseSearch, masterSearch);
      r.Some? ==>
        && r.value.title == chosen.value[0].title
        && r.value.url == SiteBase + Render(chosen.value[0].uri)
        && (suggestions.None? ==> r.value.prices == map[])
        && (stats.None? ==> r.value.marketplace == map[])
  {
  }

  /** Whether a release is found does not depend on the follow-up calls. */
  lemma FollowUpsNeverFail(
    hasToken: bool,
    releaseSearch: Option<seq<SearchHit>>,
    masterSearch: Option<seq<SearchHit>>,
    suggestions: Option<JsonObject>, stats: Option<JsonObject>,
    suggestions': Option<JsonObject>, stats': Option<JsonObject>)
    ensures SearchDiscogs(hasToken, releaseSearch, masterSearch, suggestions, stats).Some? ==
            SearchDiscogs(hasToken, releaseSearch, masterSearch, suggestions', stats').Some?
  {
  }

  /** The master search is consulted only when the release search found nothing. */
  lemma MasterOnlyAsFallback(
    hasToken: bool,
    hits: seq<SearchHit>,
    masterSearch: Option<seq<SearchHit>>, masterSearch': Option<seq<SearchHit>>,
    suggestions: Option<JsonObject>, stats: Option<JsonObject>)
    requires hits != []
    ensures SearchDiscogs(hasToken, Some(hits), masterSearch, suggestions, stats) ==
            SearchDiscogs(hasToken, Some(hits), masterSearch', suggestions, stats)
  {
  }
}
