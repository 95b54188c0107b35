/** The forum orchestration (`fetchCafePosts`): scrape, then enrich, with the
    search-API fallback when the scrape yields nothing or throws. Every request
    is an input outcome. The fallback call made from the `try` block is awaited
    there, so its rejection lands in the `catch` block, which calls the fallback
    once more, unguarded. */
module Cafe {
  import opened Outcomes
  import opened Posts
  import opened Scrape
  import opened Enrich
  import opened ApiFallback

  /** What `fetchCafePosts` settled to, and how many times it called the fallback. */
  datatype CafeRun = CafeRun(result: Outcome<seq<Post>>, fallbackCalls: nat)

  /** `fetchCafePosts`.
      - `page`: the listing page's candidates, or a failure anywhere in the fetch,
        decode or parse;
      - `search`: the settled enrichment request;
      - `first`, `second`: the settled first and second fallback requests. */
  function FetchCafePosts(page: Outcome<seq<Candidate>>, search: ApiResponse,
                          first: ApiResponse, second: ApiResponse): (run: CafeRun)
    ensures run.fallbackCalls <= 2
    ensures run.fallbackCalls == 0 <==> page.Ok? && |Select(page.value)| > 0
    ensures run.fallbackCalls == 0 ==> run.result == Ok(EnrichPosts(Select(page.value), search))
    ensures run.fallbackCalls == 2 <==> page.Ok? && |Select(page.value)| == 0 && FromApi(first).Fail?
    ensures run.fallbackCalls == 1 ==> run.result == FromApi(first)
    ensures run.fallbackCalls == 2 ==> run.result == FromApi(second)
  {
    match page
    case Fail => CafeRun(FromApi(first), 1)
    case Ok(cands) =>
      var posts := Select(cands);
      if |posts| == 0 then
        var r := FromApi(first);
        if r.Ok? then CafeRun(r, 1) else CafeRun(FromApi(second), 2)
      else
        CafeRun(Ok(EnrichPosts(posts, search)), 0)
  }

  /** A successful run never has more than `PostsCount` posts, and a scraped run
      has at least one. */
  lemma FetchCafePostsBounded(page: Outcome<seq<Candidate>>, search: ApiResponse,
                              first: ApiResponse, second: ApiResponse)
    ensures var run := FetchCafePosts(page, search, first, second);
            run.result.Ok? ==> (|run.result.value| <= PostsCount
                                && (run.fallbackCalls == 0 ==> |run.result.value| >= 1))
  {
    var run := FetchCafePosts(page, search, first, second);
    if run.result.Ok? && run.fallbackCalls == 1 {
      FallbackBounded(first);
    } else if run.result.Ok? && run.fallbackCalls == 2 {
      FallbackBounded(second);
    }
  }

  lemma FallbackBounded(resp: ApiResponse)
    requires FromApi(resp).Ok?
    ensures |FromApi(resp).value| <= PostsCount
  {
    if resp.Ok? && resp.value.Some? && |resp.value.value| > 0 {
      FallbackPostShape(resp.value.value);
    }
  }

  /** `fetchCafePosts` is not total: an empty scrape whose fallback rejects, and
      whose second fallback rejects as well, rejects after two fallback calls. */
  lemma EmptyScrapeCanReject(search: ApiResponse)
    ensures FetchCafePosts(Ok([]), search, Fail, Fail) == CafeRun(Fail, 2)
  {
    assert Select([]) == [];
  }

  /** Every post of a successful run is finalised (no id, some description),
      except when the enrichment response has no `items`: then the scraped
      posts come back with their ids and empty descriptions. */
  lemma FetchedPostsFinalised(page: Outcome<seq<Candidate>>, search: ApiResponse,
                              first: ApiResponse, second: ApiResponse)
    ensures var run := FetchCafePosts(page, search, first, second);
            run.result.Ok? && !(run.fallbackCalls == 0 && search == Ok(None)) ==>
              forall k :: 0 <= k < |run.result.value| ==> Finalised(run.result.value[k])
    ensures var run := FetchCafePosts(page, search, first, second);
            run.fallbackCalls == 0 && search == Ok(None) ==>
              forall k :: 0 <= k < |run.result.value| ==>
                run.result.value[k].articleId.Some? && run.result.value[k].description == ""
  {
    var run := FetchCafePosts(page, search, first, second);
    if run.result.Ok? && run.fallbackCalls == 1 {
      FallbackFinalised(first);
    } else if run.result.Ok? && run.fallbackCalls == 2 {
      FallbackFinalised(second);
    } else if run.fallbackCalls == 0 {
      SelectedPosts(page.value);
    }
  }

  lemma FallbackFinalised(resp: ApiResponse)
    requires FromApi(resp).Ok?
    ensures forall k :: 0 <= k < |FromApi(resp).value| ==> Finalised(FromApi(resp).value[k])
  {
    if resp.Ok? && resp.value.Some? && |resp.value.value| > 0 {
      FallbackPostShape(resp.value.value);
    }
  }
}
