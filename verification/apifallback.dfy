/** The search-API fallback (`fetchCafePostsFromApi`): when scraping yields
    nothing, the newest search results that link into the community become the
    posts. The request is an input outcome; its rejection propagates. */
module ApiFallback {
  import opened Outcomes
  import opened Strings
  import opened Sanitize
  import opened Posts

  /** Cut applied to fallback descriptions; titles are not cut at all. */
  const FallbackDescriptionLength: nat := 150

  /** The `filter` callback: the item's link mentions the community address.
      It is only ever asked about items that have a link. */
  predicate IsCafeLink(item: ApiItem) {
    item.link.Some? && Contains(item.link.value, CafeUrl)
  }

  /** Every item has a link, so the `filter` callback never throws. */
  predicate AllLinked(items: seq<ApiItem>) {
    forall i :: 0 <= i < |items| ==> items[i].link.Some?
  }

  /** An item that has a link: every item that survives the filter is one. */
  type LinkedItem = item: ApiItem | item.link.Some? witness ApiItem(None, Some(""), None)

  /** The `map` callback for one kept item. `cleanHtml` of a missing title or
      description throws, which fails the whole call. */
  function ToPost(item: LinkedItem): (r: Outcome<Post>)
    ensures r.Fail? <==> item.title.None? || item.description.None?
    ensures r.Ok? ==> r.value.title == CleanHtml(item.title.value)
                      && r.value.description == Truncate(OrElse(Some(CleanHtml(item.description.value)), NoPreview),
                                                         FallbackDescriptionLength)
                      && r.value.link == item.link.value && r.value.articleId.None?
  {
    if item.title.None? || item.description.None? then Fail
    else
      var description := OrElse(Some(CleanHtml(item.description.value)), NoPreview);
      Ok(Post(CleanHtml(item.title.value), Truncate(description, FallbackDescriptionLength), item.link.value, None))
  }

  /** The items kept before mapping: the first `PostsCount` community links,
      in order: as many as there are, up to `PostsCount`, each being the
      community link of the same rank (see `KeptAreFirstCommunityLinks`). */
  function Kept(items: seq<ApiItem>): (r: seq<LinkedItem>)
    ensures |r| <= PostsCount
    ensures forall x :: x in r ==> x in items && IsCafeLink(x)
    ensures |r| == if |Filter(IsCafeLink, items)| < PostsCount then |Filter(IsCafeLink, items)| else PostsCount
    ensures forall k :: 0 <= k < |r| ==> r[k] == Filter(IsCafeLink, items)[k]
  {
    var f := Filter(IsCafeLink, items);
    var t := Take(f, PostsCount);
    assert forall x :: x in t ==> x in f by {
      forall x | x in t ensures x in f {
        var k :| 0 <= k < |t| && t[k] == x;
        assert f[k] == x;
      }
    }
    assert forall k :: 0 <= k < |t| ==> t[k].link.Some? by {
      forall k | 0 <= k < |t| ensures t[k].link.Some? {
        assert t[k] in t;
      }
    }
    var r: seq<LinkedItem> := t;
    r
  }

  /** The `k`-th kept item sits in the response at a position preceded by
      exactly `k` community links: the kept items are the first community
      links of the response, in response order. */
  lemma KeptAreFirstCommunityLinks(items: seq<ApiItem>, k: nat)
    requires k < |Kept(items)|
    ensures exists i :: 0 <= i < |items| && items[i] == Kept(items)[k] && IsCafeLink(items[i])
                        && |Filter(IsCafeLink, items[..i])| == k
  {
    FilterAt(IsCafeLink, items, k);
  }

  /** `fetchCafePostsFromApi`, mapped from the settled request. A rejected
      request propagates; no `items`, or none at all, gives no posts; a linkless
      item anywhere fails the call, since `filter` asks about every item;
      otherwise the call fails exactly when a kept item lacks a title or a
      description, and succeeds with the kept items' posts, in order. */
  function FromApi(resp: ApiResponse): (r: Outcome<seq<Post>>)
    ensures resp.Fail? ==> r.Fail?
    ensures resp == Ok(None) || resp == Ok(Some([])) ==> r == Ok([])
    ensures resp.Ok? && resp.value.Some? && |resp.value.value| > 0 ==>
              var items := resp.value.value;
              && (!AllLinked(items) ==> r.Fail?)
              && (AllLinked(items) ==>
                   (r.Fail? <==> exists k :: 0 <= k < |Kept(items)| &&
                                  (Kept(items)[k].title.None? || Kept(items)[k].description.None?)))
              && (r.Ok? ==> |r.value| == |Kept(items)| &&
                             forall k :: 0 <= k < |r.value| ==> Ok(r.value[k]) == ToPost(Kept(items)[k]))
  {
    match resp
    case Fail => Fail
    case Ok(None) => Ok([])
    case Ok(Some(items)) =>
      if |items| == 0 then Ok([])
      else if !AllLinked(items) then Fail
      else MapAll(ToPost, Kept(items))
  }

  /** The 5-character floor of enrichment does not apply here: a community
      link whose description cleans to `ab` gives a post described `ab`. */
  lemma ShortFallbackDescriptionKept(item: ApiItem, ab: string)
    requires ab == "ab" && item.description == Some(ab)
    requires item.title.Some? && IsCafeLink(item)
    ensures FromApi(Ok(Some([item]))) == Ok([Post(CleanHtml(item.title.value), ab, item.link.value, None)])
  {
    CleanShortText(ab);
    assert ToPost(item).Ok? && ToPost(item).value == Post(CleanHtml(item.title.value), ab, item.link.value, None) by {
      assert OrElse(Some(CleanHtml(ab)), NoPreview) == ab;
      assert Truncate(ab, FallbackDescriptionLength) == ab;
    }
    FromApiSingle(item);
  }

  /** A response of one community link maps that link alone. */
  lemma FromApiSingle(item: LinkedItem)
    requires IsCafeLink(item) && ToPost(item).Ok?
    ensures FromApi(Ok(Some([item]))) == Ok([ToPost(item).value])
  {
    FilterOne(IsCafeLink, item);
    assert Kept([item]) == [item];
    assert AllLinked([item]);
    var r := FromApi(Ok(Some([item])));
    assert r == MapAll(ToPost, Kept([item]));
    assert r.Ok? && |r.value| == 1 && Ok(r.value[0]) == ToPost(Kept([item])[0]);
    assert r.value[0] == ToPost(item).value;
    assert r.value == [ToPost(item).value];
  }

  lemma CleanShortText(ab: string)
    requires ab == "ab"
    ensures CleanHtml(ab) == ab
  {
    assert '<' !in ab && '&' !in ab;
    assert NoOuterWhitespace(ab) && NoDoubleWhitespace(ab) && SpacesOnly(ab);
    CleanHtmlKeepsPlainText(ab);
  }

  /** Every fallback post is a community link with no id, a title that is the
      cleaned item title with no length cut, and a non-empty description of at
      most 153 characters. */
  lemma FallbackPostShape(items: seq<ApiItem>)
    requires FromApi(Ok(Some(items))).Ok?
    ensures var posts := FromApi(Ok(Some(items))).value;
            |posts| <= PostsCount
            && forall k :: 0 <= k < |posts| ==>
                 && posts[k].articleId.None?
                 && Contains(posts[k].link, CafeUrl)
                 && (exists x :: x in items && x.title.Some? && posts[k].title == CleanHtml(x.title.value))
                 && 0 < |posts[k].description| <= FallbackDescriptionLength + 3
  {
    if |items| > 0 {
      var posts, kept := FromApi(Ok(Some(items))).value, Kept(items);
      forall k | 0 <= k < |posts|
        ensures && posts[k].articleId.None?
                && Contains(posts[k].link, CafeUrl)
                && (exists x :: x in items && x.title.Some? && posts[k].title == CleanHtml(x.title.value))
                && 0 < |posts[k].description| <= FallbackDescriptionLength + 3
      {
        var x := kept[k];
        assert x in kept;
        assert ToPost(x) == Ok(posts[k]);
        var d := OrElse(Some(CleanHtml(x.description.value)), NoPreview);
        assert d != "";
      }
    }
  }
}
