/** Description enrichment (`enrichPostsWithDescription`): each scraped post is
    matched against the search API's items by a substring test on the item's link,
    and gets the item's cleaned, truncated description or the no-preview
    placeholder. The search request itself is an input outcome. */
module Enrich {
  import opened Outcomes
  import opened Strings
  import opened Sanitize
  import opened Posts

  // ---------------------------------------------------------------- matching

  /** `${post.articleId}`: the id, or `undefined` once the property is gone. */
  function IdText(id: Option<string>): string {
    if id.Some? then id.value else "undefined"
  }

  /** The `find` callback on a present link: the link mentions `articleid=<id>`
      or `/<id>` anywhere. */
  predicate LinkMatches(link: string, id: Option<string>) {
    Contains(link, "articleid=" + IdText(id)) || Contains(link, "/" + IdText(id))
  }

  predicate Matches(item: ApiItem, id: Option<string>) {
    item.link.Some? && LinkMatches(item.link.value, id)
  }

  /** Every item before position `i` has a link, and none of them matches. */
  predicate PassedOver(items: seq<ApiItem>, id: Option<string>, i: int) {
    i <= |items| && forall j :: 0 <= j < i ==> items[j].link.Some? && !Matches(items[j], id)
  }

  /** `items.find(...)`: the first matching item, `None` when there is none, and a
      failure when the callback reaches an item without a link, since
      `item.link.includes` then throws. */
  function FindItem(items: seq<ApiItem>, id: Option<string>): Outcome<Option<ApiItem>>
    decreases |items|
  {
    if items == [] then Ok(None)
    else if items[0].link.None? then Fail
    else if LinkMatches(items[0].link.value, id) then Ok(Some(items[0]))
    else FindItem(items[1..], id)
  }

  lemma PassedOverShift(items: seq<ApiItem>, id: Option<string>, i: nat)
    requires 0 < |items| && items[0].link.Some? && !Matches(items[0], id) && i < |items|
    ensures PassedOver(items[1..], id, i) <==> PassedOver(items, id, i + 1)
  {
    if PassedOver(items[1..], id, i) {
      forall j | 0 <= j < i + 1 ensures items[j].link.Some? && !Matches(items[j], id) {
        if j > 0 {
          assert items[j] == items[1..][j - 1];
        }
      }
    }
    if PassedOver(items, id, i + 1) {
      forall j | 0 <= j < i ensures items[1..][j].link.Some? && !Matches(items[1..][j], id) {
        assert items[1..][j] == items[j + 1];
      }
    }
  }

  /** `find` scans in order: it fails at the first linkless item it reaches,
      returns the first matching item, and finds nothing only when every item has
      a link and none matches. */
  lemma {:induction false} FindItemScansInOrder(items: seq<ApiItem>, id: Option<string>)
    ensures FindItem(items, id).Fail? <==>
              exists i :: 0 <= i < |items| && items[i].link.None? && PassedOver(items, id, i)
    ensures FindItem(items, id).Ok? && FindItem(items, id).value.Some? <==>
              exists i :: 0 <= i < |items| && Matches(items[i], id) && PassedOver(items, id, i)
    ensures FindItem(items, id).Ok? && FindItem(items, id).value.Some? ==>
              exists i :: 0 <= i < |items| && Matches(items[i], id) && PassedOver(items, id, i)
                          && FindItem(items, id).value.value == items[i]
    ensures FindItem(items, id) == Ok(None) <==> PassedOver(items, id, |items|)
    decreases |items|
  {
    var r := FindItem(items, id);
    if items == [] {
    } else if items[0].link.None? {
      assert PassedOver(items, id, 0);
      assert forall i :: 0 <= i < |items| && Matches(items[i], id) ==> !PassedOver(items, id, i) by {
        forall i | 0 <= i < |items| && Matches(items[i], id) ensures !PassedOver(items, id, i) {
          assert i > 0;
        }
      }
    } else if LinkMatches(items[0].link.value, id) {
      assert PassedOver(items, id, 0) && Matches(items[0], id);
      forall i | 0 < i < |items| ensures !PassedOver(items, id, i) {
        assert !(items[0].link.Some? && !Matches(items[0], id));
      }
    } else {
      var rest := items[1..];
      FindItemScansInOrder(rest, id);
      assert |rest| + 1 == |items|;
      forall i | 0 <= i < |rest| ensures PassedOver(rest, id, i) <==> PassedOver(items, id, i + 1) {
        PassedOverShift(items, id, i);
      }
      assert PassedOver(rest, id, |rest|) <==> PassedOver(items, id, |items|) by {
        if PassedOver(rest, id, |rest|) {
          forall j | 0 <= j < |items| ensures items[j].link.Some? && !Matches(items[j], id) {
            if j > 0 { assert items[j] == rest[j - 1]; }
          }
        }
        if PassedOver(items, id, |items|) {
          forall j | 0 <= j < |rest| ensures rest[j].link.Some? && !Matches(rest[j], id) {
            assert rest[j] == items[j + 1];
          }
        }
      }
      forall i | 0 <= i < |items| && (items[i].link.None? || Matches(items[i], id))
        ensures i > 0 && items[i] == rest[i - 1]
      {
      }
    }
  }

  /** The test is a substring test: a link for a longer id that extends this one
      after a `/` matches too, so `find` may pick another article's item. */
  lemma SubstringMatchAcceptsLongerId(link: string, id: string, more: string)
    requires Contains(link, "/" + id + more)
    ensures LinkMatches(link, Some(id))
  {
    var i :| OccursAt(link, "/" + id + more, i);
    var n := |"/" + id|;
    assert link[i..i + n] == link[i..i + |"/" + id + more|][..n];
    assert OccursAt(link, "/" + id, i);
  }

  // ---------------------------------------------------------------- one post

  /** What a found item offers: `truncateText(cleanHtml(description), 100)`, when
      its description is truthy. */
  function Offered(found: Option<ApiItem>): Option<string> {
    if found.Some? && Truthy(found.value.description)
    then Some(Truncate(CleanHtml(found.value.description.value), DescriptionLength))
    else None
  }

  /** The final description: the offered text when it has at least 10 characters,
      otherwise the post's own; then anything shorter than 5 becomes the
      placeholder. */
  function ChooseDescription(own: string, offered: Option<string>): (d: string)
    ensures offered.Some? && |offered.value| >= 10 ==> d == offered.value
    ensures !(offered.Some? && |offered.value| >= 10) ==>
              d == (if |own| < 5 then NoPreview else own)
    ensures |d| >= 5
  {
    var d := if offered.Some? && |offered.value| >= 10 then offered.value else own;
    if d == "" || |d| < 5 then NoPreview else d
  }

  /** The `forEach` body for one post: look the post up, choose its description,
      delete its id. It fails exactly when the lookup throws. */
  function EnrichOne(items: seq<ApiItem>, p: Post): (r: Outcome<Post>)
    ensures r.Fail? <==> FindItem(items, p.articleId).Fail?
    ensures r.Ok? ==> r.value == p.(description := ChooseDescription(p.description, Offered(FindItem(items, p.articleId).value)),
                                     articleId := None)
  {
    match FindItem(items, p.articleId)
    case Fail => Fail
    case Ok(found) => Ok(p.(description := ChooseDescription(p.description, Offered(found)), articleId := None))
  }

  /** What the `catch` block leaves: the placeholder, and no id. */
  function Placeholder(p: Post): (q: Post)
    ensures q.title == p.title && q.link == p.link && q.description == NoPreview && q.articleId.None?
  {
    p.(description := NoPreview, articleId := None)
  }

  // ---------------------------------------------------------------- the batch

  /** `enrichPostsWithDescription`. A rejected request, or a throw while any post
      is looked up, leaves every post with the placeholder; a response without
      `items` leaves the posts as they were. */
  function EnrichPosts(posts: seq<Post>, resp: ApiResponse): (r: seq<Post>)
    ensures |r| == |posts|
    ensures forall k :: 0 <= k < |r| ==> r[k].title == posts[k].title && r[k].link == posts[k].link
    ensures resp == Ok(None) ==> r == posts
    ensures resp != Ok(None) ==> forall k :: 0 <= k < |r| ==> Finalised(r[k]) && |r[k].description| >= 5
  {
    MapPlaceholder(posts);
    match resp
    case Fail => Map(Placeholder, posts)
    case Ok(None) => posts
    case Ok(Some(items)) =>
      var all := MapAll((p: Post) => EnrichOne(items, p), posts);
      if all.Ok? then all.value else Map(Placeholder, posts)
  }

  lemma MapPlaceholder(posts: seq<Post>)
    ensures |Map(Placeholder, posts)| == |posts|
    ensures forall k :: 0 <= k < |posts| ==> Map(Placeholder, posts)[k] == Placeholder(posts[k])
  {
    forall k | 0 <= k < |posts| ensures Map(Placeholder, posts)[k] == Placeholder(posts[k]) {
      MapAt(Placeholder, posts, k);
    }
  }

  // ---------------------------------------------------------------- properties

  /** Some post's lookup throws. */
  predicate SomeLookupThrows(posts: seq<Post>, items: seq<ApiItem>) {
    exists k :: 0 <= k < |posts| && FindItem(items, posts[k].articleId).Fail?
  }

  /** The error path is all or nothing: a rejected request, or a throw while any
      one post is looked up, gives every post the placeholder, including posts
      that were already enriched. Otherwise every post gets its own lookup's
      result. */
  lemma ErrorResetsWholeBatch(posts: seq<Post>, resp: ApiResponse)
    requires resp != Ok(None)
    ensures (resp.Fail? || SomeLookupThrows(posts, resp.value.value)) ==>
              EnrichPosts(posts, resp) == Map(Placeholder, posts)
    ensures resp.Ok? && !SomeLookupThrows(posts, resp.value.value) ==>
              forall k :: 0 <= k < |posts| ==> Ok(EnrichPosts(posts, resp)[k]) == EnrichOne(resp.value.value, posts[k])
  {
    if resp.Ok? {
      var items := resp.value.value;
      var f := (p: Post) => EnrichOne(items, p);
      var all := MapAll(f, posts);
      assert all.Fail? <==> SomeLookupThrows(posts, items) by {
        if all.Fail? {
          var k :| 0 <= k < |posts| && f(posts[k]).Fail?;
          assert FindItem(items, posts[k].articleId).Fail?;
        }
        if SomeLookupThrows(posts, items) {
          var k :| 0 <= k < |posts| && FindItem(items, posts[k].articleId).Fail?;
          assert f(posts[k]).Fail?;
        }
      }
    }
  }

  /** A scraped post (empty description) that is looked up without a throw ends
      with no id and either the placeholder or, from the FIRST item whose link
      matches its id, that item's cleaned description truncated to 100
      characters, and then only when it has at least 10 characters. */
  lemma ScrapedPostDescription(posts: seq<Post>, items: seq<ApiItem>, k: nat)
    requires k < |posts| && posts[k].description == ""
    requires !SomeLookupThrows(posts, items)
    ensures var q := EnrichPosts(posts, Ok(Some(items)))[k];
            && q.articleId.None? && q.title == posts[k].title && q.link == posts[k].link
            && (|| q.description == NoPreview
                || exists i :: && 0 <= i < |items| && Matches(items[i], posts[k].articleId)
                               && PassedOver(items, posts[k].articleId, i)
                               && items[i].description.Some?
                               && q.description == Truncate(CleanHtml(items[i].description.value), DescriptionLength)
                               && 10 <= |q.description| <= DescriptionLength + 3)
  {
    ErrorResetsWholeBatch(posts, Ok(Some(items)));
    var p := posts[k];
    var q := EnrichPosts(posts, Ok(Some(items)))[k];
    var found := FindItem(items, p.articleId);
    assert EnrichOne(items, p) == Ok(q);
    FindItemScansInOrder(items, p.articleId);
    var offered := Offered(found.value);
    if offered.Some? && |offered.value| >= 10 {
      var i :| 0 <= i < |items| && Matches(items[i], p.articleId) && PassedOver(items, p.articleId, i)
               && found.value.value == items[i];
      assert q.description == offered.value;
    }
  }
}
