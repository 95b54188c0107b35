/** The candidate loop of the forum scraper (`fetchCafePostsFromHtml`). The page
    fetch, its legacy-encoding decode and the markup parse are outside the model:
    the loop receives, in document order, the `href` and visible text of every
    link whose target mentions `ArticleRead.nhn`. */
module Scrape {
  import opened Outcomes
  import opened Strings
  import opened Sanitize
  import opened Posts

  /** One matched link element: its `href` attribute (`''` when absent) and its text. */
  datatype Candidate = Candidate(href: string, text: string)

  const IdKey: string := "articleid="
  const ClubKey: string := "clubid=" + ClubId
  /** Link texts that are navigation, not post titles. */
  const Noise: seq<string> := ["[2]", "답글", "댓글"]

  // ---------------------------------------------------------------- article id

  /** `articleid=` followed by at least one digit starts at position `i`. */
  predicate IdAt(href: string, i: int) {
    OccursAt(href, IdKey, i) && i + |IdKey| < |href| && IsDigit(href[i + |IdKey|])
  }

  /** `i` is the leftmost position where `/articleid=(\d+)/` matches. */
  predicate FirstIdAt(href: string, i: int) {
    IdAt(href, i) && forall j :: 0 <= j < i ==> !IdAt(href, j)
  }

  /** The longest run of digits at the start of `s` (`\d+` is greedy). */
  function LeadingDigits(s: string): (r: string)
    ensures |r| <= |s| && r == s[..|r|] && AllDigits(r)
    ensures |r| == |s| || !IsDigit(s[|r|])
  {
    if s != [] && IsDigit(s[0]) then [s[0]] + LeadingDigits(s[1..]) else []
  }

  lemma IdAtShift(href: string, i: int)
    requires |href| > 0 && 0 <= i
    ensures IdAt(href[1..], i) <==> IdAt(href, i + 1)
  {
    if i + |IdKey| < |href[1..]| {
      assert href[1..][i..i + |IdKey|] == href[i + 1..i + 1 + |IdKey|];
      assert href[1..][i + |IdKey|] == href[i + 1 + |IdKey|];
    }
  }

  /** `href.match(/articleid=(\d+)/)` and its first group. */
  function ExtractArticleId(href: string): (r: Option<string>)
    ensures r.Some? ==> |href| > |IdKey|
    decreases |href|
  {
    if href == [] then None
    else if IdAt(href, 0) then Some(LeadingDigits(href[|IdKey|..]))
    else ExtractArticleId(href[1..])
  }

  /** The extraction finds nothing exactly when there is no match, and otherwise
      returns the greedy digit run of the leftmost match. */
  lemma {:induction false} ExtractArticleIdMatches(href: string)
    ensures ExtractArticleId(href).None? <==> forall i :: !IdAt(href, i)
    ensures ExtractArticleId(href).Some? ==>
              exists i :: FirstIdAt(href, i) && ExtractArticleId(href).value == LeadingDigits(href[i + |IdKey|..])
    decreases |href|
  {
    if href == [] {
    } else if IdAt(href, 0) {
      assert FirstIdAt(href, 0);
    } else {
      ExtractArticleIdMatches(href[1..]);
      var r := ExtractArticleId(href[1..]);
      if r.None? {
        forall i ensures !IdAt(href, i) {
          if i > 0 { IdAtShift(href, i - 1); }
        }
      } else {
        var i :| FirstIdAt(href[1..], i) && r.value == LeadingDigits(href[1..][i + |IdKey|..]);
        IdAtShift(href, i);
        assert href[1..][i + |IdKey|..] == href[i + 1 + |IdKey|..];
        assert FirstIdAt(href, i + 1) by {
          forall j | 0 <= j < i + 1 ensures !IdAt(href, j) {
            if j > 0 { IdAtShift(href, j - 1); }
          }
        }
      }
    }
  }

  /** An extracted id is a non-empty digit string that follows `articleid=` in the link. */
  lemma ExtractedIdShape(href: string)
    requires ExtractArticleId(href).Some?
    ensures var id := ExtractArticleId(href).value;
            |id| > 0 && AllDigits(id) && Contains(href, IdKey + id)
  {
    ExtractArticleIdMatches(href);
    var id := ExtractArticleId(href).value;
    var i :| FirstIdAt(href, i) && id == LeadingDigits(href[i + |IdKey|..]);
    IdFollowsKey(href, i, id);
  }

  lemma IdFollowsKey(href: string, i: int, id: string)
    requires IdAt(href, i) && id == LeadingDigits(href[i + |IdKey|..])
    ensures |id| > 0 && OccursAt(href, IdKey + id, i)
  {
    var k := i + |IdKey|;
    var rest := href[k..];
    assert rest[0] == href[k];
    assert |id| > 0;
    assert href[k..k + |id|] == rest[..|id|];
    assert href[i..i + |IdKey + id|] == href[i..k] + href[k..k + |id|];
  }

  // ---------------------------------------------------------------- one candidate

  /** The link text as the loop sees it (`$link.text().trim()`). */
  function Title(c: Candidate): string {
    Trim(c.text)
  }

  /** Every check of the loop body except the `seenArticleIds` one. */
  predicate Acceptable(c: Candidate) {
    && ExtractArticleId(c.href).Some?
    && Title(c) != "" && |Title(c)| >= 2
    && Title(c) !in Noise
    && Contains(c.href, ClubKey)
  }

  function Id(c: Candidate): string
    requires ExtractArticleId(c.href).Some?
  {
    ExtractArticleId(c.href).value
  }

  /** Link normalisation: a root-relative path gets the site origin, a bare
      `ArticleRead.nhn` path gets the community path, anything else is kept. */
  function NormaliseLink(href: string): (r: string)
    ensures StartsWith(href, "/") ==> r == "https://cafe.naver.com" + href
    ensures !StartsWith(href, "/") && StartsWith(href, "ArticleRead.nhn") ==>
              r == "https://cafe.naver.com/linkus16/" + href
    ensures !StartsWith(href, "/") && !StartsWith(href, "ArticleRead.nhn") ==> r == href
  {
    if StartsWith(href, "/") then "https://cafe.naver.com" + href
    else if StartsWith(href, "ArticleRead.nhn") then "https://cafe.naver.com/linkus16/" + href
    else href
  }

  /** Normalisation only ever prepends: the original link is the tail of the
      result; the two relative forms become absolute links into the site; and
      a normalised link is left alone when normalised again. */
  lemma NormalisedLinkShape(href: string)
    ensures |href| <= |NormaliseLink(href)|
    ensures NormaliseLink(href)[|NormaliseLink(href)| - |href|..] == href
    ensures StartsWith(href, "/") || StartsWith(href, "ArticleRead.nhn") ==>
              StartsWith(NormaliseLink(href), "https://cafe.naver.com/")
    ensures NormaliseLink(NormaliseLink(href)) == NormaliseLink(href)
  {
    var r := NormaliseLink(href);
    if StartsWith(href, "/") {
      var origin := "https://cafe.naver.com";
      assert r == origin + href;
      assert r[..|origin| + 1] == origin + "/";
      assert r[0] == 'h';
    } else if StartsWith(href, "ArticleRead.nhn") {
      var base := "https://cafe.naver.com/linkus16/";
      assert r == base + href;
      assert r[..23] == base[..23];
      assert r[0] == 'h';
    }
  }

  /** The post pushed for an accepted candidate. */
  function ToPost(c: Candidate): (p: Post)
    requires ExtractArticleId(c.href).Some?
  {
    Post(CleanHtml(Title(c)), "", NormaliseLink(c.href), Some(Id(c)))
  }

  /** The loop body's verdict on one candidate, leaving out the `seenArticleIds`
      check: the post it would push, or `None` when a check rejects it. */
  function Screen(c: Candidate): (v: Option<Post>)
    ensures v.Some? <==> Acceptable(c)
    ensures v.Some? ==> v.value == ToPost(c) && v.value.articleId.Some?
  {
    if Acceptable(c) then Some(ToPost(c)) else None
  }

  /** The verdicts on a run of candidates, in order. */
  function Screens(cands: seq<Candidate>): (vs: seq<Option<Post>>)
    ensures |vs| == |cands|
  {
    Map(Screen, cands)
  }

  // ---------------------------------------------------------------- reference selection

  /** The ids of all screened-in posts: exactly what `seenArticleIds` holds once
      these candidates have been scanned, since a screened-in candidate whose id
      is already there adds nothing new. */
  function Seen(vs: seq<Option<Post>>): set<string>
    decreases |vs|
  {
    if vs == [] then {}
    else
      var v := vs[|vs| - 1];
      Seen(vs[..|vs| - 1]) + (if v.Some? && v.value.articleId.Some? then {v.value.articleId.value} else {})
  }

  /** A screened-in post is kept when no earlier screened-in post has its id. */
  predicate Kept(prefix: seq<Option<Post>>, v: Option<Post>) {
    v.Some? && v.value.articleId.Some? && v.value.articleId.value !in Seen(prefix)
  }

  /** The kept posts in candidate order, without the cap. */
  function Dedup(vs: seq<Option<Post>>): seq<Post>
    decreases |vs|
  {
    if vs == [] then []
    else
      var init, v := vs[..|vs| - 1], vs[|vs| - 1];
      Dedup(init) + (if Kept(init, v) then [v.value] else [])
  }

  /** The positions of the kept posts. */
  ghost function Picked(vs: seq<Option<Post>>): seq<nat>
    decreases |vs|
  {
    if vs == [] then []
    else
      var init, v := vs[..|vs| - 1], vs[|vs| - 1];
      Picked(init) + (if Kept(init, v) then [|vs| - 1] else [])
  }

  /** The scraper's result: the first `PostsCount` kept candidates' posts. */
  function Select(cands: seq<Candidate>): (posts: seq<Post>)
    ensures |posts| <= PostsCount
  {
    Take(Dedup(Screens(cands)), PostsCount)
  }

  // ---------------------------------------------------------------- properties of the selection

  /** The posts are exactly the kept entries, in strictly increasing position. */
  lemma {:induction false} DedupInOrder(vs: seq<Option<Post>>)
    ensures |Picked(vs)| == |Dedup(vs)|
    ensures forall k :: 0 <= k < |Picked(vs)| ==>
              var i := Picked(vs)[k];
              i < |vs| && Kept(vs[..i], vs[i]) && Dedup(vs)[k] == vs[i].value
    ensures forall k, l :: 0 <= k < l < |Picked(vs)| ==> Picked(vs)[k] < Picked(vs)[l]
    decreases |vs|
  {
    if vs != [] {
      var init, v := vs[..|vs| - 1], vs[|vs| - 1];
      DedupInOrder(init);
      var P, D := Picked(init), Dedup(init);
      assert forall i :: 0 <= i < |init| ==> init[..i] == vs[..i] && init[i] == vs[i];
      if Kept(init, v) {
        assert Picked(vs) == P + [|vs| - 1] && Dedup(vs) == D + [v.value];
        assert vs[..|vs| - 1] == init;
      } else {
        assert Picked(vs) == P && Dedup(vs) == D;
      }
    }
  }

  /** Every kept post has an id that was seen, and no two kept posts share one. */
  lemma {:induction false} DedupDistinct(vs: seq<Option<Post>>)
    ensures forall k :: 0 <= k < |Dedup(vs)| ==>
              Dedup(vs)[k].articleId.Some? && Dedup(vs)[k].articleId.value in Seen(vs)
    ensures forall k, l :: 0 <= k < l < |Dedup(vs)| ==> Dedup(vs)[k].articleId != Dedup(vs)[l].articleId
    decreases |vs|
  {
    if vs != [] {
      var init, v := vs[..|vs| - 1], vs[|vs| - 1];
      DedupDistinct(init);
      var D, ids, r := Dedup(init), Seen(init), Dedup(vs);
      assert ids <= Seen(vs);
      if Kept(init, v) {
        assert r == D + [v.value];
        forall k | 0 <= k < |r|
          ensures r[k].articleId.Some? && r[k].articleId.value in Seen(vs)
        {
          if k < |D| { assert r[k] == D[k]; }
        }
        forall k, l | 0 <= k < l < |r|
          ensures r[k].articleId != r[l].articleId
        {
          assert r[k] == D[k];
          if l < |D| {
            assert r[l] == D[l];
          } else {
            assert r[l] == v.value;
            assert D[k].articleId.value in ids;
          }
        }
      } else {
        assert r == D;
      }
    }
  }

  /** Scanning more candidates only appends posts. */
  lemma {:induction false} DedupPrefix(a: seq<Option<Post>>, b: seq<Option<Post>>)
    ensures |Dedup(a)| <= |Dedup(a + b)| && Dedup(a + b)[..|Dedup(a)|] == Dedup(a)
    decreases |b|
  {
    if b == [] {
      assert a + b == a;
    } else {
      var b' := b[..|b| - 1];
      DedupPrefix(a, b');
      assert (a + b)[..|a + b| - 1] == a + b';
      var D, D' := Dedup(a), Dedup(a + b');
      assert Dedup(a + b)[..|D'|] == D';
      assert D'[..|D|] == D;
    }
  }

  lemma {:induction false} RejectedAddsNoId(a: seq<Option<Post>>, b: seq<Option<Post>>)
    ensures Seen(a + [None] + b) == Seen(a + b)
    decreases |b|
  {
    if b == [] {
      assert (a + [None] + b)[..|a + [None] + b| - 1] == a;
      assert a + b == a;
    } else {
      var b' := b[..|b| - 1];
      RejectedAddsNoId(a, b');
      assert (a + [None] + b)[..|a + [None] + b| - 1] == a + [None] + b';
      assert (a + b)[..|a + b| - 1] == a + b';
    }
  }

  lemma {:induction false} RejectedIsInvisibleInDedup(a: seq<Option<Post>>, b: seq<Option<Post>>)
    ensures Dedup(a + [None] + b) == Dedup(a + b)
    decreases |b|
  {
    if b == [] {
      assert (a + [None] + b)[..|a + [None] + b| - 1] == a;
      assert a + b == a;
    } else {
      var b' := b[..|b| - 1];
      RejectedIsInvisibleInDedup(a, b');
      RejectedAddsNoId(a, b');
      assert (a + [None] + b)[..|a + [None] + b| - 1] == a + [None] + b';
      assert (a + b)[..|a + b| - 1] == a + b';
    }
  }

  lemma {:induction false} SeenGrows(a: seq<Option<Post>>, b: seq<Option<Post>>)
    ensures Seen(a) <= Seen(a + b)
    decreases |b|
  {
    if b == [] {
      assert a + b == a;
    } else {
      SeenGrows(a, b[..|b| - 1]);
      assert (a + b)[..|a + b| - 1] == a + b[..|b| - 1];
    }
  }

  /** A rejected candidate does not mark its id as seen: dropping it changes
      nothing about the posts, whatever comes after it. */
  lemma RejectedIsInvisible(a: seq<Candidate>, c: Candidate, b: seq<Candidate>)
    requires !Acceptable(c)
    ensures Select(a + [c] + b) == Select(a + b)
  {
    MapSplit(Screen, a, c, b);
    assert Screen(c) == None;
    RejectedIsInvisibleInDedup(Screens(a), Screens(b));
    MapConcat(Screen, a, b);
  }

  /** The id of a screened-in post is seen from then on. */
  lemma SeenAfter(x: seq<Option<Post>>, p: Post, y: seq<Option<Post>>)
    requires p.articleId.Some?
    ensures p.articleId.value in Seen(x + [Some(p)] + y)
  {
    var z := x + [Some(p)];
    assert z[..|z| - 1] == x && z[|z| - 1] == Some(p);
    SeenGrows(z, y);
  }

  /** An entry whose id is already seen adds no post. */
  lemma SeenIsDropped(vs: seq<Option<Post>>, v: Option<Post>)
    requires v.Some? && v.value.articleId.Some? && v.value.articleId.value in Seen(vs)
    ensures Dedup(vs + [v]) == Dedup(vs)
  {
    var z := vs + [v];
    assert z[..|z| - 1] == vs && z[|z| - 1] == v;
  }

  /** A later entry with the id of an earlier screened-in entry adds no post. */
  lemma RepeatedIdIsDropped(x: seq<Option<Post>>, v: Option<Post>, y: seq<Option<Post>>, w: Option<Post>,
                            before: seq<Option<Post>>, after: seq<Option<Post>>)
    requires v.Some? && w.Some? && v.value.articleId.Some? && v.value.articleId == w.value.articleId
    requires before == x + [v] + y && after == before + [w]
    ensures Dedup(after) == Dedup(before)
  {
    SeenAfter(x, v.value, y);
    SeenIsDropped(before, w);
  }

  /** Deduplication: a candidate whose id an earlier accepted candidate already
      has adds no post, even when it passes every other check. */
  lemma DuplicateIsDropped(a: seq<Candidate>, c: Candidate, b: seq<Candidate>, d: Candidate)
    requires Acceptable(c) && Acceptable(d) && Id(c) == Id(d)
    ensures Dedup(Screens(a + [c] + b + [d])) == Dedup(Screens(a + [c] + b))
  {
    var v, w := Screen(c), Screen(d);
    assert v.value.articleId == Some(Id(c)) == w.value.articleId;
    MapSplit(Screen, a, c, b);
    MapSplit(Screen, a + [c] + b, d, []);
    assert a + [c] + b + [d] + [] == a + [c] + b + [d];
    RepeatedIdIsDropped(Screens(a), v, Screens(b), w, Screens(a + [c] + b), Screens(a + [c] + b + [d]));
  }

  /** Every selected post comes from an accepted candidate, with the fields the
      loop gives it, and no two share an id. (The order of the kept posts is
      stated by `DedupInOrder`.) */
  lemma SelectedPosts(cands: seq<Candidate>)
    ensures forall k :: 0 <= k < |Select(cands)| ==>
              && Select(cands)[k].description == "" && Select(cands)[k].articleId.Some?
              && exists i :: 0 <= i < |cands| && Acceptable(cands[i]) && Select(cands)[k] == ToPost(cands[i])
    ensures forall k, l :: 0 <= k < l < |Select(cands)| ==> Select(cands)[k].articleId != Select(cands)[l].articleId
  {
    var vs := Screens(cands);
    DedupInOrder(vs);
    DedupDistinct(vs);
    var D, S := Dedup(vs), Select(cands);
    assert S == Take(D, PostsCount);
    forall k | 0 <= k < |S|
      ensures && S[k].description == "" && S[k].articleId.Some?
              && exists i :: 0 <= i < |cands| && Acceptable(cands[i]) && S[k] == ToPost(cands[i])
    {
      var i := Picked(vs)[k];
      assert i < |vs| && Kept(vs[..i], vs[i]);
      assert S[k] == D[k] == vs[i].value;
      MapAt(Screen, cands, i);
      assert Acceptable(cands[i]) && S[k] == ToPost(cands[i]);
    }
    forall k, l | 0 <= k < l < |S|
      ensures S[k].articleId != S[l].articleId
    {
      assert S[k] == D[k] && S[l] == D[l];
    }
  }

  /** An extracted id is made of digits only. */
  lemma SelectedIdsAreDigits(cands: seq<Candidate>, k: nat)
    requires k < |Select(cands)|
    ensures Select(cands)[k].articleId.Some? && |Select(cands)[k].articleId.value| > 0
            && AllDigits(Select(cands)[k].articleId.value)
  {
    SelectedPosts(cands);
    var p := Select(cands)[k];
    assert p.articleId.Some?;
    var i :| 0 <= i < |cands| && Acceptable(cands[i]) && p == ToPost(cands[i]);
    ExtractedIdShape(cands[i].href);
  }

  /** A link that is neither root-relative nor a bare file name passes through
      unchanged, so a `./`-relative one stays relative. */
  lemma DotRelativeLinkStaysRelative(href: string)
    requires StartsWith(href, "./")
    ensures NormaliseLink(href) == href && !StartsWith(NormaliseLink(href), "https://")
  {
    assert href[0] == '.';
  }

  /** One more entry extends the seen ids and the posts exactly when it is kept. */
  lemma DedupStep(vs: seq<Option<Post>>, i: nat)
    requires i < |vs|
    ensures Kept(vs[..i], vs[i]) ==>
              Seen(vs[..i + 1]) == Seen(vs[..i]) + {vs[i].value.articleId.value}
              && Dedup(vs[..i + 1]) == Dedup(vs[..i]) + [vs[i].value]
    ensures !Kept(vs[..i], vs[i]) ==> Seen(vs[..i + 1]) == Seen(vs[..i]) && Dedup(vs[..i + 1]) == Dedup(vs[..i])
  {
    var z := vs[..i + 1];
    assert z[..|z| - 1] == vs[..i] && z[|z| - 1] == vs[i];
  }

  /** Stopping once the cap is reached, or at the end, leaves the capped result. */
  lemma ScanStops(vs: seq<Option<Post>>, i: nat, posts: seq<Post>)
    requires i <= |vs| && posts == Dedup(vs[..i]) && |posts| <= PostsCount
    requires i == |vs| || |posts| >= PostsCount
    ensures posts == Take(Dedup(vs), PostsCount)
  {
    if i < |vs| {
      DedupPrefix(vs[..i], vs[i..]);
      assert vs[..i] + vs[i..] == vs;
    } else {
      assert vs[..i] == vs;
    }
  }

  // ---------------------------------------------------------------- the loop

  /** One pass of the loop body: the source's checks in their order, then the
      push. It adds a post exactly when the candidate is screened in with an id
      not yet seen. */
  method Visit(c: Candidate, seen: set<string>, posts: seq<Post>) returns (seen': set<string>, posts': seq<Post>)
    ensures var v := Screen(c);
            if v.Some? && v.value.articleId.value !in seen
            then seen' == seen + {v.value.articleId.value} && posts' == posts + [v.value]
            else seen' == seen && posts' == posts
  {
    seen', posts' := seen, posts;
    var title := Trim(c.text);
    var m := ExtractArticleId(c.href);
    if m.None? {
      return;
    }
    var id := m.value;
    if id in seen || title == "" || |title| < 2 {
      return;
    }
    if title in Noise {
      return;
    }
    if !Contains(c.href, ClubKey) {
      return;
    }
    seen' := seen + {id};
    posts' := posts + [Post(CleanHtml(title), "", NormaliseLink(c.href), Some(id))];
  }

  /** The `.each` loop over the candidates, with its `seenArticleIds` set and its
      early exit once `PostsCount` posts are collected. */
  method ScanCandidates(cands: seq<Candidate>) returns (posts: seq<Post>)
    ensures posts == Select(cands)
  {
    posts := [];
    var seen: set<string> := {};
    var i := 0;
    ghost var vs := Screens(cands);
    while i < |cands| && |posts| < PostsCount
      invariant 0 <= i <= |cands|
      invariant seen == Seen(vs[..i])
      invariant posts == Dedup(vs[..i])
      invariant |posts| <= PostsCount
    {
      MapAt(Screen, cands, i);
      DedupStep(vs, i);
      seen, posts := Visit(cands[i], seen, posts);
      i := i + 1;
    }
    ScanStops(vs, i, posts);
  }
}
