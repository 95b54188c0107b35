/** The photo-feed mapping (`fetchInstagramPosts`): the newest feed items become
    posts with a fixed label as title and a cleaned, hashtag-free, truncated
    caption as description. The feed download and parse are an input outcome. */
module Feed {
  import opened Outcomes
  import opened Strings
  import opened Sanitize
  import opened Posts

  /** The title every feed post gets. */
  const FeedLabel: string := "인스타그램 게시물"

  /** The parsed feed: a failure anywhere in download or parse, or a feed whose
      `items` may be absent. */
  type FeedResponse = Outcome<Option<seq<FeedItem>>>

  // ---------------------------------------------------------------- hashtags

  /** A character `[^\s#]` accepts. */
  predicate IsTagChar(c: char) {
    !IsWhitespace(c) && c != '#'
  }

  /** Cannot continue a hashtag: empty, or starting with whitespace or `#`. */
  predicate StartsCleanly(s: string) {
    |s| == 0 || !IsTagChar(s[0])
  }

  /** Every `#` is at the end or followed by whitespace or another `#`: nothing
      matching `#[^\s#]+` is left. */
  predicate NoHashtag(s: string) {
    forall i :: 0 <= i < |s| && s[i] == '#' ==> i + 1 == |s| || !IsTagChar(s[i + 1])
  }

  /** The longest run of tag characters at the start of `s` (`[^\s#]+` is greedy). */
  function TagBody(s: string): (r: string)
    ensures |r| <= |s| && r == s[..|r|]
    ensures forall i :: 0 <= i < |r| ==> IsTagChar(r[i])
    ensures StartsCleanly(s[|r|..])
  {
    if s != [] && IsTagChar(s[0]) then [s[0]] + TagBody(s[1..]) else []
  }

  /** `s.replace(/#[^\s#]+/g, '')`: scanning left to right, a `#` followed by at
      least one tag character is removed with the whole run; a lone `#` stays. */
  function StripHashtags(s: string): (r: string)
    ensures |r| <= |s|
    decreases |s|
  {
    if s == [] then []
    else if s[0] == '#' && |TagBody(s[1..])| > 0 then StripHashtags(s[1 + |TagBody(s[1..])|..])
    else [s[0]] + StripHashtags(s[1..])
  }

  /** No hashtag survives, and text that cannot continue a hashtag before the
      removal cannot after it either. */
  lemma {:induction false} StripHashtagsLeavesNone(s: string)
    ensures NoHashtag(StripHashtags(s))
    ensures StartsCleanly(s) ==> StartsCleanly(StripHashtags(s))
    decreases |s|
  {
    if s != [] {
      var body := TagBody(s[1..]);
      if s[0] == '#' && |body| > 0 {
        var rest := s[1 + |body|..];
        assert rest == s[1..][|body|..];
        StripHashtagsLeavesNone(rest);
      } else {
        var tail := StripHashtags(s[1..]);
        StripHashtagsLeavesNone(s[1..]);
        assert StripHashtags(s) == [s[0]] + tail;
        if s[0] == '#' {
          assert s[1..][|body|..] == s[1..];
        }
        ConsKeepsNoHashtag(s[0], tail);
      }
    }
  }

  /** Putting a character in front keeps the text hashtag-free, provided a `#`
      is not put in front of a tag character. */
  lemma ConsKeepsNoHashtag(c: char, tail: string)
    requires NoHashtag(tail)
    requires c == '#' ==> StartsCleanly(tail)
    ensures NoHashtag([c] + tail)
  {
    var r := [c] + tail;
    forall i | 0 <= i < |r| && r[i] == '#' ensures i + 1 == |r| || !IsTagChar(r[i + 1]) {
      if i > 0 {
        assert r[i] == tail[i - 1];
        if i + 1 < |r| { assert r[i + 1] == tail[i]; }
      }
    }
  }

  /** Text without `#` is left alone. */
  lemma {:induction false} StripHashtagsSkipsPrefix(p: string, t: string)
    requires '#' !in p
    ensures StripHashtags(p + t) == p + StripHashtags(t)
    decreases |p|
  {
    if p != [] {
      DropOfAppend(p, t);
      StripHashtagsSkipsPrefix(p[1..], t);
      ConsTail(p, StripHashtags(t));
    } else {
      AppendEmpty(t);
    }
  }

  /** A whole hashtag is removed. */
  lemma StripHashtagsDropsTag(tag: string, t: string)
    requires |tag| > 0 && forall i :: 0 <= i < |tag| ==> IsTagChar(tag[i])
    requires StartsCleanly(t)
    ensures StripHashtags("#" + tag + t) == StripHashtags(t)
  {
    SliceOfThree("#", tag, t);
    TagBodyOfTag(tag, t);
  }

  lemma {:induction false} TagBodyOfTag(tag: string, t: string)
    requires forall i :: 0 <= i < |tag| ==> IsTagChar(tag[i])
    requires StartsCleanly(t)
    ensures TagBody(tag + t) == tag
    decreases |tag|
  {
    if tag == [] {
      AppendEmpty(t);
    } else {
      DropOfAppend(tag, t);
      TagBodyOfTag(tag[1..], t);
      ConsTail(tag, []);
    }
  }

  // ---------------------------------------------------------------- whitespace collapse after removal

  lemma NoHashtagSlice(s: string, a: nat, b: nat)
    requires NoHashtag(s) && a <= b <= |s|
    requires b == |s| || !IsTagChar(s[b]) || (b > 0 && s[b - 1] != '#')
    ensures NoHashtag(s[a..b])
  {
    var r := s[a..b];
    forall i | 0 <= i < |r| && r[i] == '#' ensures i + 1 == |r| || !IsTagChar(r[i + 1]) {
      assert r[i] == s[a + i];
      if i + 1 < |r| { assert r[i + 1] == s[a + i + 1]; }
    }
  }

  /** Whitespace collapse turns whitespace into spaces and keeps every other
      character, so it cannot create a hashtag. */
  lemma {:induction false} CollapseKeepsNoHashtag(s: string)
    requires NoHashtag(s)
    ensures NoHashtag(CollapseWhitespace(s))
    decreases |s|
  {
    if s != [] {
      if IsWhitespace(s[0]) {
        var rest := TrimStart(s);
        NoHashtagSlice(s, |s| - |rest|, |s|);
        assert s[|s| - |rest|..] == rest;
        CollapseKeepsNoHashtag(rest);
        ConsKeepsNoHashtag(' ', CollapseWhitespace(rest));
      } else {
        var t := s[1..];
        NoHashtagSlice(s, 1, |s|);
        CollapseKeepsNoHashtag(t);
        if s[0] == '#' && |t| > 0 {
          assert t[0] == s[1] && !IsTagChar(s[1]);
        }
        ConsKeepsNoHashtag(s[0], CollapseWhitespace(t));
      }
    }
  }

  // ---------------------------------------------------------------- one item

  /** `item.contentSnippet || item.content || item.description || ''`. */
  function CaptionSource(item: FeedItem): (s: string)
    ensures Truthy(item.contentSnippet) ==> s == item.contentSnippet.value
    ensures !Truthy(item.contentSnippet) && Truthy(item.content) ==> s == item.content.value
    ensures !Truthy(item.contentSnippet) && !Truthy(item.content) ==> s == OrElse(item.description, "")
  {
    OrElse(item.contentSnippet, OrElse(item.content, OrElse(item.description, "")))
  }

  /** The caption before truncation: cleaned, hashtags removed, whitespace
      collapsed and trimmed again. The second normalisation touches whitespace
      only: every other character left by hashtag removal survives, in order. */
  function CaptionText(raw: string): (c: string)
    ensures NoOuterWhitespace(c) && NoDoubleWhitespace(c) && SpacesOnly(c)
    ensures Squeeze(c) == Squeeze(StripHashtags(CleanHtml(raw)))
  {
    CollapseNormalises(StripHashtags(CleanHtml(raw)));
    TrimKeepsSqueeze(CollapseWhitespace(StripHashtags(CleanHtml(raw))));
    Trim(CollapseWhitespace(StripHashtags(CleanHtml(raw))))
  }

  /** No hashtag is left in the caption before truncation, and its whitespace is
      normalised. */
  lemma CaptionHasNoHashtag(raw: string)
    ensures NoHashtag(CaptionText(raw))
  {
    var stripped := StripHashtags(CleanHtml(raw));
    StripHashtagsLeavesNone(CleanHtml(raw));
    CollapseKeepsNoHashtag(stripped);
    TrimKeepsNoHashtag(CollapseWhitespace(stripped));
  }

  /** Trimming cuts the text only next to whitespace, so it cannot create a hashtag. */
  lemma TrimKeepsNoHashtag(s: string)
    requires NoHashtag(s)
    ensures NoHashtag(Trim(s))
  {
    var c := Trim(s);
    var i :| TrimmedAt(s, c, i);
    var b := i + |c|;
    if b < |s| {
      assert s[b] == s[b..][0];
    }
    NoHashtagSlice(s, i, b);
  }

  /** `truncateText(caption, 150) || NO_CONTENT`: the description is never empty. */
  function Caption(raw: string): (d: string)
    ensures d != "" && |d| <= CaptionLength + 3
    ensures CaptionText(raw) == "" ==> d == NoContent
    ensures CaptionText(raw) != "" ==> d == Truncate(CaptionText(raw), CaptionLength)
  {
    var t := Truncate(CaptionText(raw), CaptionLength);
    if t == "" then NoContent else t
  }

  /** The post for one feed item. */
  function FeedPost(item: FeedItem): (p: Post)
    ensures p.title == FeedLabel && p.description == Caption(CaptionSource(item)) && p.articleId.None?
    ensures p.link == OrElse(item.link, OrElse(item.guid, ""))
  {
    Post(FeedLabel, Caption(CaptionSource(item)), OrElse(item.link, OrElse(item.guid, "")), None)
  }

  // ---------------------------------------------------------------- the feed

  /** `fetchInstagramPosts`: no address, a failed fetch or parse, or no items
      give no posts; otherwise the first `PostsCount` items, in order. */
  function FetchInstagramPosts(feedUrl: string, feed: FeedResponse): (posts: seq<Post>)
    ensures |posts| <= PostsCount
    ensures feedUrl == "" || feed.Fail? || feed == Ok(None) || feed == Ok(Some([])) ==> posts == []
    ensures feedUrl != "" && feed.Ok? && feed.value.Some? ==>
              var items := feed.value.value;
              |posts| == (if |items| < PostsCount then |items| else PostsCount)
              && forall k :: 0 <= k < |posts| ==> posts[k] == FeedPost(items[k])
    ensures forall k :: 0 <= k < |posts| ==> Finalised(posts[k]) && posts[k].title == FeedLabel
  {
    if feedUrl == "" then []
    else match feed
      case Fail => []
      case Ok(None) => []
      case Ok(Some(items)) =>
        var kept := Take(items, PostsCount);
        FeedPostsAt(items, kept);
        Map(FeedPost, kept)
  }

  lemma FeedPostsAt(items: seq<FeedItem>, kept: seq<FeedItem>)
    requires kept == Take(items, PostsCount)
    ensures forall k :: 0 <= k < |kept| ==>
              var p := Map(FeedPost, kept)[k];
              p == FeedPost(items[k]) && Finalised(p) && p.title == FeedLabel
  {
    forall k | 0 <= k < |kept|
      ensures var p := Map(FeedPost, kept)[k];
              p == FeedPost(items[k]) && Finalised(p) && p.title == FeedLabel
    {
      MapAt(FeedPost, kept, k);
    }
  }

  // ---------------------------------------------------------------- the hashtag example

  /** A non-empty run of tag characters: no whitespace, no `#`. */
  predicate IsWord(w: string) {
    |w| > 0 && forall i :: 0 <= i < |w| ==> IsTagChar(w[i])
  }

  /** Non-empty and without whitespace. */
  predicate Unspaced(w: string) {
    |w| > 0 && forall i :: 0 <= i < |w| ==> !IsWhitespace(w[i])
  }

  /** `a#t1 #t2 b`, with hashtag-free `a` and `b` and a space before `b`, loses
      both hashtags but keeps the spaces around them. */
  lemma StripTwoTags(a: string, t1: string, t2: string, b: string, s: string)
    requires '#' !in a && '#' !in b && IsWord(t1) && IsWord(t2)
    requires |b| > 0 && b[0] == ' '
    requires s == a + ("#" + t1 + (" " + ("#" + t2 + b)))
    ensures StripHashtags(s) == a + " " + b
  {
    var z := "#" + t2 + b;
    var y := " " + z;
    StripHashtagsSkipsPrefix(a, "#" + t1 + y);
    StripHashtagsDropsTag(t1, y);
    StripHashtagsSkipsPrefix(" ", z);
    StripHashtagsDropsTag(t2, b);
    StripHashtagsSkipsPrefix(b, []);
    assert b + [] == b;
    assert StripHashtags(s) == a + (" " + b);
    AppendAssoc(a, " ", b);
  }

  /** A word followed by a run of whitespace: the word stays, the run becomes one space. */
  lemma CollapseWordGap(w: string, gap: string, t: string)
    requires Unspaced(w) && |gap| > 0 && AllWhitespace(gap)
    requires |t| == 0 || !IsWhitespace(t[0])
    ensures CollapseWhitespace(w + (gap + t)) == w + (" " + CollapseWhitespace(t))
  {
    CollapseSkipsWord(w, gap + t);
    CollapseRun(gap, t);
  }

  lemma CollapseWord(w: string)
    requires Unspaced(w)
    ensures CollapseWhitespace(w) == w
  {
    CollapseSkipsWord(w, []);
    assert w + [] == w;
  }

  /** Two words separated by a single space are already clean text, when the
      second one is. */
  lemma WordsArePlain(w1: string, w2: string, s: string)
    requires Unspaced(w1) && '<' !in w1 && '&' !in w1
    requires '<' !in w2 && '&' !in w2 && NoOuterWhitespace(w2) && NoDoubleWhitespace(w2) && SpacesOnly(w2)
    requires |w2| > 0
    requires s == w1 + " " + w2
    ensures '<' !in s && '&' !in s && NoOuterWhitespace(s) && NoDoubleWhitespace(s) && SpacesOnly(s)
  {
    assert forall i :: 0 <= i < |w1| ==> s[i] == w1[i];
    assert forall i :: 0 <= i < |w2| ==> s[|w1| + 1 + i] == w2[i];
    assert s[|s| - 1] == w2[|w2| - 1];
    forall i | 0 < i < |s| ensures !(IsWhitespace(s[i - 1]) && IsWhitespace(s[i])) {
      if i > |w1| + 1 {
        assert s[i - 1] == w2[i - 1 - |w1| - 1];
      }
    }
  }

  lemma WordIsPlain(w: string)
    requires Unspaced(w)
    ensures NoOuterWhitespace(w) && NoDoubleWhitespace(w) && SpacesOnly(w)
  {
  }

  /** `w1 w2 #t1 #t2 w3`: five plain words, the middle two hashtags. */
  predicate TwoTagCaption(w1: string, w2: string, t1: string, t2: string, w3: string, raw: string) {
    && IsWord(w1) && IsWord(w2) && IsWord(t1) && IsWord(t2) && IsWord(w3)
    && '<' !in w1 + w2 + t1 + t2 + w3 && '&' !in w1 + w2 + t1 + t2 + w3
    && raw == w1 + " " + (w2 + " " + ("#" + t1 + " " + ("#" + t2 + " " + w3)))
  }

  lemma TwoTagCaptionIsPlain(w1: string, w2: string, t1: string, t2: string, w3: string, raw: string)
    requires TwoTagCaption(w1, w2, t1, t2, w3, raw)
    ensures CleanHtml(raw) == raw
  {
    var tag1, tag2 := "#" + t1, "#" + t2;
    assert Unspaced(tag1) && Unspaced(tag2) by {
      assert forall i :: 0 < i < |tag1| ==> tag1[i] == t1[i - 1];
      assert forall i :: 0 < i < |tag2| ==> tag2[i] == t2[i - 1];
    }
    WordIsPlain(w3);
    WordsArePlain(tag2, w3, tag2 + " " + w3);
    WordsArePlain(tag1, tag2 + " " + w3, tag1 + " " + (tag2 + " " + w3));
    WordsArePlain(w2, tag1 + " " + (tag2 + " " + w3), w2 + " " + (tag1 + " " + (tag2 + " " + w3)));
    WordsArePlain(w1, w2 + " " + (tag1 + " " + (tag2 + " " + w3)), raw);
    CleanHtmlKeepsPlainText(raw);
  }

  lemma TwoTagCaptionStrip(w1: string, w2: string, t1: string, t2: string, w3: string, raw: string)
    requires TwoTagCaption(w1, w2, t1, t2, w3, raw)
    ensures StripHashtags(raw) == w1 + (" " + (w2 + ("   " + w3)))
  {
    var a := w1 + " " + w2 + " ";
    var b := " " + w3;
    assert '#' !in a && '#' !in b by {
      assert forall i :: 0 <= i < |w1| ==> a[i] == w1[i];
      assert forall i :: 0 <= i < |w2| ==> a[|w1| + 1 + i] == w2[i];
      assert forall i :: 0 < i < |b| ==> b[i] == w3[i - 1];
    }
    assert raw == a + ("#" + t1 + (" " + ("#" + t2 + b)));
    StripTwoTags(a, t1, t2, b, raw);
    assert a + " " + b == w1 + (" " + (w2 + ("   " + w3)));
  }

  lemma TwoTagCaptionCollapse(w1: string, w2: string, w3: string)
    requires IsWord(w1) && IsWord(w2) && IsWord(w3)
    ensures CollapseWhitespace(w1 + (" " + (w2 + ("   " + w3)))) == w1 + (" " + (w2 + (" " + w3)))
  {
    WordIsUnspaced(w1);
    WordIsUnspaced(w2);
    WordIsUnspaced(w3);
    SpaceRuns();
    DropOfAppend(w2, "   " + w3);
    CollapseWord(w3);
    CollapseWordGap(w2, "   ", w3);
    CollapseWordGap(w1, " ", w2 + ("   " + w3));
  }

  lemma WordIsUnspaced(w: string)
    requires IsWord(w)
    ensures Unspaced(w) && !IsWhitespace(w[0])
  {
  }

  lemma SpaceRuns()
    ensures AllWhitespace(" ") && AllWhitespace("   ")
  {
  }

  lemma RegroupWords(w1: string, w2: string, w3: string)
    ensures w1 + (" " + (w2 + (" " + w3))) == w1 + " " + w2 + " " + w3
  {
  }

  /** The two hashtags go, and the three spaces left between `w2` and `w3`
      collapse into one. */
  lemma TwoTagCaptionText(w1: string, w2: string, t1: string, t2: string, w3: string, raw: string)
    requires TwoTagCaption(w1, w2, t1, t2, w3, raw)
    ensures CaptionText(raw) == w1 + " " + w2 + " " + w3
  {
    TwoTagCaptionIsPlain(w1, w2, t1, t2, w3, raw);
    TwoTagCaptionStrip(w1, w2, t1, t2, w3, raw);
    TwoTagCaptionCollapse(w1, w2, w3);
    RegroupWords(w1, w2, w3);
    var c := w1 + " " + w2 + " " + w3;
    assert c[0] == w1[0] && c[|c| - 1] == w3[|w3| - 1];
    TrimKeepsTrimmedText(c);
  }

  /** `"Great day #fun #sunny today"` loses both hashtags, and the spaces around
      them are collapsed into one: the caption is `"Great day today"`. The words
      are parameters so that the caption is derived through the lemmas above. */
  lemma HashtagExample(great: string, day: string, fun: string, sunny: string, today: string, raw: string)
    requires great == "Great" && day == "day" && fun == "fun" && sunny == "sunny" && today == "today"
    requires raw == great + " " + (day + " " + ("#" + fun + " " + ("#" + sunny + " " + today)))
    ensures raw == "Great day #fun #sunny today"
    ensures CaptionText(raw) == "Great day today"
    ensures Caption(raw) == "Great day today"
  {
    ExampleSpelling(great, day, fun, sunny, today, raw);
    ExampleWords(great, day, fun, sunny, today, raw);
    TwoTagCaptionText(great, day, fun, sunny, today, raw);
  }

  lemma ExampleWords(great: string, day: string, fun: string, sunny: string, today: string, raw: string)
    requires great == "Great" && day == "day" && fun == "fun" && sunny == "sunny" && today == "today"
    requires raw == great + " " + (day + " " + ("#" + fun + " " + ("#" + sunny + " " + today)))
    ensures TwoTagCaption(great, day, fun, sunny, today, raw)
  {
  }

  lemma ExampleSpelling(great: string, day: string, fun: string, sunny: string, today: string, raw: string)
    requires great == "Great" && day == "day" && fun == "fun" && sunny == "sunny" && today == "today"
    requires raw == great + " " + (day + " " + ("#" + fun + " " + ("#" + sunny + " " + today)))
    ensures raw == "Great day #fun #sunny today"
    ensures great + " " + day + " " + today == "Great day today"
  {
  }
}
