/** The chat-message renderer (`formatPostList`, `formatNewsMessage`). Its
    partner is `Lines`, which reads a rendered message back line by line: every
    post comes back as exactly four lines, and each section as its header, a
    blank line and either its posts or its placeholder. */
module Format {
  import opened Strings
  import opened Outcomes
  import opened Posts

  const CafeHeader: string := "📌 링커스 카페 최신 글"
  const FeedHeader: string := "📸 인스타그램 최신 게시물"
  const NoCafePosts: string := "최신 글을 가져오지 못했습니다."
  const NoFeedPosts: string := "최신 게시물을 가져오지 못했습니다."
  const LinkMark: string := "🔗 "

  // ---------------------------------------------------------------- numbers

  function DigitChar(d: nat): (c: char)
    requires d < 10
    ensures IsDigit(c) && c as int - '0' as int == d
  {
    ('0' as int + d) as char
  }

  /** `${n}` for a natural number: its decimal digits, most significant first. */
  function Decimal(n: nat): (s: string)
    ensures |s| > 0 && AllDigits(s)
    ensures n > 0 ==> s[0] != '0'
    decreases n
  {
    if n < 10 then [DigitChar(n)] else Decimal(n / 10) + [DigitChar(n % 10)]
  }

  /** The value of a string of decimal digits. */
  function DigitsValue(s: string): nat
    requires AllDigits(s)
    decreases |s|
  {
    if s == [] then 0
    else DigitsValue(s[..|s| - 1]) * 10 + (s[|s| - 1] as int - '0' as int)
  }

  /** Reading the digits back gives the number. */
  lemma {:induction false} DecimalRoundTrip(n: nat)
    ensures DigitsValue(Decimal(n)) == n
    decreases n
  {
    if n >= 10 {
      DecimalRoundTrip(n / 10);
      var s := Decimal(n);
      assert s[..|s| - 1] == Decimal(n / 10);
    }
  }

  /** Conversely, every canonical digit string (no leading zero unless it is
      `0` itself) is the rendering of its value. */
  lemma {:induction false} DecimalCanonical(s: string)
    requires |s| > 0 && AllDigits(s) && (s[0] == '0' ==> |s| == 1)
    ensures Decimal(DigitsValue(s)) == s
    decreases |s|
  {
    var init := s[..|s| - 1];
    var last := s[|s| - 1] as int - '0' as int;
    if |s| == 1 {
      assert init == [];
      assert [DigitChar(last)] == s;
    } else {
      assert init[0] == s[0];
      DecimalCanonical(init);
      LeadingDigitIsPositive(init);
      var v := DigitsValue(s);
      assert v / 10 == DigitsValue(init) && v % 10 == last;
      assert init + [s[|s| - 1]] == s;
    }
  }

  lemma LeadingDigitIsPositive(s: string)
    requires |s| > 0 && AllDigits(s) && s[0] != '0'
    ensures DigitsValue(s) > 0
    decreases |s|
  {
    if |s| > 1 {
      var init := s[..|s| - 1];
      assert init[0] == s[0];
      LeadingDigitIsPositive(init);
    }
  }

  // ---------------------------------------------------------------- rendering

  /** The first line of an entry: `{i+1}. {title}`. */
  function Heading(index: nat, p: Post): string {
    Decimal(index + 1) + ". " + p.title
  }

  /** The `map` callback at position `index`. */
  function Entry(index: nat, p: Post): string {
    Heading(index, p) + "\n" + p.description + "\n" + LinkMark + p.link + "\n"
  }

  /** The entries of `posts`, numbered from position `from`. */
  function Numbered(posts: seq<Post>, from: nat): (es: seq<string>)
    ensures |es| == |posts|
    decreases |posts|
  {
    if posts == [] then [] else [Entry(from, posts[0])] + Numbered(posts[1..], from + 1)
  }

  /** `formatPostList` */
  function FormatPostList(posts: seq<Post>): string {
    Join(Numbered(posts, 0), "\n")
  }

  /** A section's body: its posts, or its placeholder line when there are none. */
  function Section(posts: seq<Post>, none: string): string {
    if |posts| > 0 then FormatPostList(posts) else none + "\n"
  }

  /** `formatNewsMessage`: four sections joined by a newline. */
  function FormatNewsMessage(cafePosts: seq<Post>, feedPosts: seq<Post>): string {
    Join([CafeHeader + "\n", Section(cafePosts, NoCafePosts),
          FeedHeader + "\n", Section(feedPosts, NoFeedPosts)], "\n")
  }

  // ---------------------------------------------------------------- reading back

  /** `s.split('\n')`: the lines of `s`; a trailing newline leaves a last, empty line. */
  function Lines(s: string): (ls: seq<string>)
    ensures |ls| >= 1
    decreases |s|
  {
    if s == [] then [[]]
    else if s[0] == '\n' then [[]] + Lines(s[1..])
    else
      var t := Lines(s[1..]);
      [[s[0]] + t[0]] + t[1..]
  }

  lemma {:induction false} LinesOfLine(s: string)
    requires '\n' !in s
    ensures Lines(s) == [s]
    decreases |s|
  {
    if s != [] {
      LinesOfLine(s[1..]);
      assert [s[0]] + s[1..] == s;
    }
  }

  /** A newline splits the text into the lines before it and the lines after it. */
  lemma {:induction false} LinesOfConcat(a: string, b: string)
    ensures Lines(a + "\n" + b) == Lines(a) + Lines(b)
    decreases |a|
  {
    var s := a + "\n" + b;
    if a == [] {
      assert s == "\n" + b && s[1..] == b;
    } else {
      assert s[0] == a[0] && s[1..] == a[1..] + "\n" + b;
      LinesOfConcat(a[1..], b);
      if a[0] != '\n' {
        var u := Lines(a[1..]);
        assert Lines(s[1..]) == u + Lines(b);
        assert (u + Lines(b))[0] == u[0] && (u + Lines(b))[1..] == u[1..] + Lines(b);
      }
    }
  }

  /** The first line is where the text starts. */
  lemma {:induction false} FirstLineIsPrefix(s: string)
    ensures |Lines(s)[0]| <= |s| && Lines(s)[0] == s[..|Lines(s)[0]|]
    decreases |s|
  {
    if s != [] && s[0] != '\n' {
      FirstLineIsPrefix(s[1..]);
    }
  }

  /** The lines of a newline-joined list are the lines of its parts, in order. */
  function AllLines(parts: seq<string>): seq<string>
    decreases |parts|
  {
    if parts == [] then [] else Lines(parts[0]) + AllLines(parts[1..])
  }

  lemma {:induction false} LinesOfJoin(parts: seq<string>)
    requires |parts| > 0
    ensures Lines(Join(parts, "\n")) == AllLines(parts)
    decreases |parts|
  {
    if |parts| == 1 {
      assert AllLines(parts) == Lines(parts[0]) + AllLines([]);
    } else {
      LinesOfJoin(parts[1..]);
      LinesOfConcat(parts[0], Join(parts[1..], "\n"));
    }
  }

  /** No field of the post contains a newline (true of every cleaned title and
      description; links are taken as they come). */
  predicate SingleLine(p: Post) {
    '\n' !in p.title && '\n' !in p.description && '\n' !in p.link
  }

  /** What one post reads back as. */
  function EntryLines(index: nat, p: Post): seq<string> {
    [Heading(index, p), p.description, LinkMark + p.link, ""]
  }

  /** What a list of posts reads back as, numbered from `from`. */
  function ListLines(posts: seq<Post>, from: nat): (ls: seq<string>)
    ensures |ls| == 4 * |posts|
    decreases |posts|
  {
    if posts == [] then [] else EntryLines(from, posts[0]) + ListLines(posts[1..], from + 1)
  }

  lemma DecimalIsOneLine(n: nat)
    ensures '\n' !in Decimal(n)
  {
  }

  /** One entry reads back as its heading, its description, its link line and a
      blank line. */
  lemma EntryReadsBack(index: nat, p: Post)
    requires SingleLine(p)
    ensures Lines(Entry(index, p)) == EntryLines(index, p)
  {
    var h, d, l := Heading(index, p), p.description, LinkMark + p.link;
    DecimalIsOneLine(index + 1);
    assert '\n' !in h by {
      assert h == Decimal(index + 1) + (". " + p.title);
    }
    assert '\n' !in l by {
      assert l == "🔗 " + p.link;
    }
    assert Entry(index, p) == h + "\n" + (d + "\n" + (l + "\n" + ""));
    LinesOfConcat(l, "");
    LinesOfConcat(d, l + "\n" + "");
    LinesOfConcat(h, d + "\n" + (l + "\n" + ""));
    LinesOfLine(h);
    LinesOfLine(d);
    LinesOfLine(l);
  }

  lemma {:induction false} NumberedReadsBack(posts: seq<Post>, from: nat)
    requires |posts| > 0
    requires forall k :: 0 <= k < |posts| ==> SingleLine(posts[k])
    ensures Lines(Join(Numbered(posts, from), "\n")) == ListLines(posts, from)
    decreases |posts|
  {
    EntryReadsBack(from, posts[0]);
    var es := Numbered(posts, from);
    if |posts| == 1 {
      assert ListLines(posts, from) == EntryLines(from, posts[0]) + ListLines([], from + 1);
    } else {
      assert es[1..] == Numbered(posts[1..], from + 1);
      NumberedReadsBack(posts[1..], from + 1);
      LinesOfConcat(es[0], Join(es[1..], "\n"));
    }
  }

  /** Every post of a rendered list comes back: post `k` is lines `4k` to `4k+3`. */
  lemma {:induction false} ListLinesAt(posts: seq<Post>, from: nat, k: nat)
    requires k < |posts|
    ensures var ls := ListLines(posts, from);
            && ls[4 * k] == Heading(from + k, posts[k])
            && ls[4 * k + 1] == posts[k].description
            && ls[4 * k + 2] == LinkMark + posts[k].link
            && ls[4 * k + 3] == ""
    decreases k
  {
    var rest := ListLines(posts[1..], from + 1);
    var head := EntryLines(from, posts[0]);
    assert ListLines(posts, from) == head + rest;
    if k > 0 {
      ListLinesAt(posts[1..], from + 1, k - 1);
      assert posts[1..][k - 1] == posts[k];
      WindowAfterEntry(head, rest, 4 * (k - 1));
    }
  }

  /** Four consecutive lines after a four-line entry. */
  lemma WindowAfterEntry(head: seq<string>, rest: seq<string>, i: nat)
    requires |head| == 4 && i + 3 < |rest|
    ensures (head + rest)[i + 4] == rest[i] && (head + rest)[i + 5] == rest[i + 1]
    ensures (head + rest)[i + 6] == rest[i + 2] && (head + rest)[i + 7] == rest[i + 3]
  {
  }

  /** A section reads back as its posts, or as its placeholder and a blank line. */
  function SectionLines(posts: seq<Post>, none: string): seq<string> {
    if |posts| > 0 then ListLines(posts, 0) else [none, ""]
  }

  lemma SectionReadsBack(posts: seq<Post>, none: string)
    requires '\n' !in none
    requires forall k :: 0 <= k < |posts| ==> SingleLine(posts[k])
    ensures Lines(Section(posts, none)) == SectionLines(posts, none)
  {
    if |posts| > 0 {
      NumberedReadsBack(posts, 0);
    } else {
      assert none + "\n" == none + "\n" + "";
      LinesOfConcat(none, "");
      LinesOfLine(none);
    }
  }

  lemma HeaderReadsBack(h: string)
    requires '\n' !in h
    ensures Lines(h + "\n") == [h, ""]
  {
    assert h + "\n" == h + "\n" + "";
    LinesOfConcat(h, "");
    LinesOfLine(h);
  }

  /** The whole message reads back as: the forum header and a blank line, the
      forum section, the feed header and a blank line, the feed section. */
  lemma MessageReadsBack(cafePosts: seq<Post>, feedPosts: seq<Post>)
    requires forall k :: 0 <= k < |cafePosts| ==> SingleLine(cafePosts[k])
    requires forall k :: 0 <= k < |feedPosts| ==> SingleLine(feedPosts[k])
    ensures Lines(FormatNewsMessage(cafePosts, feedPosts))
            == [CafeHeader, ""] + (SectionLines(cafePosts, NoCafePosts)
               + ([FeedHeader, ""] + SectionLines(feedPosts, NoFeedPosts)))
  {
    var parts := [CafeHeader + "\n", Section(cafePosts, NoCafePosts),
                  FeedHeader + "\n", Section(feedPosts, NoFeedPosts)];
    ConstantsAreOneLine();
    LinesOfJoin(parts);
    AllLinesOfFour(parts[0], parts[1], parts[2], parts[3]);
    HeaderReadsBack(CafeHeader);
    HeaderReadsBack(FeedHeader);
    SectionReadsBack(cafePosts, NoCafePosts);
    SectionReadsBack(feedPosts, NoFeedPosts);
  }

  lemma AllLinesOfFour(a: string, b: string, c: string, d: string)
    ensures AllLines([a, b, c, d]) == Lines(a) + (Lines(b) + (Lines(c) + Lines(d)))
  {
    AllLinesCons(a, [b, c, d]);
    AllLinesCons(b, [c, d]);
    AllLinesCons(c, [d]);
    AllLinesCons(d, []);
    assert [a] + [b, c, d] == [a, b, c, d] && [b] + [c, d] == [b, c, d] && [c] + [d] == [c, d] && [d] + [] == [d];
    assert Lines(d) + AllLines([]) == Lines(d);
  }

  lemma AllLinesCons(x: string, rest: seq<string>)
    ensures AllLines([x] + rest) == Lines(x) + AllLines(rest)
  {
    assert ([x] + rest)[1..] == rest;
  }

  lemma JoinOfFour(a: string, b: string, c: string, d: string, sep: string)
    ensures Join([a, b, c, d], sep) == a + sep + (b + sep + (c + sep + d))
  {
    assert Join([c, d], sep) == c + sep + Join([d], sep) by {
      assert [c, d][1..] == [d];
    }
    assert Join([b, c, d], sep) == b + sep + Join([c, d], sep) by {
      assert [b, c, d][1..] == [c, d];
    }
    assert [a, b, c, d][1..] == [b, c, d];
  }

  /** Whatever the posts contain, the message opens with the forum header on
      a line of its own, followed by a blank line. */
  lemma MessageStartsWithHeader(cafePosts: seq<Post>, feedPosts: seq<Post>)
    ensures var ls := Lines(FormatNewsMessage(cafePosts, feedPosts));
            |ls| >= 2 && ls[0] == CafeHeader && ls[1] == ""
  {
    var parts := [CafeHeader + "\n", Section(cafePosts, NoCafePosts),
                  FeedHeader + "\n", Section(feedPosts, NoFeedPosts)];
    ConstantsAreOneLine();
    LinesOfJoin(parts);
    AllLinesOfFour(parts[0], parts[1], parts[2], parts[3]);
    HeaderReadsBack(CafeHeader);
    var rest := Lines(parts[1]) + (Lines(parts[2]) + Lines(parts[3]));
    assert ([CafeHeader, ""] + rest)[0] == CafeHeader && ([CafeHeader, ""] + rest)[1] == "";
  }

  lemma ConstantsAreOneLine()
    ensures '\n' !in CafeHeader && '\n' !in FeedHeader && '\n' !in NoCafePosts && '\n' !in NoFeedPosts
  {
  }

  /** Post `k` of the forum section is lines `4k+2` to `4k+4` of the message:
      its number and title, its description, its link. */
  lemma CafePostInMessage(cafePosts: seq<Post>, feedPosts: seq<Post>, k: nat)
    requires k < |cafePosts|
    requires forall j :: 0 <= j < |cafePosts| ==> SingleLine(cafePosts[j])
    requires forall j :: 0 <= j < |feedPosts| ==> SingleLine(feedPosts[j])
    ensures var ls := Lines(FormatNewsMessage(cafePosts, feedPosts));
            && 4 * k + 5 < |ls|
            && ls[4 * k + 2] == Decimal(k + 1) + ". " + cafePosts[k].title
            && ls[4 * k + 3] == cafePosts[k].description
            && ls[4 * k + 4] == LinkMark + cafePosts[k].link
  {
    MessageReadsBack(cafePosts, feedPosts);
    ListLinesAt(cafePosts, 0, k);
    WindowAfterHeader(Lines(FormatNewsMessage(cafePosts, feedPosts)), CafeHeader, ListLines(cafePosts, 0),
                      [FeedHeader, ""] + SectionLines(feedPosts, NoFeedPosts), 4 * k);
  }

  lemma WindowAfterHeader(ls: seq<string>, h: string, body: seq<string>, post: seq<string>, i: nat)
    requires ls == [h, ""] + (body + post) && i + 3 < |body| && |post| >= 2
    ensures i + 5 < |ls| && ls[i + 2] == body[i] && ls[i + 3] == body[i + 1] && ls[i + 4] == body[i + 2]
  {
    LinesAfterHeader(ls, h, body, post, i);
    LinesAfterHeader(ls, h, body, post, i + 1);
    LinesAfterHeader(ls, h, body, post, i + 2);
  }

  lemma LinesAfterHeader(ls: seq<string>, h: string, body: seq<string>, post: seq<string>, i: nat)
    requires ls == [h, ""] + (body + post) && i < |body|
    ensures i + 2 < |ls| && ls[i + 2] == body[i]
  {
  }

  /** Rendering ignores the article id: posts that differ only there render alike. */
  lemma RenderIgnoresArticleId(posts: seq<Post>, others: seq<Post>, from: nat)
    requires |posts| == |others|
    requires forall k :: 0 <= k < |posts| ==> posts[k].(articleId := None) == others[k].(articleId := None)
    ensures Numbered(posts, from) == Numbered(others, from)
    decreases |posts|
  {
    if posts != [] {
      assert posts[0].title == others[0].title && posts[0].description == others[0].description
             && posts[0].link == others[0].link;
      RenderIgnoresArticleId(posts[1..], others[1..], from + 1);
    }
  }

  /** Adding a post at the end appends one entry, numbered after the others. */
  lemma {:induction false} FormatPostListSnoc(posts: seq<Post>, p: Post)
    requires |posts| > 0
    ensures FormatPostList(posts + [p]) == FormatPostList(posts) + "\n" + Entry(|posts|, p)
  {
    NumberedSnoc(posts, p, 0);
    JoinSnoc(Numbered(posts, 0), Entry(|posts|, p));
  }

  lemma {:induction false} NumberedSnoc(posts: seq<Post>, p: Post, from: nat)
    ensures Numbered(posts + [p], from) == Numbered(posts, from) + [Entry(from + |posts|, p)]
    decreases |posts|
  {
    if posts == [] {
      assert Numbered([p], from) == [Entry(from, p)] + Numbered([], from + 1);
    } else {
      assert (posts + [p])[0] == posts[0] && (posts + [p])[1..] == posts[1..] + [p];
      NumberedSnoc(posts[1..], p, from + 1);
    }
  }

  lemma {:induction false} JoinSnoc(parts: seq<string>, x: string)
    requires |parts| > 0
    ensures Join(parts + [x], "\n") == Join(parts, "\n") + "\n" + x
    decreases |parts|
  {
    var s := parts + [x];
    assert s[0] == parts[0] && s[1..] == parts[1..] + [x];
    if |parts| == 1 {
      assert s[1..] == [x];
    } else {
      JoinSnoc(parts[1..], x);
    }
  }

  /** With nothing to show, the message is both headers and both placeholders,
      each header followed by a blank line. */
  lemma EmptyMessage()
    ensures FormatNewsMessage([], [])
            == CafeHeader + "\n\n" + NoCafePosts + "\n\n" + FeedHeader + "\n\n" + NoFeedPosts + "\n"
  {
    var a, b, c, d := CafeHeader, NoCafePosts, FeedHeader, NoFeedPosts;
    assert Section([], b) == b + "\n" && Section([], d) == d + "\n";
    JoinOfFour(a + "\n", b + "\n", c + "\n", d + "\n", "\n");
    Regroup(a, b, c, d);
  }

  lemma Regroup(a: string, b: string, c: string, d: string)
    ensures a + "\n" + "\n" + (b + "\n" + "\n" + (c + "\n" + "\n" + (d + "\n")))
            == a + "\n\n" + b + "\n\n" + c + "\n\n" + d + "\n"
  {
    assert "\n" + "\n" == "\n\n";
  }
}
