/** The chatbot skill endpoint (`POST /linkus-news`): the response envelopes,
    the news aggregation, and the two delivery modes. In the synchronous mode
    the HTTP reply carries the news; in the callback mode the reply is an
    acknowledgement and the news goes out in one or two callback requests.
    Every request the handler depends on is an input outcome of `World`. */
module Dispatch {
  import opened Outcomes
  import opened Posts
  import opened Scrape
  import opened ApiFallback
  import opened Cafe
  import opened Feed
  import opened Format

  const Version: string := "2.0"

  /** One `outputs` entry: `{ simpleText: { text } }`. */
  datatype Output = SimpleText(text: string)

  /** The two JSON envelopes the skill sends. */
  datatype Envelope =
    | Template(version: string, outputs: seq<Output>)
    | CallbackAck(version: string, useCallback: bool, text: string)

  /** The text a chat client shows for an envelope: the single simple text of a
      template, or nothing. */
  function MessageOf(e: Envelope): Option<string> {
    if e.Template? && |e.outputs| == 1 then Some(e.outputs[0].text) else None
  }

  /** `createKakaoResponse`: a version-2.0 template with one simple text. */
  function CreateKakaoResponse(message: string): (e: Envelope)
    ensures e.Template? && e.version == Version
    ensures MessageOf(e) == Some(message)
  {
    Template(Version, [SimpleText(message)])
  }

  /** The immediate reply in the callback mode. */
  function Acknowledgement(): (e: Envelope)
    ensures e.version == Version && MessageOf(e).None?
  {
    CallbackAck(Version, true, Loading)
  }

  // ---------------------------------------------------------------- aggregation

  /** What the outside world delivers to one run of the handler: the forum page,
      the enrichment search, the first and second fallback searches, the feed
      address and the feed, and whether the first callback request succeeded. */
  datatype World = World(
    page: Outcome<seq<Candidate>>,
    search: ApiResponse,
    fallback: ApiResponse,
    retry: ApiResponse,
    feedUrl: string,
    feed: FeedResponse,
    firstDelivery: Outcome<()>)

  function CafeOf(w: World): CafeRun {
    FetchCafePosts(w.page, w.search, w.fallback, w.retry)
  }

  /** `getFormattedNews`: both sources are awaited together; the feed never
      rejects, so the aggregate rejects exactly when the forum does. */
  function GetFormattedNews(w: World): (r: Outcome<string>)
    ensures r.Fail? <==> CafeOf(w).result.Fail?
    ensures r.Ok? ==> r.value == FormatNewsMessage(CafeOf(w).result.value, FetchInstagramPosts(w.feedUrl, w.feed))
  {
    match CafeOf(w).result
    case Fail => Fail
    case Ok(cafePosts) => Ok(FormatNewsMessage(cafePosts, FetchInstagramPosts(w.feedUrl, w.feed)))
  }

  /** The aggregate rejects only when the forum's last fallback search
      rejected: either the page request failed and the one fallback from the
      `catch` block failed too, or the scrape found nothing and both fallback
      searches failed. Its message always opens with the forum header. */
  lemma NewsFailsOnlyWhenFallbackFails(w: World)
    ensures GetFormattedNews(w).Fail? <==>
              || (w.page.Fail? && FromApi(w.fallback).Fail?)
              || (w.page.Ok? && |Select(w.page.value)| == 0 && FromApi(w.fallback).Fail? && FromApi(w.retry).Fail?)
    ensures GetFormattedNews(w).Fail? ==> CafeOf(w).fallbackCalls >= 1
    ensures GetFormattedNews(w).Ok? ==>
              var ls := Lines(GetFormattedNews(w).value);
              |ls| >= 2 && ls[0] == CafeHeader && ls[1] == ""
  {
    if GetFormattedNews(w).Ok? {
      MessageStartsWithHeader(CafeOf(w).result.value, FetchInstagramPosts(w.feedUrl, w.feed));
    }
  }

  // ---------------------------------------------------------------- delivery

  /** A callback request: its address and its body. */
  datatype Delivery = Delivery(url: string, body: Envelope)

  /** `sendCallbackResponse`: one request, whose failure is rethrown. */
  datatype Sent = Sent(attempt: Delivery, outcome: Outcome<()>)

  function SendCallbackResponse(url: string, message: string, delivered: Outcome<()>): (s: Sent)
    ensures s.attempt.url == url && MessageOf(s.attempt.body) == Some(message)
    ensures s.outcome.Fail? <==> delivered.Fail?
  {
    Sent(Delivery(url, CreateKakaoResponse(message)), delivered)
  }

  /** The callback requests the detached task makes, in order. A rejected
      aggregation, or a rejected first request, leads to one request carrying
      the error text; a failure of that request is swallowed. */
  function CallbackDeliveries(url: string, news: Outcome<string>, firstDelivery: Outcome<()>): (ds: seq<Delivery>)
    ensures 1 <= |ds| <= 2
    ensures forall k :: 0 <= k < |ds| ==> ds[k].url == url
    ensures |ds| == 2 <==> news.Ok? && firstDelivery.Fail?
    ensures MessageOf(ds[0].body) == Some(if news.Ok? then news.value else ErrorMessage)
    ensures |ds| == 2 ==> MessageOf(ds[1].body) == Some(ErrorMessage)
  {
    match news
    case Fail => [SendCallbackResponse(url, ErrorMessage, firstDelivery).attempt]
    case Ok(message) =>
      var first := SendCallbackResponse(url, message, firstDelivery);
      if first.outcome.Ok? then [first.attempt]
      else [first.attempt, Delivery(url, CreateKakaoResponse(ErrorMessage))]
  }

  // ---------------------------------------------------------------- the handler

  /** The incoming request body, as far as the handler reads it. */
  datatype UserRequest = UserRequest(callbackUrl: Option<string>)
  datatype RequestBody = RequestBody(userRequest: Option<UserRequest>)

  /** `req.body?.userRequest?.callbackUrl || null`: an absent or empty address
      selects the synchronous mode. */
  function CallbackUrl(body: Option<RequestBody>): (url: Option<string>)
    ensures url.Some? <==> body.Some? && body.value.userRequest.Some?
                           && Truthy(body.value.userRequest.value.callbackUrl)
    ensures url.Some? ==> url == body.value.userRequest.value.callbackUrl
  {
    if body.Some? && body.value.userRequest.Some? && Truthy(body.value.userRequest.value.callbackUrl)
    then body.value.userRequest.value.callbackUrl
    else None
  }

  /** What one request produces: the HTTP reply and the callback requests sent
      after it. */
  datatype Exchange = Exchange(reply: Envelope, deliveries: seq<Delivery>)

  /** The `/linkus-news` handler. */
  function HandleLinkusNews(body: Option<RequestBody>, w: World): (x: Exchange)
    ensures CallbackUrl(body).None? ==> x.deliveries == [] && x.reply.Template?
    ensures CallbackUrl(body).Some? ==> x.reply == CallbackAck(Version, true, Loading)
                                        && 1 <= |x.deliveries| <= 2
  {
    var news := GetFormattedNews(w);
    match CallbackUrl(body)
    case None =>
      Exchange(CreateKakaoResponse(if news.Ok? then news.value else ErrorMessage), [])
    case Some(url) =>
      Exchange(Acknowledgement(), CallbackDeliveries(url, news, w.firstDelivery))
  }

  // ---------------------------------------------------------------- properties

  /** The synchronous mode answers in the reply itself: the news, or the error
      text when the aggregate rejects. */
  lemma SyncModeRepliesWithNews(body: Option<RequestBody>, w: World)
    requires CallbackUrl(body).None?
    ensures var x := HandleLinkusNews(body, w);
            && x.deliveries == []
            && x.reply.Template? && x.reply.version == Version
            && MessageOf(x.reply) == Some(if GetFormattedNews(w).Ok? then GetFormattedNews(w).value else ErrorMessage)
  {
  }

  /** The callback mode acknowledges with the loading text, then sends the news
      to the given address; exactly one request carries the news when both the
      aggregate and that request succeed, and the error text follows only when
      something failed. */
  lemma CallbackModeDelivers(body: Option<RequestBody>, w: World)
    requires CallbackUrl(body).Some?
    ensures var x := HandleLinkusNews(body, w);
            var news := GetFormattedNews(w);
            && x.reply.text == Loading && x.reply.useCallback
            && (forall k :: 0 <= k < |x.deliveries| ==> x.deliveries[k].url == CallbackUrl(body).value)
            && (news.Fail? ==> |x.deliveries| == 1 && MessageOf(x.deliveries[0].body) == Some(ErrorMessage))
            && (news.Ok? && w.firstDelivery.Ok? ==>
                  |x.deliveries| == 1 && MessageOf(x.deliveries[0].body) == Some(news.value))
            && (news.Ok? && w.firstDelivery.Fail? ==>
                  |x.deliveries| == 2 && MessageOf(x.deliveries[0].body) == Some(news.value)
                  && MessageOf(x.deliveries[1].body) == Some(ErrorMessage))
  {
  }

  /** The mode is decided by the address alone: callback requests are sent
      exactly when a non-empty address came with the request. */
  lemma ModeFollowsCallbackUrl(body: Option<RequestBody>, w: World)
    ensures var x := HandleLinkusNews(body, w);
            (|x.deliveries| > 0 <==> CallbackUrl(body).Some?)
            && (x.reply.CallbackAck? <==> CallbackUrl(body).Some?)
  {
  }

  /** The news can never be mistaken for the error text: the news opens with
      the forum header, the error text does not. */
  lemma NewsIsNotErrorText(w: World)
    ensures GetFormattedNews(w).Ok? ==> GetFormattedNews(w).value != ErrorMessage
  {
    if GetFormattedNews(w).Ok? {
      var m := GetFormattedNews(w).value;
      NewsFailsOnlyWhenFallbackFails(w);
      FirstLineIsPrefix(m);
      assert m[0] == CafeHeader[0];
    }
  }

  /** The error text reaches the user only when the forum's fallback search
      rejected or the first callback request failed. */
  lemma ErrorOnlyAfterFailure(body: Option<RequestBody>, w: World)
    ensures var x := HandleLinkusNews(body, w);
            (MessageOf(x.reply) == Some(ErrorMessage)
             || exists k :: 0 <= k < |x.deliveries| && MessageOf(x.deliveries[k].body) == Some(ErrorMessage))
            ==> FromApi(w.fallback).Fail? || w.firstDelivery.Fail?
  {
    NewsFailsOnlyWhenFallbackFails(w);
    NewsIsNotErrorText(w);
  }
}
