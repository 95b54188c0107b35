# Linkus news skill: a verified model of the aggregation and delivery logic

The Linkus news skill is a chatbot endpoint (`POST /linkus-news`) that answers
with the newest posts of the Linkus forum community and of its photo feed. It
works in four steps:

1. It scrapes the forum's listing page. When the scrape yields nothing or throws,
   it falls back to a search API.
2. It fills in each scraped post's description from the same search API,
   matching on the post's article id.
3. It reads the photo feed, turns captions into plain text and removes hashtags.
4. It renders both lists into one chat message and delivers it. The message goes
   out in the HTTP reply, or, when the request carries a callback address, in one
   or two out-of-band callback requests after an immediate acknowledgement.

This project models that logic in Dafny as pure functions over immutable data.
Every network request, decode and parse is an input: an `Outcome` that is either
`Ok(value)` or `Fail`. The model proves what each step promises.

The modules follow the program's structure:

| module | models |
|---|---|
| `Outcomes` | settled requests and absent JSON fields |
| `Strings` | the JavaScript string and array built-ins the code relies on |
| `Sanitize` | `cleanHtml` and `truncateText` |
| `Posts` | the post shapes and the skill's constants |
| `Scrape` | the candidate loop of `fetchCafePostsFromHtml` |
| `Enrich` | `enrichPostsWithDescription` |
| `ApiFallback` | `fetchCafePostsFromApi` |
| `Cafe` | `fetchCafePosts` |
| `Feed` | the caption mapping of `fetchInstagramPosts` |
| `Format` | `formatPostList` and `formatNewsMessage` |
| `Dispatch` | the response envelopes, `sendCallbackResponse`, `getFormattedNews` and the handler |

The renderer's partner is `Format.Lines`, which splits a message on newlines the
way `split('\n')` does. The read-back lemmas prove that every rendered post comes
back as exactly four lines: its numbered title, its description, its link line
and a blank line.

Some behaviour of the code is easy to miss. The model follows the code:

- **`fetchCafePosts` can reject.** A forum aggregator that returns an empty list
  at worst would be the natural expectation. But the fallback call in the
  `catch` block is not guarded. So a failed page request followed by a failed
  search rejects after one fallback call. An empty scrape followed by two failed
  searches rejects after two calls (`Cafe.EmptyScrapeCanReject`). The rejection
  reaches the handler, which then sends the error text
  (`Dispatch.NewsFailsOnlyWhenFallbackFails`).
- **Fallback titles are not truncated.** Only the fallback description is cut
  at 150 characters. The title is kept whole, however long
  (`ApiFallback.FallbackPostShape`).
- **Fallback descriptions can be shorter than 5 characters.** The 5-character
  floor, with its placeholder, applies only to enriched scraped posts. A search
  item whose cleaned description is `ab` gives a post with the description `ab`
  (`ApiFallback.ShortFallbackDescriptionKept`).
- **Descriptions can stay empty.** When the enrichment response has no `items`
  field, the scraped posts come back unchanged: empty descriptions, with their
  article ids still present (`Cafe.FetchedPostsFinalised`).
- **Matching is a substring test.** A post's id is matched against a link by
  `includes`, so the id `12` matches a link to `/123`
  (`Enrich.SubstringMatchAcceptsLongerId`).
- **`./` links stay relative.** Only `/`-rooted links and bare `ArticleRead.nhn`
  links are made absolute. A `./ArticleRead.nhn?…` link is kept as it is
  (`Scrape.DotRelativeLinkStaysRelative`).

## Model

| member | source | states |
|---|---|---|
| Outcomes.MapAll | index.js:174-194 | A `forEach` whose callback can throw fails exactly when some element's callback fails. Otherwise it yields, in order, one result per element. |
| Strings.Contains | index.js:142 | `includes` is true exactly when the substring occurs at some position. |
| Strings.Take | index.js:217 | `slice(0, n)` keeps the first `n` elements, or all of them when there are fewer, in order. |
| Strings.Filter | index.js:216 | `filter` keeps exactly the elements that pass the test and nothing else. |
| Strings.FilterConcat | index.js:216 | Filtering a concatenation is filtering each part and concatenating, so the kept elements stay in their original order. |
| Strings.FilterAt | index.js:216 | The `k`-th kept element is an element of the input that passes the test and has exactly `k` passing elements before it. |
| Sanitize.StripTags | index.js:53 | After tag removal, no `<` is followed by a `>`. Every remaining character comes from the input. |
| Sanitize.StripTagsKeepsTaglessText | index.js:53 | Text without `<` passes tag removal unchanged. |
| Sanitize.StripTagsSkipsPrefix | index.js:53 | Text before the first `<` is kept as it is, in front of what tag removal makes of the rest. |
| Sanitize.StripTagsDropsTag | index.js:53 | A `<` and everything up to the first `>` after it vanish, leaving only what tag removal makes of the rest. |
| Sanitize.StripTagsKeepsUnclosed | index.js:53 | Text without `>` holds no tag, so it is unchanged, `<` characters included. |
| Sanitize.ReplaceAll | index.js:54-57 | A global literal replace never lengthens text when the replacement is shorter. Text without a match is unchanged. |
| Sanitize.ReplaceAllIsSplitJoin | index.js:54-57 | A global literal replace equals splitting at the left-to-right matches and joining with the replacement. |
| Sanitize.SplitJoinRoundTrip | index.js:54-57 | Splitting at a pattern and joining with the same pattern gives back the text. |
| Sanitize.ReplaceAllWithItself | index.js:54-57 | Replacing a pattern by itself changes nothing. |
| Sanitize.AmpersandPassDecodesOnce | index.js:54 | The `&amp;` pass decodes one escaped ampersand and does not rescan what it produced. |
| Sanitize.DecodeOneAmpersand | index.js:54-57 | Decoding `a&amp;b`, where `b` starts with `a`, gives `a&b`: the later passes leave the new `&a` alone. |
| Sanitize.DecodeAmpersandOnce | index.js:54-57 | The entity passes turn `a &amp;amp; b` into `a &amp; b`: only one level of escaping goes. |
| Sanitize.LtPassAfterAmpersandPass | index.js:54-55 | The `&lt;` pass sees the `&amp;` pass's output, so `&amp;lt;…` decodes to `<…`. |
| Sanitize.DecodeInSequence | index.js:54-57 | The entity passes decode `&amp;lt;` all the way to `<`. |
| Sanitize.TrimStart | index.js:59 | The result is a suffix of the text, preceded only by whitespace, and starts with non-whitespace. It keeps every non-whitespace character. |
| Sanitize.TrimEnd | index.js:59 | The result is a prefix of the text, followed only by whitespace, and ends with non-whitespace. |
| Sanitize.Trim | index.js:59 | The result is the text minus its leading and trailing whitespace: a middle slice, with whitespace on both sides and none at its ends. It keeps single-space spacing. |
| Sanitize.TrimKeepsTrimmedText | index.js:59 | Text without outer whitespace is unchanged by `trim`. |
| Sanitize.TrimKeepsSqueeze | index.js:59 | `trim` removes whitespace only: every other character stays, in order. |
| Sanitize.CollapseWhitespace | index.js:58 | The collapse never lengthens text and empties only empty text. Leading whitespace becomes one space and any other first character stays. |
| Sanitize.CollapseNormalises | index.js:58 | After the collapse, every whitespace character is a single space with no neighbour of its kind. The non-whitespace characters are exactly those of the input, in order. |
| Sanitize.CollapseKeepsNormalText | index.js:58 | Text whose only whitespace is single spaces is unchanged by the collapse. |
| Sanitize.CollapseSkipsWord | index.js:58 | A whitespace-free prefix passes through the collapse unchanged. |
| Sanitize.CollapseRun | index.js:58 | A whole run of whitespace becomes exactly one space. |
| Sanitize.TrimStartRun | index.js:59 | Trimming the start removes exactly the leading whitespace run. |
| Sanitize.CleanHtmlNormalises | index.js:51-60 | The cleaned text is no longer than the input. It has no outer whitespace, no two whitespace characters in a row, and no whitespace other than spaces. Its non-whitespace characters are exactly those of the tag-stripped, decoded text, in order. |
| Sanitize.CleanHtmlKeepsPlainText | index.js:51-60 | Text without markup, ampersands or irregular whitespace is a fixpoint of `cleanHtml`. |
| Sanitize.NormaliseKeepsNormalText | index.js:58-59 | The collapse followed by trim leaves normalised text alone. |
| Sanitize.CleanHtmlDecodesAmpersandOnce | index.js:51-60 | `cleanHtml("a &amp;amp; b")` is `"a &amp; b"`. |
| Sanitize.CleanHtmlDecodesInSequence | index.js:51-60 | `cleanHtml("&amp;lt;")` is `"<"`. |
| Sanitize.CleanHtmlDecodesAfterStripping | index.js:51-60 | Tags are removed before entities are decoded, so `cleanHtml("&lt;b&gt;")` is the literal tag `"<b>"`. |
| Sanitize.DecodeEscapedTag | index.js:54-57 | The entity passes turn `&lt;b&gt;` into `<b>` for any `b` without `&`. |
| Sanitize.Truncate | index.js:65-70 | Text within the limit is returned unchanged. Longer text becomes its first `maxLength` characters plus `...`, so it has `maxLength + 3` characters. |
| Sanitize.TruncateIdempotent | index.js:65-70 | Truncating twice is truncating once. |
| Sanitize.TruncateFixpoint | index.js:65-70 | Truncation leaves text unchanged exactly when it fits, or when it already carries `...` at the cut position. |
| Scrape.LeadingDigits | index.js:134 | `\d+` takes the longest run of digits at the start. |
| Scrape.ExtractArticleIdMatches | index.js:134-137 | The id extraction finds nothing exactly when `articleid=<digit>` occurs nowhere. Otherwise it returns the greedy digit run of the leftmost match. |
| Scrape.ExtractedIdShape | index.js:134-137 | An extracted id is a non-empty digit string, and `articleid=<id>` occurs in the link. |
| Scrape.NormalisedLinkShape | index.js:146-152 | Normalisation only prepends: the original link is the tail of the result. A `/`-rooted or bare `ArticleRead.nhn` link becomes an absolute `https://cafe.naver.com/` link. Normalising again changes nothing. |
| Scrape.DotRelativeLinkStaysRelative | index.js:146-152 | A `./`-relative link is left relative: it does not become absolute. |
| Scrape.Select | index.js:126-127 | The scrape never yields more than three posts. |
| Scrape.DedupInOrder | index.js:126-144 | The posts are exactly the entries kept in the loop, in strictly increasing candidate position. |
| Scrape.DedupDistinct | index.js:140-144 | No two kept posts share an article id, and every kept id was seen. |
| Scrape.DedupPrefix | index.js:126-127 | Scanning more candidates only appends posts. |
| Scrape.RejectedIsInvisible | index.js:135-144 | A rejected candidate does not mark its id as seen. Removing it changes nothing about the posts, whatever follows it. |
| Scrape.DuplicateIsDropped | index.js:140-144 | A later candidate with an id already taken adds no post, even when it passes every other check. |
| Scrape.SelectedPosts | index.js:126-160 | Every post comes from a screened-in candidate, with the cleaned title, an empty description and the normalised link. No two posts share an id. |
| Scrape.SelectedIdsAreDigits | index.js:134-137 | Every post's id is a non-empty string of digits. |
| Scrape.Visit | index.js:129-159 | One pass of the loop body pushes a post exactly when the candidate is screened in with an id not yet seen, and then adds the id. Otherwise nothing changes. |
| Scrape.ScanCandidates | index.js:126-160 | The loop, with its seen-id set and its early exit at three posts, yields the first three kept posts. |
| Enrich.FindItemScansInOrder | index.js:175-178 | `find` fails exactly when it reaches a linkless item before any match. It returns the first matching item. It finds nothing exactly when every item has a link and none matches. |
| Enrich.SubstringMatchAcceptsLongerId | index.js:175-178 | The match is a substring test: a link to a longer id that extends this one after a `/` matches too. |
| Enrich.ChooseDescription | index.js:180-191 | The offered text wins when it has at least 10 characters. Otherwise the post's own text is kept. A result shorter than 5 characters becomes the placeholder, so the result always has at least 5 characters. |
| Enrich.EnrichPosts | index.js:168-205 | Enrichment keeps the count, titles and links. It returns the posts untouched when `items` is absent. Otherwise every post is finalised with a description of at least 5 characters. |
| Enrich.ErrorResetsWholeBatch | index.js:168-205 | A rejected request, or a throw while any post is looked up, gives every post the placeholder, including posts already enriched. Otherwise each post gets its own lookup's result. |
| Enrich.ScrapedPostDescription | index.js:173-194 | A scraped post ends with no id and either the placeholder or the description of the first matching item. That description is cleaned and truncated to 100 characters and has at least 10 characters. |
| ApiFallback.Kept | index.js:216-217 | The kept items are the first three community links of the response, or all of them when there are fewer, in response order. |
| ApiFallback.KeptAreFirstCommunityLinks | index.js:216-217 | The `k`-th kept item sits in the response behind exactly `k` community links. |
| ApiFallback.FromApi | index.js:210-226 | A rejected request propagates. Absent or empty `items` gives no posts. A linkless item fails the call. Otherwise the call fails exactly when a kept item lacks a title or a description, and else maps the kept items in order. |
| ApiFallback.FromApiSingle | index.js:214-223 | A response holding one community link with a title and a description gives exactly that item's post. |
| ApiFallback.ShortFallbackDescriptionKept | index.js:218-222 | A community link whose description cleans to `ab` gives a post described `ab`: no 5-character floor applies. |
| ApiFallback.FallbackPostShape | index.js:214-223 | Every fallback post links into the community and has no id. Its title is some item's cleaned title, uncut. Its description has 1 to 153 characters. |
| Cafe.FetchCafePosts | index.js:231-248 | The fallback runs at most twice. With no fallback call the result is the enriched scrape. With one call the result is the first fallback's outcome. Two calls happen exactly when the scrape is empty and the first fallback rejects, and then the second fallback's outcome is the result. |
| Cafe.FetchCafePostsBounded | index.js:231-248 | A successful run has at most three posts, and a scraped run at least one. |
| Cafe.EmptyScrapeCanReject | index.js:235-237 | An empty scrape whose two fallback searches both reject rejects after two fallback calls. |
| Cafe.FetchedPostsFinalised | index.js:231-248 | Every post of a successful run is finalised, except when the enrichment response has no `items`: then the posts keep their ids and empty descriptions. |
| Feed.TagBody | index.js:275 | `[^\s#]+` takes the longest run of tag characters at the start. |
| Feed.StripHashtagsLeavesNone | index.js:275 | After hashtag removal no `#` is followed by a tag character. |
| Feed.StripHashtagsSkipsPrefix | index.js:275 | Text without `#` passes hashtag removal unchanged. |
| Feed.StripHashtagsDropsTag | index.js:275 | A whole hashtag is removed. |
| Feed.CollapseKeepsNoHashtag | index.js:276 | The whitespace collapse cannot create a hashtag. |
| Feed.TrimKeepsNoHashtag | index.js:277 | Trimming cannot create a hashtag. |
| Feed.CaptionSource | index.js:271 | The caption comes from the first truthy of `contentSnippet`, `content` and `description`, else `''`. |
| Feed.CaptionText | index.js:271-277 | The caption before truncation has normalised whitespace. Its non-whitespace characters are exactly those left by hashtag removal, in order. |
| Feed.CaptionHasNoHashtag | index.js:271-277 | No hashtag is left in the caption. |
| Feed.Caption | index.js:280 | The description is never empty and has at most 153 characters. An empty caption becomes the no-content text; any other caption is truncated at 150. |
| Feed.FetchInstagramPosts | index.js:255-296 | No address, a failed fetch or parse, or no items give no posts. Otherwise the first three items map in order. Every feed post is finalised and carries the label. |
| Feed.TwoTagCaptionText | index.js:271-277 | Three words with two hashtags between the second and third become the three words separated by single spaces. |
| Feed.HashtagExample | index.js:271-280 | `"Great day #fun #sunny today"` becomes the description `"Great day today"`. |
| Format.Decimal | index.js:305 | `${n}` is a non-empty digit string, without a leading zero when `n` is positive. |
| Format.DecimalRoundTrip | index.js:305 | Reading the rendered number back gives the number. |
| Format.DecimalCanonical | index.js:305 | Every digit string without a leading zero is the rendering of its value. |
| Format.EntryReadsBack | index.js:305 | One entry reads back as `{i+1}. {title}`, the description, `🔗 {link}`, and a blank line. |
| Format.NumberedReadsBack | index.js:303-307 | A rendered list reads back as its entries' four lines each, in order. |
| Format.ListLinesAt | index.js:303-307 | Post `k` of a rendered list is lines `4k` to `4k+3`. |
| Format.SectionReadsBack | index.js:317-329 | A section reads back as its posts, or as its placeholder and a blank line when it has none. |
| Format.MessageReadsBack | index.js:312-332 | The message reads back as the forum header and a blank line, the forum section, the feed header and a blank line, then the feed section. |
| Format.MessageStartsWithHeader | index.js:312-332 | Whatever the posts contain, the message opens with the forum header on a line of its own, then a blank line. |
| Format.CafePostInMessage | index.js:312-332 | Forum post `k` is lines `4k+2` to `4k+4` of the message: its number and title, its description, its link. |
| Format.RenderIgnoresArticleId | index.js:303-307 | Posts that differ only in their article id render alike. |
| Format.FormatPostListSnoc | index.js:303-307 | Adding a post at the end appends one entry, numbered after the others, behind a newline. |
| Format.EmptyMessage | index.js:312-332 | With no posts at all, the message is the two headers, each followed by its placeholder line. |
| Dispatch.Acknowledgement | index.js:378-382 | The immediate callback-mode reply is version 2.0 and carries no message text. |
| Dispatch.NewsFailsOnlyWhenFallbackFails | index.js:355-364 | The aggregate rejects exactly when the page failed and its one fallback failed, or the scrape was empty and both fallbacks failed. A rejection follows at least one fallback call. A success opens with the forum header. |
| Dispatch.CallbackDeliveries | index.js:385-399 | One or two requests, all to the callback address. The first carries the news or, on failure, the error text. A second request, carrying the error text, goes out exactly when the news succeeded and the first request failed. |
| Dispatch.HandleLinkusNews | index.js:369-412 | Synchronous mode replies with a template and sends nothing. Callback mode replies with the loading acknowledgement and sends one or two requests. |
| Dispatch.SyncModeRepliesWithNews | index.js:404-411 | Synchronous mode sends no callback. It answers with a version-2.0 template whose one text is the news, or the error text when the aggregate rejects. |
| Dispatch.CallbackModeDelivers | index.js:376-401 | Callback mode acknowledges with the loading text. The error text alone goes out when the aggregate rejects. The news alone goes out when it and its request succeed. The news and then the error text go out when its request fails. |
| Dispatch.ModeFollowsCallbackUrl | index.js:370-376 | Callback requests are sent, and the reply is an acknowledgement, exactly in callback mode. |
| Dispatch.NewsIsNotErrorText | index.js:312-316 | The news can never be mistaken for the error text. |
| Dispatch.ErrorOnlyAfterFailure | index.js:369-412 | The error text reaches the user only when the forum's fallback search rejected or the first callback request failed. |

## Left out

- HTTP transport: every `axios` request, its headers and its 10-second timeout. Each settled request is an `Outcome` input (`World` in `Dispatch`).
- The EUC-KR decode, the markup parser and its `a[href*="ArticleRead.nhn"]` selector, and the feed parser. These are foreign libraries. The scrape receives the matched links' `href` (`''` when absent) and text as a sequence of candidates. The feed arrives as a sequence of items whose fields may be absent.
- The server: the Express app, `res.json`, the health check and `app.listen`.
- Configuration and logging. The feed address becomes the `feedUrl` input. The API credentials and browser headers are constant request decoration, and every `console` call is dropped.
- Concurrency. `Promise.all` is the pair of both results, since the feed never rejects. The detached callback task is the ordered list of requests it sends.
- The error objects: they are only logged, so `Fail` carries no payload.
- The outcome of the second callback request is not an input, since its failure is swallowed and changes nothing visible.
- `Sanitize.IsWhitespace` is written out as the character set of JavaScript's `\s`. No Unicode table is consulted beyond it.
- `Sanitize.Truncate`: lengths count characters, not UTF-16 code units. For text with characters outside the Basic Multilingual Plane, such as emoji, JavaScript cuts at a different place. The 10- and 5-character thresholds of `Enrich.ChooseDescription` count the same way.
- `Scrape.Acceptable`: the two-character floor on titles counts characters, not UTF-16 code units. A title that is a single character outside the Basic Multilingual Plane, such as one emoji, has `length` 2 in JavaScript and is accepted by the source, but the model rejects it.
- `Dispatch.CallbackUrl`: only string addresses are modelled. A truthy non-string value, such as a number or an object, would also select callback mode in the source.
- `Format.Lines` and the read-back lemmas require every title, description and link to be free of newlines (`Format.SingleLine`). Cleaned titles and descriptions are, but links are taken as they come.
