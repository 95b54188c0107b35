/** The shapes that flow through the pipeline and the skill's fixed constants. */
module Posts {
  import opened Outcomes

  /** The common post shape. `articleId` exists only on forum posts between the
      scrape and the enrichment; `None` means the property was deleted. */
  datatype Post = Post(title: string, description: string, link: string, articleId: Option<string>)

  /** One entry of the search API's `items` array. Each field may be absent. */
  datatype ApiItem = ApiItem(title: Option<string>, link: Option<string>, description: Option<string>)

  /** What a search API request settled to: rejected, or resolved with a body
      whose `items` field may be absent. */
  type ApiResponse = Outcome<Option<seq<ApiItem>>>

  /** One entry of the parsed syndication feed. */
  datatype FeedItem = FeedItem(
    contentSnippet: Option<string>,
    content: Option<string>,
    description: Option<string>,
    link: Option<string>,
    guid: Option<string>)

  const ClubId: string := "28434924"
  const CafeUrl: string := "cafe.naver.com/linkus16"
  const PostsCount: nat := 3
  const DescriptionLength: nat := 100
  const CaptionLength: nat := 150

  const NoPreview: string := "링크를 클릭해서 전체 내용을 확인하세요 📖"
  const NoContent: string := "내용 없음"
  const ErrorMessage: string := "최신 소식을 가져오는 중 오류가 발생했습니다.\n잠시 후 다시 시도해 주세요."
  const Loading: string := "최신 소식을 가져오고 있어요... 잠시만 기다려주세요! 📰"

  /** JavaScript truthiness of an optional string: present and not empty. */
  predicate Truthy(o: Option<string>) {
    o.Some? && o.value != ""
  }

  /** `a || b` on optional strings, with `b` already a string. */
  function OrElse(a: Option<string>, b: string): (r: string)
    ensures Truthy(a) ==> r == a.value
    ensures !Truthy(a) ==> r == b
  {
    if Truthy(a) then a.value else b
  }

  /** A post ready for output: no transient id, and a description to show. */
  predicate Finalised(p: Post) {
    p.articleId.None? && p.description != ""
  }
}
