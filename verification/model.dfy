/** The wire and domain records of the Treehole API (src/model.ts). */
module Model {
  import opened Results

  /** Every API reply. Both variants carry `code`, `message` and `timestamp`;
      the `success: true` variant also carries the payload, the
      `success: false` variant carries none. */
  datatype ApiResponse<+T> =
    | DataOk(code: int, message: string, timestamp: int, data: T)
    | DataErr(code: int, message: string, timestamp: int)
  {
    /** The `success` discriminant. */
    predicate Success() {
      DataOk?
    }
  }

  /** One page of a paginated listing; `lastPage` is the server's count of pages. */
  datatype Paged<+T> = Paged(
    currentPage: int,
    data: seq<T>,
    from: int,
    to: int,
    total: int,
    lastPage: int)

  /** The only post kind the API declares (`type: "text"`). */
  datatype PostKind = TextPost

  datatype Post = Post(
    pid: int,
    text: string,
    kind: PostKind,
    timestamp: int,
    reply: int,
    likeCount: int,
    anonymous: int,
    url: string)

  /** The comment a reply quotes: exactly a (pid, text, name tag) triple. */
  datatype Quote = Quote(pid: int, text: string, nameTag: string)

  datatype Comment = Comment(
    cid: int,
    pid: int,
    text: string,
    commentId: int,
    name: string,
    quote: Option<Quote>,
    timestamp: int)

  /** What the exporter hands to the renderer: one post, its comments in
      server order, and the participant names. */
  datatype PostWithComments = PostWithComments(
    post: Post,
    comments: seq<Comment>,
    users: seq<string>)
}
