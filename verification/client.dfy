/** `TreeholeHttpClient` (src/client.ts): the two endpoints and the
    sequential aggregation of a post's paginated comments. */
module Client {
  import opened Results
  import opened Text
  import opened Model
  import opened Http

  datatype Sort = Asc | Desc

  function SortName(s: Sort): string {
    match s
    case Asc => "asc"
    case Desc => "desc"
  }

  /** The default page size of `fetchAllComments`. */
  const DefaultPageSize := 15

  /** The arguments of one `fetchAllComments` call; `sort` defaults to
      `Asc` and `pageSize` to `DefaultPageSize`. */
  datatype Query = Query(pid: int, sort: Sort, pageSize: int)

  /** The arguments of `fetchAllComments(pid)` with both defaults taken. */
  function DefaultQuery(pid: int): Query {
    Query(pid, Asc, DefaultPageSize)
  }

  /** The injected requester, specialised to each endpoint's reply type: it
      rejects with a `Failure` or resolves with an envelope. */
  type PostRequester = Request -> Result<ApiResponse<Post>, Failure>

  /** The comment endpoint's envelope; a `None` payload stands for a
      `data` field that is absent or `null` on the wire. */
  type CommentReply = Result<ApiResponse<Option<Paged<Comment>>>, Failure>
  type CommentRequester = Request -> CommentReply

  const PostPrefix := "pku/"
  const CommentsPrefix := "pku_comment_v3/"

  /** The request `fetchPost(pid)` issues: no query, and a relative path
      (never starting with `/`) that names the post. */
  function PostRequest(pid: int): (req: Request)
    ensures req.params == []
    ensures |req.path| > |PostPrefix| && req.path[0] != '/'
    ensures req.path[..|PostPrefix|] == PostPrefix
    ensures ParseInt(req.path[|PostPrefix|..]) == Some(pid)
  {
    var req := Request(PostPrefix + IntToString(pid), []);
    IntToStringRoundTrip(pid);
    assert req.path[|PostPrefix|..] == IntToString(pid);
    req
  }

  /** The request `fetchComments(pid, page, limit, sort)` issues. */
  function CommentsRequest(q: Query, page: int): Request {
    Request(
      CommentsPrefix + IntToString(q.pid),
      [("page", IntToString(page)), ("limit", IntToString(q.pageSize)), ("sort", SortName(q.sort))])
  }

  /** Every comment-page request has a relative path (never starting with
      `/`) that names the post, and a query of exactly `page`, `limit` and
      `sort`, each reading back as its argument. */
  lemma CommentsRequestShape(q: Query, page: int)
    ensures var req := CommentsRequest(q, page);
      && |req.path| > |CommentsPrefix| && req.path[0] != '/'
      && req.path[..|CommentsPrefix|] == CommentsPrefix
      && ParseInt(req.path[|CommentsPrefix|..]) == Some(q.pid)
      && |req.params| == 3
      && req.params[0].0 == "page" && ParseInt(req.params[0].1) == Some(page)
      && req.params[1].0 == "limit" && ParseInt(req.params[1].1) == Some(q.pageSize)
      && req.params[2] == ("sort", SortName(q.sort))
  {
    IntToStringRoundTrip(q.pid);
    IntToStringRoundTrip(page);
    IntToStringRoundTrip(q.pageSize);
    assert CommentsRequest(q, page).path[|CommentsPrefix|..] == IntToString(q.pid);
  }

  /** Requests for different pages of one listing are different requests. */
  lemma CommentsRequestsDistinct(q: Query, page: int, page': int)
    requires page != page'
    ensures CommentsRequest(q, page) != CommentsRequest(q, page')
  {
    CommentsRequestShape(q, page);
    CommentsRequestShape(q, page');
  }

  /** How a caller reads a resolved request: a rejection stays a failure, a
      `success: false` envelope fails with its `message`, and a
      `success: true` envelope yields its payload. */
  function Unwrap<T>(reply: Result<ApiResponse<T>, Failure>): (r: Result<T, Failure>)
    ensures r.Success? <==> reply.Success? && reply.value.Success()
    ensures r.Success? ==> r.value == reply.value.data
    ensures reply.Success? && !reply.value.Success() ==> r == Failure(ApiFailure(reply.value.message))
    ensures reply.Failure? ==> r == Failure(reply.error)
  {
    match reply
    case Failure(e) => Failure(e)
    case Success(DataErr(_, message, _)) => Failure(ApiFailure(message))
    case Success(DataOk(_, _, _, data)) => Success(data)
  }

  /** `page?.data ?? []` */
  function RowsOf(page: Option<Paged<Comment>>): seq<Comment> {
    match page
    case None => []
    case Some(p) => p.data
  }

  /** `page?.last_page ?? 1` */
  function LastPageOf(page: Option<Paged<Comment>>): int {
    match page
    case None => 1
    case Some(p) => p.lastPage
  }

  /** The requests for pages 1 to `n` of the listing `q`, in that order. */
  function PageRequests(q: Query, n: nat): (reqs: seq<Request>)
    ensures |reqs| == n
    ensures forall i :: 0 <= i < n ==> reqs[i] == CommentsRequest(q, i + 1)
  {
    if n == 0 then [] else PageRequests(q, n - 1) + [CommentsRequest(q, n)]
  }

  /** The outcome of requesting page `page` of the listing `q`. */
  function PageOutcome(srv: CommentRequester, q: Query, page: int): Result<Option<Paged<Comment>>, Failure> {
    Unwrap(srv(CommentsRequest(q, page)))
  }

  /** How many pages a fully successful aggregation requests: the
      `last_page` read once from page 1 (1 when absent), and never fewer
      than the one page always requested. Later pages' `last_page` play no
      part. */
  function PageBound(srv: CommentRequester, q: Query): (n: nat)
    ensures n >= 1
  {
    match PageOutcome(srv, q, 1)
    case Success(first) => if LastPageOf(first) < 1 then 1 else LastPageOf(first)
    case Failure(_) => 1
  }

  /** Only page 1's reply decides the bound: requesters that answer page 1
      alike agree on it, whatever they answer for later pages. */
  lemma PageBoundReadsOnlyPageOne(srv: CommentRequester, srv': CommentRequester, q: Query)
    requires srv(CommentsRequest(q, 1)) == srv'(CommentsRequest(q, 1))
    ensures PageBound(srv, q) == PageBound(srv', q)
  {
  }

  /** Pages 1 to `n` all succeed. */
  predicate PagesOk(srv: CommentRequester, q: Query, n: int) {
    forall k :: 1 <= k <= n ==> PageOutcome(srv, q, k).Success?
  }

  /** The rows of pages 1 to `n`, page after page, each page in server order. */
  function RowsThrough(srv: CommentRequester, q: Query, n: nat): seq<Comment> {
    if n == 0 then []
    else
      RowsThrough(srv, q, n - 1)
      + match PageOutcome(srv, q, n) {
          case Success(page) => RowsOf(page)
          case Failure(_) => []
        }
  }

  /** What `fetchAllComments` yields and requests: pages 1, 2, ... in order,
      at most up to the bound; success exactly when every page through the
      bound succeeds, with all of them requested and their rows in page
      order; on failure, the failing page was the last one requested, every
      earlier page succeeded, and the failure is that page's. */
  ghost predicate FetchOutcome(srv: CommentRequester, q: Query,
                               r: Result<seq<Comment>, Failure>, issued: seq<Request>)
  {
    && 1 <= |issued| <= PageBound(srv, q)
    && issued == PageRequests(q, |issued|)
    && (r.Success? <==> PagesOk(srv, q, PageBound(srv, q)))
    && (r.Success? ==> |issued| == PageBound(srv, q))
    && (r.Success? ==> r.value == RowsThrough(srv, q, PageBound(srv, q)))
    && (r.Failure? ==> PagesOk(srv, q, |issued| - 1))
    && (r.Failure? ==> PageOutcome(srv, q, |issued|) == Failure(r.error))
  }

  /** A run that requested every page through the bound, all of which
      succeeded, has the outcome `FetchOutcome` describes. */
  lemma FetchSucceeded(srv: CommentRequester, q: Query, all: seq<Comment>, issued: seq<Request>)
    requires issued == PageRequests(q, PageBound(srv, q))
    requires PagesOk(srv, q, PageBound(srv, q))
    requires all == RowsThrough(srv, q, PageBound(srv, q))
    ensures FetchOutcome(srv, q, Success(all), issued)
  {
  }

  /** A run that stopped at the first failing page has the outcome
      `FetchOutcome` describes. */
  lemma FetchFailed(srv: CommentRequester, q: Query, e: Failure, issued: seq<Request>)
    requires 1 <= |issued| <= PageBound(srv, q)
    requires issued == PageRequests(q, |issued|)
    requires PagesOk(srv, q, |issued| - 1)
    requires PageOutcome(srv, q, |issued|) == Failure(e)
    ensures FetchOutcome(srv, q, Failure(e), issued)
  {
  }

  /** `fetchAllComments`: requests page 1, then pages 2, 3, ... one at a time
      up to the bound page 1 announced, stopping at the first failure. On
      success the result is every page's rows in page order; on failure no
      rows are returned and nothing after the failing page is requested. */
  method FetchAllComments(srv: CommentRequester, q: Query)
    returns (r: Result<seq<Comment>, Failure>, issued: seq<Request>)
    ensures FetchOutcome(srv, q, r, issued)
  {
    issued := [CommentsRequest(q, 1)];
    var first := Unwrap(srv(CommentsRequest(q, 1)));
    if first.Failure? {
      FetchFailed(srv, q, first.error, issued);
      r := Failure(first.error);
    } else {
      var lastPage := LastPageOf(first.value);
      assert PageBound(srv, q) == if lastPage < 1 then 1 else lastPage;
      var all := RowsOf(first.value);
      var page := 2;
      var failed: Option<Failure> := None;
      while page <= lastPage && failed.None?
        invariant 2 <= page <= PageBound(srv, q) + 1
        invariant failed.None? ==> issued == PageRequests(q, page - 1)
        invariant failed.None? ==> PagesOk(srv, q, page - 1)
        invariant failed.None? ==> all == RowsThrough(srv, q, page - 1)
        invariant failed.Some? ==> page <= PageBound(srv, q) && issued == PageRequests(q, page)
        invariant failed.Some? ==> PagesOk(srv, q, page - 1) && PageOutcome(srv, q, page) == Failure(failed.value)
        decreases lastPage - page, if failed.None? then 1 else 0
      {
        issued := issued + [CommentsRequest(q, page)];
        var resp := Unwrap(srv(CommentsRequest(q, page)));
        if resp.Failure? {
          failed := Some(resp.error);
        } else {
          assert PageOutcome(srv, q, page) == resp;
          assert RowsThrough(srv, q, page) == all + RowsOf(resp.value);
          all := all + RowsOf(resp.value);
          page := page + 1;
        }
      }
      if failed.Some? {
        FetchFailed(srv, q, failed.value, issued);
        r := Failure(failed.value);
      } else {
        FetchSucceeded(srv, q, all, issued);
        r := Success(all);
      }
    }
  }
}
