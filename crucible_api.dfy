/**
 * The review-server facade `CrucibleApi`: for every public endpoint, the
 * request it makes (resource root, HTTP verb, path segments, query
 * arguments, body) and the rule that turns the server's response into a
 * resolved or rejected promise.
 *
 * Every endpoint starts from a fresh builder for one of four resource roots,
 * appends its segments, then sets its query arguments, and hands the builder
 * to one verb.  Here that chain is `RequestOf`, a pure description of the
 * calls made, and `Build` replays the calls on a `RestUri` object.  The
 * code's oddities are kept: `getReviewTransitions` asks for `actions`,
 * `getReviewItem` and `getReviewReviewers` are sent as DELETE, the search
 * dates are reduced to their millisecond component, and `rev` arrays are
 * given to `setArg` whole.
 */
module CrucibleApi {
  import opened Wrappers
  import opened JsValues
  import opened Texts
  import opened Responses
  import opened RestUris
  import opened ReviewTypes
  import opened UriEncoding

  /*********************** Resource roots ***********************/

  datatype Base = Users | Search | Repositories | Reviews

  /** The fixed base path of each resource root. */
  function BasePath(b: Base): string {
    match b
    case Users => "/rest-service/users-v1"
    case Search => "/rest-service/search-v1"
    case Repositories => "/rest-service/repositories-v1"
    case Reviews => "/rest-service/reviews-v1"
  }

  /** The four roots are distinct and none holds a `?`, so the path never starts a query by itself. */
  lemma BasePathsDistinct(a: Base, b: Base)
    ensures BasePath(a) == BasePath(b) ==> a == b
    ensures '?' !in BasePath(a)
  {
  }

  /**
   * The getters `uriUsers`, `uriSearch`, `uriRepositories`, `uriReviews`:
   * every read makes a new builder with the root's base path and neither
   * segments nor arguments, so no endpoint sees another one's changes.
   */
  method BaseUri(b: Base) returns (uri: RestUri)
    ensures fresh(uri) && uri.Valid()
    ensures uri.base == BasePath(b) && uri.parts == [] && uri.args == EmptyMap
  {
    uri := new RestUri(BasePath(b), []);
  }

  /*********************** Requests ***********************/

  /** The builder method that sends the request: GET, POST, PUT, DELETE, a multipart upload or a raw download. */
  datatype Verb = Get | Create | Update | Del | UploadFile | LoadFile

  /** One `setArg(key, value)` call. */
  datatype ArgCall = ArgCall(key: string, value: Value)

  /**
   * The calls an endpoint makes: the root it starts from, its `addPart`
   * segments and `setArg` calls in order, the verb, and the body handed to
   * the verb (`undefined` when there is none).
   */
  datatype Request = Request(base: Base, verb: Verb, parts: seq<string>, args: seq<ArgCall>, body: Value)

  /** The argument map after the `setArg` calls, in order, on a fresh builder. */
  function ArgsOf(calls: seq<ArgCall>): (m: JsMap)
    ensures m.Valid()
  {
    if calls == [] then EmptyMap
    else
      var last := calls[|calls| - 1];
      SetArgEffect(ArgsOf(calls[..|calls| - 1]), last.key, last.value)
  }

  /** The request target the calls render to. */
  function TargetOf(r: Request): string {
    Target(BasePath(r.base), r.parts, ArgsOf(r.args))
  }

  /**
   * Replays a request's calls on a fresh builder: every segment with
   * `addPart`, then every argument with `setArg`, chaining on the builder
   * each call returns.
   */
  method Build(r: Request) returns (uri: RestUri)
    ensures fresh(uri) && uri.Valid()
    ensures uri.base == BasePath(r.base) && uri.parts == r.parts && uri.args == ArgsOf(r.args)
  {
    uri := BaseUri(r.base);
    for i := 0 to |r.parts|
      invariant fresh(uri) && uri.Valid() && uri.base == BasePath(r.base)
      invariant uri.parts == r.parts[..i] && uri.args == EmptyMap
    {
      assert r.parts[..i + 1] == r.parts[..i] + [r.parts[i]];
      uri := uri.AddPart(r.parts[i]);
    }
    assert r.parts[..|r.parts|] == r.parts;
    for j := 0 to |r.args|
      invariant fresh(uri) && uri.Valid() && uri.base == BasePath(r.base)
      invariant uri.parts == r.parts && uri.args == ArgsOf(r.args[..j])
    {
      assert r.args[..j + 1][..j] == r.args[..j];
      uri := uri.SetArg(r.args[j].key, r.args[j].value);
    }
    assert r.args[..|r.args|] == r.args;
  }

  /** The target an endpoint sends its request to, rendered by the builder itself. */
  method RenderTarget(r: Request) returns (url: string)
    ensures url == TargetOf(r)
  {
    var uri := Build(r);
    url := uri.Str();
  }

  /*********************** Argument values ***********************/

  /** An optional string parameter: `undefined` when omitted. */
  function OptionalString(o: Option<string>): (v: Value)
    ensures v.IsNullish() <==> o.None?
    ensures o.Some? ==> v == Str(o.value)
  {
    match o
    case None => Undefined
    case Some(s) => Str(s)
  }

  /** An optional boolean parameter: `undefined` when omitted; `false` is passed on as it is. */
  function OptionalBool(o: Option<bool>): (v: Value)
    ensures v.IsNullish() <==> o.None?
    ensures o.Some? ==> v == Bool(o.value)
  {
    match o
    case None => Undefined
    case Some(b) => Bool(b)
  }

  /** The names of the states, in order. */
  function StateNames(states: seq<ReviewState>): (names: seq<string>)
    ensures |names| == |states|
    ensures forall i :: 0 <= i < |states| ==> names[i] == states[i].Name()
  {
    seq(|states|, i requires 0 <= i < |states| => states[i].Name())
  }

  /**
   * `states ? states.join(',') : undefined`: an array is truthy even when
   * empty, so an empty list of states still sets the argument, to `""`.
   */
  function StatesArg(o: Option<seq<ReviewState>>): (v: Value)
    ensures v.IsNullish() <==> o.None?
    ensures o.Some? ==> v == Str(Join(StateNames(o.value), ","))
    ensures o == Some([]) ==> v == Str("")
  {
    match o
    case None => Undefined
    case Some(states) => Str(Join(StateNames(states), ","))
  }

  /**
   * `Date.prototype.getMilliseconds()` of the date at `t` milliseconds after
   * the epoch: the millisecond component, 0 to 999.  Time zones shift by
   * whole seconds, so the local and the universal component agree.
   */
  function Milliseconds(t: int): (ms: int)
    ensures 0 <= ms < 1000
    ensures exists s :: t == s * 1000 + ms
  {
    assert t == (t / 1000) * 1000 + t % 1000;
    t % 1000
  }

  /**
   * A non-empty `states` list can be split again at `,`: no state name holds
   * a comma, so the argument reads back as the names in order, and each name
   * belongs to exactly one state.  (The empty list is sent as `""`, which
   * reads back as one empty name.)
   */
  lemma StatesArgReadsBack(states: seq<ReviewState>)
    requires |states| > 0
    ensures Split(Join(StateNames(states), ","), ',') == StateNames(states)
    ensures forall t: ReviewState, i :: 0 <= i < |states| && t.Name() == StateNames(states)[i] ==> t == states[i]
  {
    var names := StateNames(states);
    forall i | 0 <= i < |names| ensures ',' !in names[i] {
      assert names[i] == states[i].Name();
    }
    SplitJoin(names, ',');
    forall t: ReviewState, i | 0 <= i < |states| && t.Name() == names[i] ensures t == states[i] {
      StateNamesDistinct(t, states[i]);
    }
  }

  /** `date ? date.getMilliseconds() : undefined`: a date object is always truthy. */
  function DateArg(o: Option<int>): (v: Value)
    ensures v.IsNullish() <==> o.None?
    ensures o.Some? ==> v.Num? && 0 <= v.n < 1000
    ensures o.Some? ==> v == Num(Milliseconds(o.value))
  {
    match o
    case None => Undefined
    case Some(t) => Num(Milliseconds(t))
  }

  /*********************** Endpoints ***********************/

  /** The optional filters of `searchReviews`; dates are milliseconds since the epoch. */
  datatype ReviewQuery = ReviewQuery(
    title: Option<string>,
    author: Option<string>,
    moderator: Option<string>,
    creator: Option<string>,
    states: Option<seq<ReviewState>>,
    reviewer: Option<string>,
    orRoles: Option<bool>,
    complete: Option<bool>,
    allReviewersComplete: Option<bool>,
    project: Option<string>,
    fromDate: Option<int>,
    toDate: Option<int>)

  /** A query with every filter omitted. */
  const NoFilters: ReviewQuery :=
    ReviewQuery(None, None, None, None, None, None, None, None, None, None, None, None)

  /*
   * The public endpoints of the facade with their arguments, grouped by the
   * resource they address.  Bodies (review, comment, patch, summary, ...)
   * and the upload stream are carried as opaque values.
   */

  /** Users: `users-v1`. */
  datatype UserCall =
    | GetUsers(usernameFilter: seq<string>)
    | GetUserCommitter(repository: string, username: string)
    | GetUserProfile(username: string)

  /** Free-text search: `search-v1`. */
  datatype SearchCall =
    | SearchReview(term: string, maxReturn: int)
    | GetReviewsForIssue(jiraKey: string, maxReturn: int)

  /** Repositories, change sets and file revisions: `repositories-v1`. */
  datatype RepositoryCall =
    | SearchRepositories(name: string, enabled: bool, available: bool, repositoryType: string, limit: int)
    | GetFileRevisionContent(repository: string, revision: string, path: string)
    | GetChangeSet(repository: string, revision: string)
    | SearchChangeSets(repository: string, path: string, oldestCsid: string, includeOldest: string,
                       newestCsid: string, includeNewest: string, max: string)
    | GetVersionedEntity(repository: string, revision: string, path: string)
    | GetRepository(repository: string)
    | BrowseRepository(repository: string, path: string)
    | GetVersionedEntityHistory(repository: string, revision: string, path: string)

  /** Lists of reviews, review creation and server metadata: `reviews-v1`. */
  datatype ReviewListCall =
    | GetReviews(state: string)
    | CreateReview(review: Value, state: string)
    | GetReviewCommentMetric(version: string)
    | GetVersionInfo
    | GetReviewsDetailed(state: string)
    | FilterReviews(filter: ReviewFilter)
    | FilterReviewsDetailed(filter: ReviewFilter)
    | SearchReviews(query: ReviewQuery)
    | SearchReviewsDetailed(query: ReviewQuery)
    | SearchReviewForFile(repositoryId: string, path: string)
    | SearchReviewForFileDetailed(repositoryId: string, path: string)

  /** One review, its life cycle, change sets and patches: `reviews-v1/<reviewId>`. */
  datatype ReviewCall =
    | AddFileToReview(reviewId: string, stream: Value)
    | CompleteReview(reviewId: string, ignoreWarnings: bool)
    | UncompleteReview(reviewId: string, ignoreWarnings: bool)
    | ChangeReviewState(reviewId: string, transition: string, ignoreWarnings: bool)
    | CloseReview(reviewId: string, summary: Value)
    | RemindIncompleteReviewers(reviewId: string)
    | GetReview(reviewId: string)
    | DeleteReview(reviewId: string)
    | GetReviewDetailed(reviewId: string)
    | GetReviewActions(reviewId: string)
    | GetReviewTransitions(reviewId: string)
    | AddReviewChangeSet(reviewId: string, changeSet: Value)
    | AddReviewPatch(reviewId: string, patch: Value)
    | GetReviewPatchGroups(reviewId: string)
    | RemoveReviewPatch(reviewId: string, patchId: string)

  /** Comments and replies: `reviews-v1/<reviewId>/comments` and `.../publish`. */
  datatype CommentCall =
    | GetReviewComment(reviewId: string, commentId: string, render: bool)
    | DeleteReviewComment(reviewId: string, commentId: string)
    | UpdateReviewComment(reviewId: string, commentId: string, comment: Value)
    | GetReviewCommentReplies(reviewId: string, commentId: string, render: bool)
    | AddReviewCommentReply(reviewId: string, commentId: string, reply: Value)
    | MarkAllReviewCommentsAsRead(reviewId: string)
    | MarkReviewCommentAsRead(reviewId: string, commentId: string)
    | MarkReviewCommentAsLeaveUnread(reviewId: string, commentId: string)
    | UpdateReviewCommentReply(reviewId: string, commentId: string, replyId: string, reply: Value)
    | DeleteReviewCommentReply(reviewId: string, commentId: string, replyId: string)
    | PublishAllDraftReviewComments(reviewId: string)
    | PublishDraftReviewComment(reviewId: string, commentId: string)
    | GetReviewComments(reviewId: string, render: bool)
    | AddReviewComment(reviewId: string, comment: Value)
    | GetReviewGeneralComments(reviewId: string, render: bool)
    | GetReviewVersionedComments(reviewId: string, render: bool)

  /** Review items and their revisions: `reviews-v1/<reviewId>/reviewitems`. */
  datatype ReviewItemCall =
    | AddRevisionsToReviewItem(reviewId: string, reviewItemId: string, revisions: seq<int>)
    | DeleteRevisionsFromReviewItem(reviewId: string, reviewItemId: string, revisions: seq<int>)
    | RemoveReviewItem(reviewId: string, reviewItemId: string)
    | GetReviewItem(reviewId: string, reviewItemId: string)
    | GetReviewItemComments(reviewId: string, reviewItemId: string, render: bool)
    | AddReviewItemComments(reviewId: string, reviewItemId: string, comments: Value)
    | GetReviewReviewItems(reviewId: string)
    | AddReviewReviewItem(reviewId: string, reviewItem: Value)
    | AddReviewRevisions(reviewId: string, reviewRevisions: Value)
    | AddReviewReviewItemDetailed(reviewId: string, reviewItem: Value)

  /** Reviewers: `reviews-v1/<reviewId>/reviewers`. */
  datatype ReviewerCall =
    | GetReviewReviewers(reviewId: string)
    | AddReviewReviewers(reviewId: string, reviewerIds: seq<string>)
    | GetReviewReviewersCompleted(reviewId: string)
    | GetReviewReviewersUncompleted(reviewId: string)
    | RemoveReviewReviewer(reviewId: string, reviewerName: string)

  /** One call of a public method of the facade. */
  datatype Endpoint =
    | UserApi(userCall: UserCall)
    | SearchApi(searchCall: SearchCall)
    | RepositoryApi(repositoryCall: RepositoryCall)
    | ReviewListApi(reviewListCall: ReviewListCall)
    | ReviewApi(reviewCall: ReviewCall)
    | CommentApi(commentCall: CommentCall)
    | ReviewItemApi(reviewItemCall: ReviewItemCall)
    | ReviewerApi(reviewerCall: ReviewerCall)

  /** The `details` segment the internal helpers append last when asked for detail. */
  function DetailsIf(detailed: bool): seq<string> {
    if detailed then ["details"] else []
  }

  /** `filterReviewsInternal`: `filter/<name>`, then `details` when detailed. */
  function FilterReviewsInternal(detailed: bool, filter: ReviewFilter): Request {
    Request(Reviews, Get, ["filter", filter.Name()] + DetailsIf(detailed), [], Undefined)
  }

  /** The twelve `setArg` calls of `searchReviewsInternal`, in the code's order. */
  function SearchArgs(q: ReviewQuery): seq<ArgCall> {
    [ ArgCall("title", OptionalString(q.title)),
      ArgCall("author", OptionalString(q.author)),
      ArgCall("moderator", OptionalString(q.moderator)),
      ArgCall("creator", OptionalString(q.creator)),
      ArgCall("states", StatesArg(q.states)),
      ArgCall("reviewer", OptionalString(q.reviewer)),
      ArgCall("orRoles", OptionalBool(q.orRoles)),
      ArgCall("complete", OptionalBool(q.complete)),
      ArgCall("allReviewersComplete", OptionalBool(q.allReviewersComplete)),
      ArgCall("project", OptionalString(q.project)),
      ArgCall("fromDate", DateArg(q.fromDate)),
      ArgCall("toDate", DateArg(q.toDate)) ]
  }

  /** `searchReviewsInternal`: `filter`, then `details` when detailed, and the filters as arguments. */
  function SearchReviewsInternal(detailed: bool, q: ReviewQuery): Request {
    Request(Reviews, Get, ["filter"] + DetailsIf(detailed), SearchArgs(q), Undefined)
  }

  /** `searchReviewForFileInternal`: `search/<repositoryId>`, then `details` when detailed; `path` as argument. */
  function SearchReviewForFileInternal(detailed: bool, repositoryId: string, path: string): Request {
    Request(Reviews, Get, ["search", repositoryId] + DetailsIf(detailed), [ArgCall("path", Str(path))], Undefined)
  }

  /** `getReviewInternal`: `<reviewId>`, then `details` when detailed. */
  function GetReviewInternal(detailed: bool, reviewId: string): Request {
    Request(Reviews, Get, [reviewId] + DetailsIf(detailed), [], Undefined)
  }

  /** `addReviewReviewItemInternal`: `<reviewId>/reviewitems`, then `details` when detailed; POSTs the item. */
  function AddReviewReviewItemInternal(detailed: bool, reviewId: string, reviewItem: Value): Request {
    Request(Reviews, Create, [reviewId, "reviewitems"] + DetailsIf(detailed), [], reviewItem)
  }

  /** `setArg('render', render)`. */
  function RenderArg(render: bool): seq<ArgCall> {
    [ArgCall("render", Bool(render))]
  }

  /** `setArg('rev', revisions)`: the whole array in one call. */
  function RevArg(revisions: seq<int>): seq<ArgCall> {
    [ArgCall("rev", Arr(seq(|revisions|, i requires 0 <= i < |revisions| => Num(revisions[i]))))]
  }

  /** A GET without arguments. */
  function Fetch(base: Base, parts: seq<string>): Request {
    Request(base, Get, parts, [], Undefined)
  }

  function UserRequest(c: UserCall): Request {
    match c
    case GetUsers(names) =>
      Request(Users, Get, [], [ArgCall("username", Arr(seq(|names|, i requires 0 <= i < |names| => Str(names[i]))))], Undefined)
    case GetUserCommitter(repository, username) => Fetch(Users, [repository, username])
    case GetUserProfile(username) => Fetch(Users, [username])
  }

  function SearchRequest(c: SearchCall): Request {
    match c
    case SearchReview(term, maxReturn) =>
      Request(Search, Get, [], [ArgCall("term", Str(term)), ArgCall("maxReturn", Num(maxReturn))], Undefined)
    case GetReviewsForIssue(jiraKey, maxReturn) =>
      Request(Search, Get, [], [ArgCall("jiraKey", Str(jiraKey)), ArgCall("maxReturn", Num(maxReturn))], Undefined)
  }

  function RepositoryRequest(c: RepositoryCall): Request {
    match c
    case SearchRepositories(name, enabled, available, repositoryType, limit) =>
      Request(Repositories, Get, [],
        [ArgCall("name", Str(name)), ArgCall("enabled", Bool(enabled)), ArgCall("available", Bool(available)),
         ArgCall("type", Str(repositoryType)), ArgCall("limit", Num(limit))], Undefined)
    case GetFileRevisionContent(repository, revision, path) =>
      Request(Repositories, LoadFile, ["content", repository, revision, path], [], Undefined)
    case GetChangeSet(repository, revision) => Fetch(Repositories, ["change", repository, revision])
    case SearchChangeSets(repository, path, oldestCsid, includeOldest, newestCsid, includeNewest, max) =>
      Request(Repositories, Get, ["changes", repository, path],
        [ArgCall("path", Str(path)), ArgCall("oldestCsid", Str(oldestCsid)), ArgCall("includeOldest", Str(includeOldest)),
         ArgCall("newestCsid", Str(newestCsid)), ArgCall("includeNewest", Str(includeNewest)), ArgCall("max", Str(max))],
        Undefined)
    case GetVersionedEntity(repository, revision, path) => Fetch(Repositories, [repository, revision, path])
    case GetRepository(repository) => Fetch(Repositories, [repository])
    case BrowseRepository(repository, path) => Fetch(Repositories, ["browse", repository, path])
    case GetVersionedEntityHistory(repository, revision, path) =>
      Fetch(Repositories, ["history", repository, revision, path])
  }

  function ReviewListRequest(c: ReviewListCall): Request {
    match c
    case GetReviews(state) => Request(Reviews, Get, [], [ArgCall("state", Str(state))], Undefined)
    case CreateReview(review, state) => Request(Reviews, Create, [], [ArgCall("state", Str(state))], review)
    case GetReviewCommentMetric(version) => Fetch(Reviews, ["metrics", version])
    case GetVersionInfo => Fetch(Reviews, ["versionInfo"])
    case GetReviewsDetailed(state) => Request(Reviews, Get, ["details"], [ArgCall("state", Str(state))], Undefined)
    case FilterReviews(filter) => FilterReviewsInternal(false, filter)
    case FilterReviewsDetailed(filter) => FilterReviewsInternal(true, filter)
    case SearchReviews(q) => SearchReviewsInternal(false, q)
    case SearchReviewsDetailed(q) => SearchReviewsInternal(true, q)
    case SearchReviewForFile(repositoryId, path) => SearchReviewForFileInternal(false, repositoryId, path)
    case SearchReviewForFileDetailed(repositoryId, path) => SearchReviewForFileInternal(true, repositoryId, path)
  }

  function ReviewRequest(c: ReviewCall): Request {
    match c
    case AddFileToReview(reviewId, stream) => Request(Reviews, UploadFile, [reviewId, "addFile"], [], stream)
    case CompleteReview(reviewId, ignoreWarnings) =>
      Request(Reviews, Create, [reviewId, "complete"], [ArgCall("ignoreWarnings", Bool(ignoreWarnings))], Undefined)
    case UncompleteReview(reviewId, ignoreWarnings) =>
      Request(Reviews, Create, [reviewId, "uncomplete"], [ArgCall("ignoreWarnings", Bool(ignoreWarnings))], Undefined)
    case ChangeReviewState(reviewId, transition, ignoreWarnings) =>
      Request(Reviews, Create, [reviewId, "transition"],
        [ArgCall("action", Str(transition)), ArgCall("ignoreWarnings", Bool(ignoreWarnings))], Undefined)
    case CloseReview(reviewId, summary) => Request(Reviews, Create, [reviewId, "close"], [], summary)
    case RemindIncompleteReviewers(reviewId) => Request(Reviews, Create, [reviewId, "remind"], [], Undefined)
    case GetReview(reviewId) => GetReviewInternal(false, reviewId)
    case DeleteReview(reviewId) => Request(Reviews, Del, [reviewId], [], Undefined)
    case GetReviewDetailed(reviewId) => GetReviewInternal(true, reviewId)
    case GetReviewActions(reviewId) => Fetch(Reviews, [reviewId, "actions"])
    case GetReviewTransitions(reviewId) => Fetch(Reviews, [reviewId, "actions"])
    case AddReviewChangeSet(reviewId, changeSet) => Request(Reviews, Create, [reviewId, "addChangeset"], [], changeSet)
    case AddReviewPatch(reviewId, patch) => Request(Reviews, Create, [reviewId, "patch"], [], patch)
    case GetReviewPatchGroups(reviewId) => Fetch(Reviews, [reviewId, "patch"])
    case RemoveReviewPatch(reviewId, patchId) => Request(Reviews, Del, [reviewId, "patch", patchId], [], Undefined)
  }

  function CommentRequest(c: CommentCall): Request {
    match c
    case GetReviewComment(reviewId, commentId, render) =>
      Request(Reviews, Get, [reviewId, "comments", commentId], RenderArg(render), Undefined)
    case DeleteReviewComment(reviewId, commentId) => Request(Reviews, Del, [reviewId, "comments", commentId], [], Undefined)
    case UpdateReviewComment(reviewId, commentId, comment) =>
      Request(Reviews, Update, [reviewId, "comments", commentId], [], comment)
    case GetReviewCommentReplies(reviewId, commentId, render) =>
      Request(Reviews, Get, [reviewId, "comments", commentId, "replies"], RenderArg(render), Undefined)
    case AddReviewCommentReply(reviewId, commentId, reply) =>
      Request(Reviews, Create, [reviewId, "comments", commentId, "replies"], [], reply)
    case MarkAllReviewCommentsAsRead(reviewId) => Request(Reviews, Create, [reviewId, "comments", "markAllAsRead"], [], Undefined)
    case MarkReviewCommentAsRead(reviewId, commentId) =>
      Request(Reviews, Create, [reviewId, "comments", commentId, "markAsRead"], [], Undefined)
    case MarkReviewCommentAsLeaveUnread(reviewId, commentId) =>
      Request(Reviews, Create, [reviewId, "comments", commentId, "markAsLeaveUnread"], [], Undefined)
    case UpdateReviewCommentReply(reviewId, commentId, replyId, reply) =>
      Request(Reviews, Create, [reviewId, "comments", commentId, "replies", replyId], [], reply)
    case DeleteReviewCommentReply(reviewId, commentId, replyId) =>
      Request(Reviews, Del, [reviewId, "comments", commentId, "replies", replyId], [], Undefined)
    case PublishAllDraftReviewComments(reviewId) => Request(Reviews, Create, [reviewId, "publish"], [], Undefined)
    case PublishDraftReviewComment(reviewId, commentId) => Request(Reviews, Create, [reviewId, "publish", commentId], [], Undefined)
    case GetReviewComments(reviewId, render) => Request(Reviews, Get, [reviewId, "comments"], RenderArg(render), Undefined)
    case AddReviewComment(reviewId, comment) => Request(Reviews, Create, [reviewId, "comments"], [], comment)
    case GetReviewGeneralComments(reviewId, render) =>
      Request(Reviews, Get, [reviewId, "comments", "general"], RenderArg(render), Undefined)
    case GetReviewVersionedComments(reviewId, render) =>
      Request(Reviews, Get, [reviewId, "comments", "versioned"], RenderArg(render), Undefined)
  }

  function ReviewItemRequest(c: ReviewItemCall): Request {
    match c
    case AddRevisionsToReviewItem(reviewId, reviewItemId, revisions) =>
      Request(Reviews, Create, [reviewId, "reviewitems", reviewItemId, "revisions"], RevArg(revisions), Undefined)
    case DeleteRevisionsFromReviewItem(reviewId, reviewItemId, revisions) =>
      Request(Reviews, Del, [reviewId, "reviewitems", reviewItemId, "revisions"], RevArg(revisions), Undefined)
    case RemoveReviewItem(reviewId, reviewItemId) => Request(Reviews, Del, [reviewId, "reviewitems", reviewItemId], [], Undefined)
    case GetReviewItem(reviewId, reviewItemId) => Request(Reviews, Del, [reviewId, "reviewitems", reviewItemId], [], Undefined)
    case GetReviewItemComments(reviewId, reviewItemId, render) =>
      Request(Reviews, Get, [reviewId, "reviewitems", reviewItemId, "comments"], RenderArg(render), Undefined)
    case AddReviewItemComments(reviewId, reviewItemId, comments) =>
      Request(Reviews, Create, [reviewId, "reviewitems", reviewItemId, "comments"], [], comments)
    case GetReviewReviewItems(reviewId) => Fetch(Reviews, [reviewId, "reviewitems"])
    case AddReviewReviewItem(reviewId, reviewItem) => AddReviewReviewItemInternal(false, reviewId, reviewItem)
    case AddReviewRevisions(reviewId, reviewRevisions) =>
      Request(Reviews, Create, [reviewId, "reviewitems", "revisions"], [], reviewRevisions)
    case AddReviewReviewItemDetailed(reviewId, reviewItem) => AddReviewReviewItemInternal(true, reviewId, reviewItem)
  }

  function ReviewerRequest(c: ReviewerCall): Request {
    match c
    case GetReviewReviewers(reviewId) => Request(Reviews, Del, [reviewId, "reviewers"], [], Undefined)
    case AddReviewReviewers(reviewId, reviewerIds) =>
      Request(Reviews, Create, [reviewId, "reviewers"], [], Str(Join(reviewerIds, ",")))
    case GetReviewReviewersCompleted(reviewId) => Fetch(Reviews, [reviewId, "reviewers", "completed"])
    case GetReviewReviewersUncompleted(reviewId) => Fetch(Reviews, [reviewId, "reviewers", "uncompleted"])
    case RemoveReviewReviewer(reviewId, reviewerName) => Request(Reviews, Del, [reviewId, "reviewers", reviewerName], [], Undefined)
  }

  /** The request each endpoint makes, as its body in the facade builds it. */
  function RequestOf(e: Endpoint): (r: Request)
    ensures e.UserApi? <==> r.base == Users
    ensures e.SearchApi? <==> r.base == Search
    ensures e.RepositoryApi? <==> r.base == Repositories
    ensures r.verb == UploadFile ==> e.ReviewApi?
    ensures r.verb == LoadFile ==> e.RepositoryApi?
  {
    match e
    case UserApi(c) => UserRequest(c)
    case SearchApi(c) => SearchRequest(c)
    case RepositoryApi(c) => RepositoryRequest(c)
    case ReviewListApi(c) => ReviewListRequest(c)
    case ReviewApi(c) => ReviewRequest(c)
    case CommentApi(c) => CommentRequest(c)
    case ReviewItemApi(c) => ReviewItemRequest(c)
    case ReviewerApi(c) => ReviewerRequest(c)
  }

  /*********************** Outcomes ***********************/

  /** How an endpoint reads the response in its `.then`. */
  datatype Kind =
    | Data            // resolve with `get(200)` when it is truthy
    | Void            // resolve with nothing when the status is 200
    | VoidTransition  // as `Void`, but a truthy 409 body is the rejection reason
    | DataTransition  // as `Data`, but a truthy 409 body is the rejection reason

  function KindOf(e: Endpoint): (k: Kind)
    ensures (k.VoidTransition? || k.DataTransition?) ==> e.ReviewApi?
    ensures (e.UserApi? || e.SearchApi? || e.RepositoryApi? || e.ReviewListApi?) ==> k == Data
  {
    match e
    case ReviewApi(c) =>
      if c.CompleteReview? || c.UncompleteReview? then VoidTransition
      else if c.ChangeReviewState? then DataTransition
      else if c.CloseReview? || c.RemindIncompleteReviewers? || c.DeleteReview? then Void
      else Data
    case CommentApi(c) =>
      if || c.DeleteReviewComment? || c.UpdateReviewComment? || c.UpdateReviewCommentReply?
         || c.DeleteReviewCommentReply? || c.PublishAllDraftReviewComments? || c.PublishDraftReviewComment?
      then Void else Data
    case ReviewItemApi(c) => if c.RemoveReviewItem? then Void else Data
    case ReviewerApi(c) => if c.AddReviewReviewers? || c.RemoveReviewReviewer? then Void else Data
    case _ => Data
  }

  const Ok: int := 200
  const Conflict: int := 409
  const UnknownErrorMessage: string := "unknown error"

  /**
   * The facade's own `getError`: the `message` member of a truthy body
   * (taken to be an error record), `'unknown error'` otherwise.
   */
  function FacadeError(r: Response): (reason: Value)
    ensures !r.result.Obj? ==> reason == Undefined || !r.result.Truthy()
    ensures reason == Str(UnknownErrorMessage) || reason == r.result.Member("message")
    ensures r.result.Truthy() ==> reason == r.result.Member("message")
    ensures !r.result.Truthy() ==> reason == Str(UnknownErrorMessage)
  {
    if r.result.Truthy() then r.result.Member("message") else Str(UnknownErrorMessage)
  }

  /** What a promise returned by the facade is settled with. */
  datatype Outcome = Resolve(value: Value) | Reject(reason: Value)

  /** The body of a 409 response when it is truthy, else the facade's error. */
  function ConflictOrError(r: Response): (reason: Value)
    ensures r.statusCode == Conflict && r.result.Truthy() ==> reason == r.result
    ensures !(r.statusCode == Conflict && r.result.Truthy()) ==> reason == FacadeError(r)
  {
    var conflict := r.Get(Some(Conflict));
    if conflict.Some? && conflict.value.Truthy() then conflict.value else FacadeError(r)
  }

  /** The `.then` handler of an endpoint of the given kind. */
  function Classify(kind: Kind, r: Response): (o: Outcome)
    ensures o.Resolve? ==> r.statusCode == Ok
    ensures (kind.Data? || kind.DataTransition?) ==>
      (o.Resolve? <==> r.statusCode == Ok && r.result.Truthy()) && (o.Resolve? ==> o.value == r.result)
    ensures (kind.Void? || kind.VoidTransition?) ==>
      (o.Resolve? <==> r.statusCode == Ok) && (o.Resolve? ==> o.value == Undefined)
    ensures o.Reject? && (kind.Data? || kind.Void?) ==> o.reason == FacadeError(r)
    ensures o.Reject? && (kind.VoidTransition? || kind.DataTransition?) ==>
      o.reason == if r.statusCode == Conflict && r.result.Truthy() then r.result else FacadeError(r)
  {
    match kind
    case Data =>
      var content := r.Get(Some(Ok));
      if content.Some? && content.value.Truthy() then Resolve(content.value) else Reject(FacadeError(r))
    case Void =>
      if r.statusCode == Ok then Resolve(Undefined) else Reject(FacadeError(r))
    case VoidTransition =>
      if r.statusCode == Ok then Resolve(Undefined) else Reject(ConflictOrError(r))
    case DataTransition =>
      var result := r.Get(Some(Ok));
      if result.Some? && result.value.Truthy() then Resolve(result.value) else Reject(ConflictOrError(r))
  }

  /**
   * What the verb's promise delivers: a response, or a rejection with no
   * value (the builder calls `reject()` when the transport fails).
   */
  datatype Exchange = Received(response: Response) | TransportFailure

  /** The outcome of an endpoint: its `.then` on a response, its `.catch` passing the failure on. */
  function Settle(e: Endpoint, x: Exchange): (o: Outcome)
    ensures o.Resolve? ==> x.Received? && x.response.statusCode == Ok
    ensures x.TransportFailure? ==> o == Reject(Undefined)
  {
    match x
    case Received(r) => Classify(KindOf(e), r)
    case TransportFailure => Reject(Undefined)
  }

  /*********************** Properties of the requests ***********************/

  /** The keys of the calls, in order. */
  function KeysOf(calls: seq<ArgCall>): (keys: seq<string>)
    ensures |keys| == |calls|
    ensures forall i :: 0 <= i < |calls| ==> keys[i] == calls[i].key
  {
    seq(|calls|, i requires 0 <= i < |calls| => calls[i].key)
  }

  /** The calls that set something: those whose value is neither `null` nor `undefined`. */
  function Present(calls: seq<ArgCall>): (kept: seq<ArgCall>)
    ensures |kept| <= |calls|
    ensures forall c :: c in kept ==> c in calls && !c.value.IsNullish()
  {
    if calls == [] then []
    else
      var last := calls[|calls| - 1];
      Present(calls[..|calls| - 1]) + (if last.value.IsNullish() then [] else [last])
  }

  /** When every call sets something, all of them are present. */
  lemma {:induction false} PresentAll(calls: seq<ArgCall>)
    requires forall i :: 0 <= i < |calls| ==> !calls[i].value.IsNullish()
    ensures Present(calls) == calls
  {
    if calls != [] {
      PresentAll(calls[..|calls| - 1]);
      assert calls[..|calls| - 1] + [calls[|calls| - 1]] == calls;
    }
  }

  /** The map after the calls holds only keys of the calls. */
  lemma {:induction false} ArgsOfKeys(calls: seq<ArgCall>)
    requires forall i :: 0 <= i < |calls| ==> !calls[i].value.Arr?
    ensures forall k :: k in ArgsOf(calls).entries ==> k in KeysOf(calls)
  {
    if calls != [] {
      var n := |calls|;
      var front, last := calls[..n - 1], calls[n - 1];
      ArgsOfKeys(front);
      var m := ArgsOf(front);
      assert ArgsOf(calls).entries.Keys <= m.entries.Keys + {last.key};
      forall k | k in ArgsOf(calls).entries ensures k in KeysOf(calls) {
        if k == last.key {
          assert KeysOf(calls)[n - 1] == k;
        } else {
          var j :| 0 <= j < n - 1 && KeysOf(front)[j] == k;
          assert KeysOf(calls)[j] == k;
        }
      }
    }
  }

  /** One `setArg` of a non-array value under a key the map does not hold yet. */
  lemma SetArgNewKey(m: JsMap, c: ArgCall)
    requires m.Valid() && !c.value.Arr? && c.key !in m.entries
    ensures var r := SetArgEffect(m, c.key, c.value);
      && (c.value.IsNullish() ==> r == m)
      && (!c.value.IsNullish() ==> r.order == m.order + [c.key] && r.entries == m.entries[c.key := c.value])
  {
  }

  /**
   * `setArg` calls with distinct keys and no array values: a key is present
   * exactly when its value is neither `null` nor `undefined`, and then maps
   * to that value.
   */
  lemma {:induction false} ArgsOfEntries(calls: seq<ArgCall>)
    requires Distinct(KeysOf(calls))
    requires forall i :: 0 <= i < |calls| ==> !calls[i].value.Arr?
    ensures forall i :: 0 <= i < |calls| ==>
      (calls[i].key in ArgsOf(calls).entries <==> !calls[i].value.IsNullish())
    ensures forall i :: 0 <= i < |calls| && !calls[i].value.IsNullish() ==>
      ArgsOf(calls).entries[calls[i].key] == calls[i].value
  {
    if calls != [] {
      var n := |calls|;
      var front, last := calls[..n - 1], calls[n - 1];
      LastKeyIsNew(calls);
      ArgsOfEntries(front);
      forall i | 0 <= i < n - 1 ensures front[i] == calls[i] && front[i].key != last.key {
        assert KeysOf(calls)[i] != KeysOf(calls)[n - 1];
      }
      SetArgNewKey(ArgsOf(front), last);
    }
  }

  /** With distinct keys and no arrays, the map's order is the keys of the calls that set something, in call order. */
  lemma {:induction false} ArgsOfOrder(calls: seq<ArgCall>)
    requires Distinct(KeysOf(calls))
    requires forall i :: 0 <= i < |calls| ==> !calls[i].value.Arr?
    ensures ArgsOf(calls).order == KeysOf(Present(calls))
  {
    if calls != [] {
      var n := |calls|;
      var front, last := calls[..n - 1], calls[n - 1];
      LastKeyIsNew(calls);
      ArgsOfOrder(front);
      SetArgNewKey(ArgsOf(front), last);
      if !last.value.IsNullish() {
        assert Present(calls) == Present(front) + [last];
        assert KeysOf(Present(front) + [last]) == KeysOf(Present(front)) + [last.key];
      }
    }
  }

  /** With distinct keys, the last call's key is not yet in the map the earlier calls leave. */
  lemma LastKeyIsNew(calls: seq<ArgCall>)
    requires calls != [] && Distinct(KeysOf(calls))
    requires forall i :: 0 <= i < |calls| ==> !calls[i].value.Arr?
    ensures Distinct(KeysOf(calls[..|calls| - 1]))
    ensures calls[|calls| - 1].key !in ArgsOf(calls[..|calls| - 1]).entries
  {
    var n := |calls|;
    var front, last := calls[..n - 1], calls[n - 1];
    assert KeysOf(front) == KeysOf(calls)[..n - 1];
    ArgsOfKeys(front);
    forall i | 0 <= i < n - 1 ensures KeysOf(front)[i] != last.key {
      assert KeysOf(calls)[i] != KeysOf(calls)[n - 1];
    }
  }

  /** Calls with distinct keys that all set a string: the map holds every key, in call order, with its value. */
  lemma {:induction false} ArgsOfAllSet(calls: seq<ArgCall>)
    requires Distinct(KeysOf(calls))
    requires forall i :: 0 <= i < |calls| ==> calls[i].value.Str?
    ensures ArgsOf(calls).order == KeysOf(calls)
    ensures forall i :: 0 <= i < |calls| ==> ArgsOf(calls).entries[calls[i].key] == calls[i].value
  {
    PresentAll(calls);
    ArgsOfOrder(calls);
    ArgsOfEntries(calls);
    var m := ArgsOf(calls);
    forall i | 0 <= i < |calls| ensures m.entries[calls[i].key] == calls[i].value {
      assert !calls[i].value.IsNullish();
    }
  }

  /** The keys `searchReviewsInternal` sets, in order; no two are the same. */
  const SearchKeys: seq<string> := ["title", "author", "moderator", "creator", "states", "reviewer", "orRoles",
                                    "complete", "allReviewersComplete", "project", "fromDate", "toDate"]

  lemma SearchArgKeys(q: ReviewQuery)
    ensures KeysOf(SearchArgs(q)) == SearchKeys && Distinct(SearchKeys)
  {
    var keys := SearchKeys;
    forall i, j | 0 <= i < j < |keys| ensures keys[i] != keys[j] {
      assert |keys[i]| != |keys[j]| || keys[i][0] != keys[j][0];
    }
  }

  /**
   * The `i`-th `setArg` call of `searchReviewsInternal` is under the `i`-th
   * search key, and sets that key, to its value, exactly when the value is
   * neither `null` nor `undefined`.
   */
  lemma SearchArgEntry(q: ReviewQuery, i: int)
    requires 0 <= i < |SearchKeys|
    ensures var c, m := SearchArgs(q)[i], ArgsOf(SearchArgs(q));
      && c.key == SearchKeys[i]
      && (c.key in m.entries <==> !c.value.IsNullish())
      && (!c.value.IsNullish() ==> m.entries[c.key] == c.value)
  {
    SearchArgKeys(q);
    ArgsOfEntries(SearchArgs(q));
  }

  /** The text filters of `searchReviewsInternal`: each is set, to the given string, exactly when given. */
  lemma SearchTextArgs(q: ReviewQuery, detailed: bool)
    ensures var m := ArgsOf(SearchReviewsInternal(detailed, q).args);
      && ("title" in m.entries <==> q.title.Some?)
      && (q.title.Some? ==> m.entries["title"] == Str(q.title.value))
      && ("author" in m.entries <==> q.author.Some?)
      && (q.author.Some? ==> m.entries["author"] == Str(q.author.value))
      && ("moderator" in m.entries <==> q.moderator.Some?)
      && (q.moderator.Some? ==> m.entries["moderator"] == Str(q.moderator.value))
      && ("creator" in m.entries <==> q.creator.Some?)
      && (q.creator.Some? ==> m.entries["creator"] == Str(q.creator.value))
      && ("reviewer" in m.entries <==> q.reviewer.Some?)
      && (q.reviewer.Some? ==> m.entries["reviewer"] == Str(q.reviewer.value))
      && ("project" in m.entries <==> q.project.Some?)
      && (q.project.Some? ==> m.entries["project"] == Str(q.project.value))
  {
    SearchArgEntry(q, 0);
    SearchArgEntry(q, 1);
    SearchArgEntry(q, 2);
    SearchArgEntry(q, 3);
    SearchArgEntry(q, 5);
    SearchArgEntry(q, 9);
  }

  /** The boolean filters: each is set exactly when given, and `false` is sent as `false`. */
  lemma SearchFlagArgs(q: ReviewQuery, detailed: bool)
    ensures var m := ArgsOf(SearchReviewsInternal(detailed, q).args);
      && ("orRoles" in m.entries <==> q.orRoles.Some?)
      && (q.orRoles.Some? ==> m.entries["orRoles"] == Bool(q.orRoles.value))
      && ("complete" in m.entries <==> q.complete.Some?)
      && (q.complete.Some? ==> m.entries["complete"] == Bool(q.complete.value))
      && ("allReviewersComplete" in m.entries <==> q.allReviewersComplete.Some?)
      && (q.allReviewersComplete.Some? ==> m.entries["allReviewersComplete"] == Bool(q.allReviewersComplete.value))
  {
    SearchArgEntry(q, 6);
    SearchArgEntry(q, 7);
    SearchArgEntry(q, 8);
  }

  /**
   * The states are sent joined by `,` (an empty list as `""`), and each date
   * as its millisecond component only.
   */
  lemma SearchStateAndDateArgs(q: ReviewQuery, detailed: bool)
    ensures var m := ArgsOf(SearchReviewsInternal(detailed, q).args);
      && ("states" in m.entries <==> q.states.Some?)
      && (q.states.Some? ==> m.entries["states"] == Str(Join(StateNames(q.states.value), ",")))
      && ("fromDate" in m.entries <==> q.fromDate.Some?)
      && (q.fromDate.Some? ==> m.entries["fromDate"] == Num(Milliseconds(q.fromDate.value)))
      && ("toDate" in m.entries <==> q.toDate.Some?)
      && (q.toDate.Some? ==> m.entries["toDate"] == Num(Milliseconds(q.toDate.value)))
  {
    SearchArgEntry(q, 4);
    SearchArgEntry(q, 10);
    SearchArgEntry(q, 11);
  }

  /** The search sets no argument other than its twelve filters. */
  lemma SearchOnlyFilterKeys(q: ReviewQuery, detailed: bool)
    ensures forall k :: k in ArgsOf(SearchReviewsInternal(detailed, q).args).entries ==> k in SearchKeys
  {
    SearchArgKeys(q);
    ArgsOfKeys(SearchArgs(q));
  }

  /** `setArg` calls whose values are all `null`/`undefined` leave the map empty. */
  lemma {:induction false} OmittedArgsSetNothing(calls: seq<ArgCall>)
    requires forall i :: 0 <= i < |calls| ==> calls[i].value.IsNullish()
    ensures ArgsOf(calls) == EmptyMap
  {
    if calls != [] {
      OmittedArgsSetNothing(calls[..|calls| - 1]);
    }
  }

  /** With every filter omitted the search sets no argument... */
  lemma NoFiltersSetNothing(detailed: bool)
    ensures ArgsOf(SearchReviewsInternal(detailed, NoFilters).args) == EmptyMap
  {
    var calls := SearchArgs(NoFilters);
    assert forall i :: 0 <= i < |calls| ==> calls[i].value == Undefined;
    OmittedArgsSetNothing(calls);
  }

  /** ...so its target has no query at all. */
  lemma SearchWithoutFilters(detailed: bool)
    ensures '?' !in TargetOf(SearchReviewsInternal(detailed, NoFilters))
  {
    var r := SearchReviewsInternal(detailed, NoFilters);
    NoFiltersSetNothing(detailed);
    BasePathsDistinct(Reviews, Reviews);
    assert !SegmentHasQuestionMark(r.parts);
    QuestionMarkIffArgs(BasePath(Reviews), r.parts, EmptyMap);
  }

  /** The keys `searchChangeSets` sets, in order; no two are the same. */
  const ChangeSetKeys: seq<string> := ["path", "oldestCsid", "includeOldest", "newestCsid", "includeNewest", "max"]

  lemma ChangeSetKeysDistinct()
    ensures Distinct(ChangeSetKeys)
  {
    var keys := ChangeSetKeys;
    forall i, j | 0 <= i < j < |keys| ensures keys[i] != keys[j] {
      assert |keys[i]| != |keys[j]| || keys[i][0] != keys[j][0] || keys[i][7] != keys[j][7];
    }
  }

  /**
   * `searchChangeSets` names the path twice: as the last segment and as the
   * first query argument.
   */
  lemma SearchChangeSetsPathTwice(repository: string, path: string, oldestCsid: string, includeOldest: string,
                                  newestCsid: string, includeNewest: string, max: string)
    ensures var r := RepositoryRequest(SearchChangeSets(repository, path, oldestCsid, includeOldest, newestCsid, includeNewest, max));
      var m := ArgsOf(r.args);
      && r.parts == ["changes", repository, path]
      && m.order == ChangeSetKeys
      && m.entries["path"] == Str(path)
  {
    var calls := RepositoryRequest(SearchChangeSets(repository, path, oldestCsid, includeOldest, newestCsid, includeNewest, max)).args;
    assert |calls| == 6;
    forall i | 0 <= i < 6 ensures KeysOf(calls)[i] == ChangeSetKeys[i] && calls[i].value.Str? {
    }
    assert KeysOf(calls) == ChangeSetKeys;
    ChangeSetKeysDistinct();
    ArgsOfAllSet(calls);
    assert calls[0] == ArgCall("path", Str(path));
  }

  /** `setArg` with a one-element call list made of an array: only its last element survives. */
  lemma ArrayArgKeepsLast(key: string, items: seq<Value>)
    ensures ArgsOf([ArgCall(key, Arr(items))]) ==
      if items == [] then EmptyMap else JsMap([key], map[key := items[|items| - 1]])
  {
    assert [ArgCall(key, Arr(items))][..0] == [];
    SetArgCases(EmptyMap, key, Arr(items));
  }

  /**
   * `addRevisionsToReviewItem` and `deleteRevisionsFromReviewItem` send only
   * the last of the revisions: the query holds at most one `rev` entry.
   */
  lemma RevisionsKeepLast(reviewId: string, reviewItemId: string, revisions: seq<int>)
    ensures var add := ArgsOf(ReviewItemRequest(AddRevisionsToReviewItem(reviewId, reviewItemId, revisions)).args);
      var del := ArgsOf(ReviewItemRequest(DeleteRevisionsFromReviewItem(reviewId, reviewItemId, revisions)).args);
      && add == del
      && add == if revisions == [] then EmptyMap else JsMap(["rev"], map["rev" := Num(revisions[|revisions| - 1])])
  {
    ArrayArgKeepsLast("rev", seq(|revisions|, i requires 0 <= i < |revisions| => Num(revisions[i])));
  }

  /** `getUsers` asks for the last user name of the filter only, and for every user when the filter is empty. */
  lemma UsernameFilterKeepsLast(names: seq<string>)
    ensures ArgsOf(UserRequest(GetUsers(names)).args) ==
      if names == [] then EmptyMap else JsMap(["username"], map["username" := Str(names[|names| - 1])])
  {
    ArrayArgKeepsLast("username", seq(|names|, i requires 0 <= i < |names| => Str(names[i])));
  }

  /** `detailed` is `plain` with `details` appended as its last segment, and otherwise the same request. */
  predicate AddsDetails(plain: Request, detailed: Request) {
    detailed == plain.(parts := plain.parts + ["details"])
  }

  /** Each internal helper's detailed request is its plain one with a final `details` segment. */
  lemma DetailedVariants(filter: ReviewFilter, q: ReviewQuery, repositoryId: string, path: string,
                         reviewId: string, reviewItem: Value, state: string)
    ensures AddsDetails(FilterReviewsInternal(false, filter), FilterReviewsInternal(true, filter))
    ensures AddsDetails(SearchReviewsInternal(false, q), SearchReviewsInternal(true, q))
    ensures AddsDetails(SearchReviewForFileInternal(false, repositoryId, path),
                        SearchReviewForFileInternal(true, repositoryId, path))
    ensures AddsDetails(GetReviewInternal(false, reviewId), GetReviewInternal(true, reviewId))
    ensures AddsDetails(AddReviewReviewItemInternal(false, reviewId, reviewItem),
                        AddReviewReviewItemInternal(true, reviewId, reviewItem))
    ensures AddsDetails(ReviewListRequest(GetReviews(state)), ReviewListRequest(GetReviewsDetailed(state)))
  {
  }

  /*********************** Properties of the outcomes ***********************/

  /** Only `completeReview`, `uncompleteReview` and `changeReviewState` look for a 409 conflict body. */
  lemma TransitionEndpoints(e: Endpoint)
    ensures KindOf(e).VoidTransition? <==>
      e.ReviewApi? && (e.reviewCall.CompleteReview? || e.reviewCall.UncompleteReview?)
    ensures KindOf(e).DataTransition? <==> e.ReviewApi? && e.reviewCall.ChangeReviewState?
  {
  }

  /**
   * The facade's `getError` reads the message of the same record that
   * `Response.getError` returns for a truthy body; for an empty body the two
   * fall back to different texts, `'unknown error'` and `'Unknown error'`.
   */
  lemma FacadeErrorVsGetError(r: Response)
    ensures r.result.Truthy() ==> FacadeError(r) == r.GetError().Member("message")
    ensures !r.result.Truthy() ==> FacadeError(r) == Str(UnknownErrorMessage)
    ensures !r.result.Truthy() ==> r.GetError().Member("message") == Str(DefaultFallback) != FacadeError(r)
  {
  }

  /**
   * A failed response whose body is not an error record (a plain text, say)
   * rejects with `undefined`, the same reason a transport failure gives,
   * except for a 409 on a transition endpoint (see `TextConflictRejectsWithText`).
   */
  lemma TextErrorLooksLikeTransportFailure(e: Endpoint, status: int, text: string)
    requires text != "" && status != Ok
    requires !(status == Conflict && (KindOf(e).VoidTransition? || KindOf(e).DataTransition?))
    ensures Settle(e, Received(Response(status, Str(text)))) == Settle(e, TransportFailure) == Reject(Undefined)
  {
  }

  /** A 409 with a non-empty text body rejects a transition endpoint with that text itself. */
  lemma TextConflictRejectsWithText(e: Endpoint, text: string)
    requires text != ""
    requires KindOf(e).VoidTransition? || KindOf(e).DataTransition?
    ensures Settle(e, Received(Response(Conflict, Str(text)))) == Reject(Str(text))
  {
  }

  /** A 200 response with an empty body (or `0`, `""`, `false`) still rejects a data endpoint. */
  lemma EmptySuccessRejectsData(e: Endpoint, body: Value)
    requires KindOf(e).Data? && !body.Truthy()
    ensures Settle(e, Received(Response(Ok, body))) == Reject(Str(UnknownErrorMessage))
  {
  }

  /*********************** Findings: as written and as intended ***********************/

  /** `getReviewTransitions` sends exactly the request of `getReviewActions`. */
  lemma TransitionsSameAsActions(reviewId: string)
    ensures ReviewRequest(GetReviewTransitions(reviewId)) == ReviewRequest(GetReviewActions(reviewId))
    ensures ReviewRequest(GetReviewTransitions(reviewId)).parts == [reviewId, "actions"]
  {
  }

  /** The endpoints whose purpose is to delete or remove something. */
  predicate Removes(e: Endpoint) {
    match e
    case ReviewApi(c) => c.DeleteReview? || c.RemoveReviewPatch?
    case CommentApi(c) => c.DeleteReviewComment? || c.DeleteReviewCommentReply?
    case ReviewItemApi(c) => c.DeleteRevisionsFromReviewItem? || c.RemoveReviewItem?
    case ReviewerApi(c) => c.RemoveReviewReviewer?
    case _ => false
  }

  /**
   * `getReviewItem` sends the very request `removeReviewItem` sends, and
   * `getReviewReviewers` sends a DELETE as well: reading deletes.
   */
  lemma ReadsSentAsDelete(reviewId: string, reviewItemId: string)
    ensures var get := ReviewItemApi(GetReviewItem(reviewId, reviewItemId));
      && RequestOf(get) == RequestOf(ReviewItemApi(RemoveReviewItem(reviewId, reviewItemId)))
      && !Removes(get) && RequestOf(get).verb == Del
    ensures var get := ReviewerApi(GetReviewReviewers(reviewId));
      !Removes(get) && RequestOf(get).verb == Del
  {
  }

  /** Two search dates a whole number of seconds apart give the same request. */
  lemma SearchDatesCollide(q: ReviewQuery, t: int, k: int)
    ensures ReviewListRequest(SearchReviews(q.(fromDate := Some(t)))) == ReviewListRequest(SearchReviews(q.(fromDate := Some(t + 1000 * k))))
    ensures ReviewListRequest(SearchReviews(q.(toDate := Some(t)))) == ReviewListRequest(SearchReviews(q.(toDate := Some(t + 1000 * k))))
  {
    assert (t + 1000 * k) % 1000 == t % 1000;
  }

  /** `date.getTime()`: the timestamp itself, in milliseconds since the epoch. */
  function TimestampArg(o: Option<int>): (v: Value)
    ensures v.IsNullish() <==> o.None?
    ensures o.Some? ==> v == Num(o.value)
  {
    match o
    case None => Undefined
    case Some(t) => Num(t)
  }

  /** The search arguments with the dates sent as timestamps. */
  function IntendedSearchArgs(q: ReviewQuery): seq<ArgCall> {
    SearchArgs(q)[10 := ArgCall("fromDate", TimestampArg(q.fromDate))][11 := ArgCall("toDate", TimestampArg(q.toDate))]
  }

  /**
   * The requests the endpoints were evidently meant to make: transitions
   * from `transitions`, the two readers with GET, and the search dates as
   * timestamps.  Every other endpoint is unchanged.
   */
  function IntendedRequestOf(e: Endpoint): Request {
    match e
    case ReviewApi(GetReviewTransitions(reviewId)) => Fetch(Reviews, [reviewId, "transitions"])
    case ReviewItemApi(GetReviewItem(_, _)) => RequestOf(e).(verb := Get)
    case ReviewerApi(GetReviewReviewers(_)) => RequestOf(e).(verb := Get)
    case ReviewListApi(SearchReviews(q)) => SearchReviewsInternal(false, q).(args := IntendedSearchArgs(q))
    case ReviewListApi(SearchReviewsDetailed(q)) => SearchReviewsInternal(true, q).(args := IntendedSearchArgs(q))
    case _ => RequestOf(e)
  }

  /** Transitions and actions are two resources once the route is `transitions`. */
  lemma IntendedTransitionsRoute(reviewId: string)
    ensures IntendedRequestOf(ReviewApi(GetReviewTransitions(reviewId))).parts == [reviewId, "transitions"]
    ensures IntendedRequestOf(ReviewApi(GetReviewTransitions(reviewId))) != IntendedRequestOf(ReviewApi(GetReviewActions(reviewId)))
  {
    assert IntendedRequestOf(ReviewApi(GetReviewActions(reviewId))).parts[1] == "actions";
  }

  /** With the readers fixed, an endpoint sends a DELETE exactly when its purpose is to remove something. */
  lemma IntendedReadsUseGet(e: Endpoint)
    ensures IntendedRequestOf(e).verb == Del <==> Removes(e)
  {
  }

  /** With timestamps, searches for different dates are different requests. */
  lemma IntendedSearchDatesDistinct(q: ReviewQuery, p: ReviewQuery)
    requires IntendedRequestOf(ReviewListApi(SearchReviews(q))) == IntendedRequestOf(ReviewListApi(SearchReviews(p)))
    ensures q.fromDate == p.fromDate && q.toDate == p.toDate
  {
    assert IntendedSearchArgs(q)[10] == IntendedSearchArgs(p)[10];
    assert IntendedSearchArgs(q)[11] == IntendedSearchArgs(p)[11];
  }
}
