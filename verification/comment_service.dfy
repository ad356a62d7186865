/**
 * The comment use cases: comment on an existing article, look up, list an article's comments
 * (all of them, or only the approved ones) newest first, approve, and delete.
 */
module CommentService {
  import opened Outcomes
  import opened Entities
  import opened Requests
  import opened Store
  import opened Ordering
  import opened Repository
  import opened Paging
  import opened CommentMapper

  /** The stored comment, or NotFound on its id. */
  function FindComment(s: Store, id: Id): (r: Result<Comment>)
    ensures r.Ok? <==> id in s.comments
    ensures r.Ok? ==> r.value == s.comments[id]
    ensures r.Err? ==> r.error == NotFound("Comment", "id", IdKey(id))
  {
    if id in s.comments then Ok(s.comments[id]) else Err(NotFound("Comment", "id", IdKey(id)))
  }

  /**
   * createComment: NotFound when the article does not exist; otherwise exactly one comment is
   * added under a fresh id, linked to the article and awaiting moderation.
   */
  function CreateComment(s: Store, req: CreateCommentRequest, now: Instant): (r: Result<(Store, CommentResponse)>)
    requires Valid(s)
    ensures r.Err? <==> req.articleId !in s.articles
    ensures r.Err? ==> r.error == NotFound("Article", "id", IdKey(req.articleId))
    ensures r.Ok? ==> Valid(r.value.0)
    ensures r.Ok? ==> r.value.1.id !in s.comments
    ensures r.Ok? ==>
      r.value.0.comments == s.comments[r.value.1.id := Comment(req.articleId, req.authorName, req.authorEmail, req.content, false, now)]
    ensures r.Ok? ==> r.value.0.authors == s.authors && r.value.0.categories == s.categories && r.value.0.articles == s.articles
    ensures r.Ok? ==> r.value.1.articleId == req.articleId && !r.value.1.approved
  {
    if req.articleId !in s.articles then Err(NotFound("Article", "id", IdKey(req.articleId)))
    else
      var inserted := InsertComment(s, CommentMapper.ToEntity(req, req.articleId, now));
      var t := inserted.0;
      var id := inserted.1;
      assert id !in s.comments;
      Ok((t, ToResponse(t, id)))
  }

  /** getCommentById: the comment's representation, or NotFound on its id. */
  function GetCommentById(s: Store, id: Id): (r: Result<CommentResponse>)
    ensures r.Ok? <==> id in s.comments
    ensures r.Ok? ==> r.value.id == id && r.value.articleId == s.comments[id].articleId && r.value.approved == s.comments[id].approved
    ensures r.Ok? ==> r.value.content == s.comments[id].content && r.value.createdOn == s.comments[id].createdOn
    ensures r.Ok? ==> r.value.authorName == s.comments[id].authorName && r.value.authorEmail == s.comments[id].authorEmail
    ensures r.Err? ==> r.error == NotFound("Comment", "id", IdKey(id))
  {
    var _ :- FindComment(s, id);
    Ok(ToResponse(s, id))
  }

  /**
   * The page'th window of an ordered, duplicate-free list of comments, each mapped to its
   * representation: the entries are the list's elements page * size onwards, at most size of
   * them, none twice, each satisfying keep, in the list's newest-first order.
   */
  function ResponsePage(s: Store, all: seq<Id>, keep: Comment -> bool, page: nat, size: nat): (r: PageResponse<CommentResponse>)
    requires size >= 1 && Distinct(all)
    requires forall i :: 0 <= i < |all| ==> all[i] in s.comments && keep(s.comments[all[i]])
    requires forall i, j :: 0 <= i < j < |all| ==> s.comments[all[i]].createdOn >= s.comments[all[j]].createdOn
    ensures r.totalElements == |all| && r.pageNumber == page && r.pageSize == size
    ensures r.totalPages == PageCount(|all|, size)
    ensures (r.first <==> page == 0) && (r.last <==> ReachesEnd(page, size, |all|))
    ensures Ids(r.content) == Window(all, page, size)
    ensures forall k :: 0 <= k < |r.content| ==>
      r.content[k].id in s.comments && r.content[k] == ToResponse(s, r.content[k].id) && keep(s.comments[r.content[k].id])
    ensures forall i, j :: 0 <= i < j < |r.content| ==> r.content[i].id != r.content[j].id
    ensures forall i, j :: 0 <= i < j < |r.content| ==> r.content[i].createdOn >= r.content[j].createdOn
  {
    var p := PageOf(all, page, size);
    var r := BuildPageResponse(p, ToResponses(s, p.content));
    assert Ids(r.content) == p.content;
    DistinctIndices(all);
    forall i, j | 0 <= i < j < |r.content|
      ensures r.content[i].id != r.content[j].id && r.content[i].createdOn >= r.content[j].createdOn
    {
      assert r.content[i].id == all[page * size + i];
      assert r.content[j].id == all[page * size + j];
    }
    r
  }

  /**
   * getCommentsByArticle: NotFound on a missing article, then an invalid page request is refused;
   * otherwise a page of the article's comments, approved or not, newest first.
   */
  function GetCommentsByArticle(s: Store, articleId: Id, page: int, size: int): (r: Result<PageResponse<CommentResponse>>)
    requires Valid(s)
    ensures articleId !in s.articles ==> r == Err(NotFound("Article", "id", IdKey(articleId)))
    ensures articleId in s.articles ==> (r.Ok? <==> page >= 0 && size >= 1)
    ensures articleId in s.articles && r.Err? ==> r.error == InvalidPageRequest(page, size)
    ensures r.Ok? ==> r.value.totalElements == |CommentsOf(s, articleId)| && r.value.pageNumber == page && r.value.pageSize == size
    ensures r.Ok? ==> r.value.totalPages == PageCount(r.value.totalElements, size)
    ensures r.Ok? ==> (r.value.first <==> page == 0) && (r.value.last <==> ReachesEnd(page, size, r.value.totalElements))
    ensures r.Ok? ==> Ids(r.value.content) == Window(FindCommentsByArticleId(s, articleId), page, size)
    ensures r.Ok? ==> forall k :: 0 <= k < |r.value.content| ==>
      r.value.content[k].id in s.comments && r.value.content[k] == ToResponse(s, r.value.content[k].id) &&
      r.value.content[k].articleId == articleId
    ensures r.Ok? ==> forall i, j :: 0 <= i < j < |r.value.content| ==> r.value.content[i].id != r.value.content[j].id
    ensures r.Ok? ==> forall i, j :: 0 <= i < j < |r.value.content| ==>
      r.value.content[i].createdOn >= r.value.content[j].createdOn
  {
    if articleId !in s.articles then Err(NotFound("Article", "id", IdKey(articleId)))
    else
      var (p, n) :- PageRequest(page, size);
      Ok(ResponsePage(s, FindCommentsByArticleId(s, articleId), OnArticle(articleId), p, n))
  }

  /**
   * getApprovedCommentsByArticle: as getCommentsByArticle, but only the comments a moderator
   * approved are listed and counted.
   */
  function GetApprovedCommentsByArticle(s: Store, articleId: Id, page: int, size: int): (r: Result<PageResponse<CommentResponse>>)
    requires Valid(s)
    ensures articleId !in s.articles ==> r == Err(NotFound("Article", "id", IdKey(articleId)))
    ensures articleId in s.articles ==> (r.Ok? <==> page >= 0 && size >= 1)
    ensures articleId in s.articles && r.Err? ==> r.error == InvalidPageRequest(page, size)
    ensures r.Ok? ==> r.value.totalElements == |CommentsWithApproval(s, articleId, true)| && r.value.pageNumber == page && r.value.pageSize == size
    ensures r.Ok? ==> r.value.totalPages == PageCount(r.value.totalElements, size)
    ensures r.Ok? ==> (r.value.first <==> page == 0) && (r.value.last <==> ReachesEnd(page, size, r.value.totalElements))
    ensures r.Ok? ==> Ids(r.value.content) == Window(FindCommentsByArticleIdAndApproved(s, articleId, true), page, size)
    ensures r.Ok? ==> forall k :: 0 <= k < |r.value.content| ==>
      r.value.content[k].id in s.comments && r.value.content[k] == ToResponse(s, r.value.content[k].id) &&
      r.value.content[k].articleId == articleId && r.value.content[k].approved
    ensures r.Ok? ==> forall i, j :: 0 <= i < j < |r.value.content| ==> r.value.content[i].id != r.value.content[j].id
    ensures r.Ok? ==> forall i, j :: 0 <= i < j < |r.value.content| ==>
      r.value.content[i].createdOn >= r.value.content[j].createdOn
  {
    if articleId !in s.articles then Err(NotFound("Article", "id", IdKey(articleId)))
    else
      var (p, n) :- PageRequest(page, size);
      Ok(ResponsePage(s, FindCommentsByArticleIdAndApproved(s, articleId, true), OnArticleWithApproval(articleId, true), p, n))
  }

  /** approveComment: NotFound on a missing id; otherwise only that comment changes, to approved. */
  function ApproveComment(s: Store, id: Id): (r: Result<(Store, CommentResponse)>)
    requires Valid(s)
    ensures r.Err? <==> id !in s.comments
    ensures r.Err? ==> r.error == NotFound("Comment", "id", IdKey(id))
    ensures r.Ok? ==> Valid(r.value.0)
    ensures r.Ok? ==> r.value.0 == s.(comments := s.comments[id := s.comments[id].(approved := true)])
    ensures r.Ok? ==> r.value.1.id == id && r.value.1.approved
  {
    var c :- FindComment(s, id);
    var t := s.(comments := s.comments[id := c.(approved := true)]);
    Ok((t, ToResponse(t, id)))
  }

  /** deleteComment: NotFound on a missing id; otherwise only that comment is removed. */
  function DeleteComment(s: Store, id: Id): (r: Result<Store>)
    requires Valid(s)
    ensures r.Err? <==> id !in s.comments
    ensures r.Err? ==> r.error == NotFound("Comment", "id", IdKey(id))
    ensures r.Ok? ==> Valid(r.value) && id !in r.value.comments
    ensures r.Ok? ==> r.value == s.(comments := s.comments - {id})
  {
    var _ :- FindComment(s, id);
    Ok(RemoveComment(s, id))
  }

  /** Approving an approved comment again leaves the store as the first approval left it. */
  lemma ApproveIsIdempotent(s: Store, id: Id)
    requires Valid(s) && id in s.comments
    ensures ApproveComment(s, id).Ok?
    ensures ApproveComment(ApproveComment(s, id).value.0, id).Ok?
    ensures ApproveComment(ApproveComment(s, id).value.0, id).value.0 == ApproveComment(s, id).value.0
  {
  }

  /** A created comment can be read back, unapproved, under the id the creation returned. */
  lemma CreatedCommentReadsBack(s: Store, req: CreateCommentRequest, now: Instant)
    requires Valid(s) && req.articleId in s.articles
    ensures CreateComment(s, req, now).Ok?
    ensures
      var (t, created) := CreateComment(s, req, now).value;
      GetCommentById(t, created.id) == Ok(created) && !created.approved
  {
  }

  /** After a comment is deleted its lookup is NotFound. */
  lemma DeletedCommentIsGone(s: Store, id: Id)
    requires Valid(s) && id in s.comments
    ensures DeleteComment(s, id).Ok?
    ensures GetCommentById(DeleteComment(s, id).value, id) == Err(NotFound("Comment", "id", IdKey(id)))
  {
  }

  /**
   * Moderation: a new comment is listed among its article's comments but not among the approved
   * ones; once approved it is listed among the approved ones as well.
   */
  lemma {:induction false} ModerationGatesApprovedListing(s: Store, req: CreateCommentRequest, now: Instant)
    requires Valid(s) && req.articleId in s.articles
    ensures CreateComment(s, req, now).Ok?
    ensures
      var (t, created) := CreateComment(s, req, now).value;
      && created.id in FindCommentsByArticleId(t, req.articleId)
      && created.id !in FindCommentsByArticleIdAndApproved(t, req.articleId, true)
      && ApproveComment(t, created.id).Ok?
      && created.id in FindCommentsByArticleIdAndApproved(ApproveComment(t, created.id).value.0, req.articleId, true)
  {
    var (t, created) := CreateComment(s, req, now).value;
    FindCommentsByArticleIdComplete(t, req.articleId);
    FindCommentsByArticleIdAndApprovedComplete(t, req.articleId, true);
    var u := ApproveComment(t, created.id).value.0;
    FindCommentsByArticleIdAndApprovedComplete(u, req.articleId, true);
  }

  /** Paging loses no comment: every comment of an article is listed on some page, whatever the page size. */
  lemma {:induction false} EveryCommentIsOnSomePage(s: Store, articleId: Id, c: Id, size: int)
    requires Valid(s) && articleId in s.articles && size >= 1
    requires c in s.comments && s.comments[c].articleId == articleId
    ensures exists page: nat ::
      GetCommentsByArticle(s, articleId, page, size).Ok? && c in Ids(GetCommentsByArticle(s, articleId, page, size).value.content)
  {
    var all := FindCommentsByArticleId(s, articleId);
    FindCommentsByArticleIdComplete(s, articleId);
    var k :| 0 <= k < |all| && all[k] == c;
    EveryElementOnItsPage(all, size, k);
    var page: nat, entry := k / size, k % size;
    var w := Window(all, page, size);
    assert entry < |w| && w[entry] == c;
    var r := GetCommentsByArticle(s, articleId, page, size);
    assert r.Ok? && Ids(r.value.content) == w;
    assert Ids(r.value.content)[entry] == c;
  }
}
