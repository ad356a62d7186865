/** Translation between comment requests, comment entities and the comment representation. */
module CommentMapper {
  import opened Outcomes
  import opened Entities
  import opened Requests
  import opened Store

  datatype CommentResponse = CommentResponse(
    id: Id,
    articleId: Id,
    authorName: string,
    authorEmail: string,
    content: string,
    approved: bool,
    createdOn: Instant)

  /** toEntity: a new comment is linked to its article, copies the request and always starts unapproved. */
  function ToEntity(req: CreateCommentRequest, articleId: Id, now: Instant): (c: Comment)
    ensures !c.approved
    ensures c.articleId == articleId
    ensures c.authorName == req.authorName && c.authorEmail == req.authorEmail && c.content == req.content
    ensures c.createdOn == now
  {
    Comment(articleId, req.authorName, req.authorEmail, req.content, false, now)
  }

  /** toResponse: the owning article's id and the stored fields, approved flag included. */
  function ToResponse(s: Store, id: Id): (r: CommentResponse)
    requires id in s.comments
    ensures r.id == id && r.articleId == s.comments[id].articleId
    ensures r.approved == s.comments[id].approved
    ensures r.content == s.comments[id].content
    ensures r.authorName == s.comments[id].authorName && r.authorEmail == s.comments[id].authorEmail
    ensures r.createdOn == s.comments[id].createdOn
  {
    var c := s.comments[id];
    CommentResponse(id, c.articleId, c.authorName, c.authorEmail, c.content, c.approved, c.createdOn)
  }

  /** The representations of a list of comments, in the list's order. */
  function ToResponses(s: Store, ids: seq<Id>): (r: seq<CommentResponse>)
    requires forall i :: 0 <= i < |ids| ==> ids[i] in s.comments
    ensures |r| == |ids|
    ensures forall i :: 0 <= i < |ids| ==> r[i] == ToResponse(s, ids[i])
  {
    seq(|ids|, i requires 0 <= i < |ids| => ToResponse(s, ids[i]))
  }

  /**
   * The ids of a list of representations, in order. Each representation type carries its own id
   * field, so each mapper has its own projection, as it has its own ToResponses.
   */
  function Ids(rs: seq<CommentResponse>): (ids: seq<Id>)
    ensures |ids| == |rs|
    ensures forall i :: 0 <= i < |rs| ==> ids[i] == rs[i].id
  {
    seq(|rs|, i requires 0 <= i < |rs| => rs[i].id)
  }
}
