/**
 * Translation between article requests, article entities and the article representations,
 * including the patch rule of an update and where the publish time gets stamped.
 */
module ArticleMapper {
  import opened Outcomes
  import opened Entities
  import opened Requests
  import opened Store
  import opened Slug
  import opened Repository
  import opened Ordering
  import AuthorMapper
  import CategoryMapper
  import CommentMapper

  /** The list representation: no content and no comments, only their number. */
  datatype ArticleResponse = ArticleResponse(
    id: Id,
    title: string,
    slug: string,
    excerpt: Option<string>,
    status: ArticleStatus,
    authorId: Id,
    authorName: string,
    categoryId: Id,
    categoryName: string,
    viewCount: Int32,
    commentCount: int,
    publishedOn: Option<Instant>,
    createdOn: Instant)

  /** The detail representation: content, resolved author and category, and every comment. */
  datatype ArticleDetailResponse = ArticleDetailResponse(
    id: Id,
    title: string,
    slug: string,
    content: string,
    excerpt: Option<string>,
    status: ArticleStatus,
    author: AuthorMapper.AuthorResponse,
    category: CategoryMapper.CategoryResponse,
    comments: seq<CommentMapper.CommentResponse>,
    viewCount: Int32,
    publishedOn: Option<Instant>,
    createdOn: Instant)

  /** toEntity: a draft with no views and no publish time, its slug generated from the title. */
  function ToEntity(req: CreateArticleRequest, authorId: Id, categoryId: Id, now: Instant): (a: Article)
    ensures a.status == Draft && a.viewCount == 0 && a.publishedOn == None
    ensures a.slug == GenerateSlug(req.title) && IsSlug(a.slug)
    ensures a.title == req.title && a.content == req.content && a.excerpt == req.excerpt
    ensures a.authorId == authorId && a.categoryId == categoryId
    ensures a.createdOn == now
  {
    Article(req.title, GenerateSlug(req.title), req.content, req.excerpt, Draft, authorId, categoryId, 0, None, now)
  }

  /** The status rule of updateEntity: set as given; publish only when PUBLISHED and never published before. */
  function ApplyStatus(a: Article, status: Option<ArticleStatus>, now: Instant): (r: Article)
    ensures SameContent(a, r) && r.viewCount == a.viewCount
    ensures r.status == Patch(status, a.status)
    ensures status == Some(Published) && a.publishedOn.None? ==> r.publishedOn == Some(now)
    ensures !(status == Some(Published) && a.publishedOn.None?) ==> r.publishedOn == a.publishedOn
  {
    if status.None? then a
    else
      var withStatus := a.(status := status.value);
      if status.value == Published && withStatus.publishedOn.None? then Publish(withStatus, now) else withStatus
  }

  /**
   * updateEntity: patch semantics for title, excerpt, content, category and status. A new title
   * also regenerates the slug. The status is set as given, so PUBLISHED can go back to DRAFT;
   * the publish time is stamped only when the new status is PUBLISHED and no time was set yet.
   */
  function UpdateEntity(a: Article, req: UpdateArticleRequest, category: Option<Id>, now: Instant): (r: Article)
    ensures req.title.None? ==> r.title == a.title && r.slug == a.slug
    ensures req.title.Some? ==> r.title == req.title.value && r.slug == GenerateSlug(req.title.value)
    ensures req.excerpt.None? ==> r.excerpt == a.excerpt
    ensures req.excerpt.Some? ==> r.excerpt == req.excerpt
    ensures r.content == Patch(req.content, a.content)
    ensures r.categoryId == Patch(category, a.categoryId)
    ensures r.status == Patch(req.status, a.status)
    ensures req.status == Some(Published) && a.publishedOn.None? ==> r.publishedOn == Some(now)
    ensures !(req.status == Some(Published) && a.publishedOn.None?) ==> r.publishedOn == a.publishedOn
    ensures r.authorId == a.authorId && r.viewCount == a.viewCount && r.createdOn == a.createdOn
  {
    var patched := a.(
      title := Patch(req.title, a.title),
      slug := if req.title.Some? then GenerateSlug(req.title.value) else a.slug,
      excerpt := if req.excerpt.Some? then req.excerpt else a.excerpt,
      content := Patch(req.content, a.content),
      categoryId := Patch(category, a.categoryId));
    ApplyStatus(patched, req.status, now)
  }

  /** An update request with every field absent, and no new category, changes nothing. */
  lemma EmptyUpdateIsIdentity(a: Article, now: Instant)
    ensures UpdateEntity(a, UpdateArticleRequest(None, None, None, None, None), None, now) == a
  {
  }

  /** Publishing through an update keeps the first publish time: a second one does not move it. */
  lemma UpdatePublishKeepsFirstTime(a: Article, t1: Instant, t2: Instant)
    requires a.publishedOn.None?
    ensures
      var req := UpdateArticleRequest(None, None, None, None, Some(Published));
      var once := UpdateEntity(a, req, None, t1);
      var twice := UpdateEntity(once, req, None, t2);
      once.publishedOn == Some(t1) && twice.publishedOn == Some(t1) && twice.status == Published
  {
  }

  /** An update can send a published article back to DRAFT; its publish time stays. */
  lemma UpdateCanUnpublish(a: Article, now: Instant)
    requires a.status == Published
    ensures
      var r := UpdateEntity(a, UpdateArticleRequest(None, None, None, None, Some(Draft)), None, now);
      r.status == Draft && r.publishedOn == a.publishedOn
  {
  }

  /** toResponse: the stored fields, the author's and category's names, and the number of comments. */
  function ToResponse(s: Store, id: Id): (r: ArticleResponse)
    requires Resolves(s, id)
    ensures r.id == id
    ensures r.title == s.articles[id].title && r.slug == s.articles[id].slug && r.excerpt == s.articles[id].excerpt
    ensures r.status == s.articles[id].status && r.viewCount == s.articles[id].viewCount
    ensures r.publishedOn == s.articles[id].publishedOn && r.createdOn == s.articles[id].createdOn
    ensures r.authorId == s.articles[id].authorId && r.authorName == s.authors[r.authorId].name
    ensures r.categoryId == s.articles[id].categoryId && r.categoryName == s.categories[r.categoryId].name
    ensures r.commentCount == |set c | c in s.comments && s.comments[c].articleId == id|
  {
    var a := s.articles[id];
    ArticleResponse(
      id, a.title, a.slug, a.excerpt, a.status,
      a.authorId, s.authors[a.authorId].name,
      a.categoryId, s.categories[a.categoryId].name,
      a.viewCount, |CommentsOf(s, id)|, a.publishedOn, a.createdOn)
  }

  /** The list representations of a sequence of articles, in order. */
  function ToResponses(s: Store, ids: seq<Id>): (r: seq<ArticleResponse>)
    requires forall i :: 0 <= i < |ids| ==> Resolves(s, ids[i])
    ensures |r| == |ids|
    ensures forall i :: 0 <= i < |ids| ==> r[i] == ToResponse(s, ids[i])
  {
    seq(|ids|, i requires 0 <= i < |ids| => ToResponse(s, ids[i]))
  }

  /**
   * toDetailResponse: the stored fields, the author's and category's own representations, and
   * the representation of every comment on the article, each exactly once.
   */
  function ToDetailResponse(s: Store, id: Id): (r: ArticleDetailResponse)
    requires Valid(s) && id in s.articles
    ensures r.id == id && r.title == s.articles[id].title && r.slug == s.articles[id].slug
    ensures r.content == s.articles[id].content && r.excerpt == s.articles[id].excerpt && r.status == s.articles[id].status
    ensures r.viewCount == s.articles[id].viewCount && r.publishedOn == s.articles[id].publishedOn
    ensures r.createdOn == s.articles[id].createdOn
    ensures r.author == AuthorMapper.ToResponse(s, s.articles[id].authorId)
    ensures r.category == CategoryMapper.ToResponse(s, s.articles[id].categoryId)
    ensures forall k :: 0 <= k < |r.comments| ==>
      r.comments[k].id in s.comments && r.comments[k] == CommentMapper.ToResponse(s, r.comments[k].id) && r.comments[k].articleId == id
    ensures forall c :: c in CommentMapper.Ids(r.comments) <==> c in s.comments && s.comments[c].articleId == id
    ensures forall i, j :: 0 <= i < j < |r.comments| ==> r.comments[i].id != r.comments[j].id
    ensures |r.comments| == |CommentsOf(s, id)|
  {
    var a := s.articles[id];
    var ids := CommentList(s, id);
    assert CommentMapper.Ids(CommentMapper.ToResponses(s, ids)) == ids;
    DistinctIndices(ids);
    ArticleDetailResponse(
      id, a.title, a.slug, a.content, a.excerpt, a.status,
      AuthorMapper.ToResponse(s, a.authorId),
      CategoryMapper.ToResponse(s, a.categoryId),
      CommentMapper.ToResponses(s, ids),
      a.viewCount, a.publishedOn, a.createdOn)
  }

  /**
   * The ids of a list of representations, in order. Each representation type carries its own id
   * field, so each mapper has its own projection, as it has its own ToResponses.
   */
  function Ids(rs: seq<ArticleResponse>): (ids: seq<Id>)
    ensures |ids| == |rs|
    ensures forall i :: 0 <= i < |rs| ==> ids[i] == rs[i].id
  {
    seq(|rs|, i requires 0 <= i < |rs| => rs[i].id)
  }
}
