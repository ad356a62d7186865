/**
 * The article use cases: create (resolving author and category, refusing a taken slug), look up
 * by id or slug, count a view, list pages (all, by status, by author, by category, by keyword),
 * patch, publish and delete.
 */
module ArticleService {
  import opened Outcomes
  import opened Entities
  import opened Requests
  import opened Store
  import opened Ordering
  import opened Slug
  import opened Repository
  import opened Paging
  import opened ArticleMapper
  import AuthorService
  import CategoryService

  /** articleRepository.findById(id).orElseThrow(...): the stored article, or NotFound on its id. */
  function FindArticle(s: Store, id: Id): (r: Result<Article>)
    ensures r.Ok? <==> id in s.articles
    ensures r.Ok? ==> r.value == s.articles[id]
    ensures r.Err? ==> r.error == NotFound("Article", "id", IdKey(id))
  {
    if id in s.articles then Ok(s.articles[id]) else Err(NotFound("Article", "id", IdKey(id)))
  }

  /**
   * createArticle: NotFound when the author is missing, then when the category is missing;
   * DuplicateResource when the slug generated from the title is taken; otherwise exactly one
   * article is added under a fresh id: a draft with no views and no publish time.
   */
  function CreateArticle(s: Store, req: CreateArticleRequest, now: Instant): (r: Result<(Store, ArticleResponse)>)
    requires Valid(s)
    ensures req.authorId !in s.authors ==> r == Err(NotFound("Author", "id", IdKey(req.authorId)))
    ensures req.authorId in s.authors && req.categoryId !in s.categories ==>
      r == Err(NotFound("Category", "id", IdKey(req.categoryId)))
    ensures req.authorId in s.authors && req.categoryId in s.categories ==>
      (r.Err? <==> ExistsBySlug(s, GenerateSlug(req.title)))
    ensures req.authorId in s.authors && req.categoryId in s.categories && r.Err? ==>
      r.error == DuplicateResource("Article", "slug", TextKey(GenerateSlug(req.title)))
    ensures r.Ok? ==> Valid(r.value.0)
    ensures r.Ok? ==> r.value.1.id !in s.articles
    ensures r.Ok? ==> r.value.0.articles == s.articles[r.value.1.id := ToEntity(req, req.authorId, req.categoryId, now)]
    ensures r.Ok? ==> r.value.0.authors == s.authors && r.value.0.categories == s.categories && r.value.0.comments == s.comments
    ensures r.Ok? ==> r.value.1.status == Draft && r.value.1.viewCount == 0 && r.value.1.publishedOn == None
    ensures r.Ok? ==> r.value.1.slug == GenerateSlug(req.title) && r.value.1.commentCount == 0
  {
    var author :- AuthorService.GetAuthorEntityById(s, req.authorId);
    var category :- CategoryService.GetCategoryEntityById(s, req.categoryId);
    var article := ToEntity(req, req.authorId, req.categoryId, now);
    if ExistsBySlug(s, article.slug) then Err(DuplicateResource("Article", "slug", TextKey(article.slug)))
    else
      var saved := InsertArticle(s, article);
      assert saved.Ok?;
      var (t, id) := saved.value;
      assert id !in s.articles;
      assert CommentsOf(t, id) == {} by {
        forall c | c in t.comments ensures t.comments[c].articleId != id {
          assert t.comments[c].articleId in s.articles;
        }
      }
      Ok((t, ToResponse(t, id)))
  }

  /** getArticleById: the article's detail representation, or NotFound on its id. */
  function GetArticleById(s: Store, id: Id): (r: Result<ArticleDetailResponse>)
    requires Valid(s)
    ensures r.Ok? <==> id in s.articles
    ensures r.Err? ==> r.error == NotFound("Article", "id", IdKey(id))
    ensures r.Ok? ==> r.value == ToDetailResponse(s, id)
    ensures r.Ok? ==> r.value.id == id && r.value.slug == s.articles[id].slug && r.value.content == s.articles[id].content
  {
    var _ :- FindArticle(s, id);
    Ok(ToDetailResponse(s, id))
  }

  /** getArticleBySlug: the detail representation of the one article holding slug, or NotFound on the slug. */
  function GetArticleBySlug(s: Store, slug: string): (r: Result<ArticleDetailResponse>)
    requires Valid(s)
    ensures r.Ok? <==> ExistsBySlug(s, slug)
    ensures r.Err? ==> r.error == NotFound("Article", "slug", TextKey(slug))
    ensures r.Ok? ==> r.value.slug == slug && r.value.id in s.articles && s.articles[r.value.id].slug == slug
    ensures r.Ok? ==> r.value == ToDetailResponse(s, r.value.id)
  {
    match FindBySlug(s, slug)
    case None => Err(NotFound("Article", "slug", TextKey(slug)))
    case Some(id) => Ok(ToDetailResponse(s, id))
  }

  /** incrementViewCount: NotFound on a missing id; otherwise only that article's view counter moves. */
  function IncrementViewCount(s: Store, id: Id): (r: Result<Store>)
    requires Valid(s)
    ensures r.Ok? <==> id in s.articles
    ensures r.Err? ==> r.error == NotFound("Article", "id", IdKey(id))
    ensures r.Ok? ==> Valid(r.value)
    ensures r.Ok? ==> r.value == s.(articles := s.articles[id := Entities.IncrementViewCount(s.articles[id])])
  {
    var article :- FindArticle(s, id);
    var saved := SaveArticle(s, id, Entities.IncrementViewCount(article));
    assert saved.Ok?;
    saved
  }

  /**
   * The page'th window of an ordered list of articles that all satisfy keep, each mapped to its
   * list representation; the window keeps the list's order and its elements still satisfy keep.
   */
  function ResponsePage(s: Store, all: seq<Id>, keep: Article -> bool, key: Article -> int, ascending: bool, page: nat, size: nat): (r: PageResponse<ArticleResponse>)
    requires size >= 1 && Distinct(all)
    requires forall i :: 0 <= i < |all| ==> all[i] in s.articles
    requires forall i :: 0 <= i < |all| ==> Resolves(s, all[i]) && keep(s.articles[all[i]])
    requires forall i, j :: 0 <= i < j < |all| ==>
      if ascending then key(s.articles[all[i]]) <= key(s.articles[all[j]])
      else key(s.articles[all[i]]) >= key(s.articles[all[j]])
    ensures r.totalElements == |all| && r.pageNumber == page && r.pageSize == size
    ensures r.totalPages == PageCount(|all|, size)
    ensures (r.first <==> page == 0) && (r.last <==> ReachesEnd(page, size, |all|))
    ensures Ids(r.content) == Window(all, page, size)
    ensures forall i, j :: 0 <= i < j < |r.content| ==> r.content[i].id != r.content[j].id
    ensures forall k :: 0 <= k < |r.content| ==> r.content[k].id in s.articles
    ensures forall k :: 0 <= k < |r.content| ==>
      Resolves(s, r.content[k].id) && r.content[k] == ToResponse(s, r.content[k].id) && keep(s.articles[r.content[k].id])
    ensures forall i, j :: 0 <= i < j < |r.content| ==>
      if ascending then key(s.articles[r.content[i].id]) <= key(s.articles[r.content[j].id])
      else key(s.articles[r.content[i].id]) >= key(s.articles[r.content[j].id])
  {
    var p := PageOf(all, page, size);
    var r := BuildPageResponse(p, ToResponses(s, p.content));
    assert Ids(r.content) == p.content;
    DistinctIndices(all);
    forall i, j | 0 <= i < j < |r.content|
      ensures r.content[i].id != r.content[j].id && (if ascending then key(s.articles[r.content[i].id]) <= key(s.articles[r.content[j].id])
        else key(s.articles[r.content[i].id]) >= key(s.articles[r.content[j].id]))
    {
      assert r.content[i].id == all[page * size + i];
      assert r.content[j].id == all[page * size + j];
    }
    r
  }

  /** Under the store's integrity every listed article resolves. */
  lemma ListedResolve(s: Store, all: seq<Id>)
    requires Valid(s)
    requires forall i :: 0 <= i < |all| ==> all[i] in s.articles
    ensures forall i :: 0 <= i < |all| ==> Resolves(s, all[i])
  {
  }

  /**
   * getAllArticles: the page'th window of all articles ordered by key, ascending when sortDir
   * equals "asc" ignoring case and descending otherwise; an invalid page request is refused.
   */
  function GetAllArticles(s: Store, page: int, size: int, key: Article -> int, sortDir: string): (r: Result<PageResponse<ArticleResponse>>)
    requires Valid(s)
    ensures r.Ok? <==> page >= 0 && size >= 1
    ensures r.Err? ==> r.error == InvalidPageRequest(page, size)
    ensures r.Ok? ==> r.value.totalElements == |s.articles| && r.value.pageNumber == page && r.value.pageSize == size
    ensures r.Ok? ==> r.value.totalPages == PageCount(r.value.totalElements, size)
    ensures r.Ok? ==> (r.value.first <==> page == 0) && (r.value.last <==> ReachesEnd(page, size, r.value.totalElements))
    ensures r.Ok? ==> Ids(r.value.content) == Window(FindAll(s.articles, s.nextArticleId, key, SortDirection(sortDir) == Ascending), page, size)
    ensures r.Ok? ==> forall i, j :: 0 <= i < j < |r.value.content| ==> r.value.content[i].id != r.value.content[j].id
    ensures r.Ok? ==> forall k :: 0 <= k < |r.value.content| ==>
      r.value.content[k].id in s.articles && Resolves(s, r.value.content[k].id) && r.value.content[k] == ToResponse(s, r.value.content[k].id)
    ensures r.Ok? ==> forall i, j :: 0 <= i < j < |r.value.content| ==>
      if SortDirection(sortDir) == Ascending
      then key(s.articles[r.value.content[i].id]) <= key(s.articles[r.value.content[j].id])
      else key(s.articles[r.value.content[i].id]) >= key(s.articles[r.value.content[j].id])
  {
    var (p, n) :- PageRequest(page, size);
    var ascending := SortDirection(sortDir) == Ascending;
    var all := FindAll(s.articles, s.nextArticleId, key, ascending);
    ListedResolve(s, all);
    Ok(ResponsePage(s, all, (a: Article) => true, key, ascending, p, n))
  }

  /** getArticlesByStatus: a page of the articles with that status, newest first. */
  function GetArticlesByStatus(s: Store, status: ArticleStatus, page: int, size: int): (r: Result<PageResponse<ArticleResponse>>)
    requires Valid(s)
    ensures r.Ok? <==> page >= 0 && size >= 1
    ensures r.Err? ==> r.error == InvalidPageRequest(page, size)
    ensures r.Ok? ==> r.value.totalElements == |ArticlesWithStatus(s, status)| && r.value.pageNumber == page && r.value.pageSize == size
    ensures r.Ok? ==> r.value.totalPages == PageCount(r.value.totalElements, size)
    ensures r.Ok? ==> (r.value.first <==> page == 0) && (r.value.last <==> ReachesEnd(page, size, r.value.totalElements))
    ensures r.Ok? ==> Ids(r.value.content) == Window(FindByStatus(s, status), page, size)
    ensures r.Ok? ==> forall i, j :: 0 <= i < j < |r.value.content| ==> r.value.content[i].id != r.value.content[j].id
    ensures r.Ok? ==> forall k :: 0 <= k < |r.value.content| ==>
      r.value.content[k].id in s.articles && Resolves(s, r.value.content[k].id) && r.value.content[k] == ToResponse(s, r.value.content[k].id) &&
      s.articles[r.value.content[k].id].status == status
    ensures r.Ok? ==> forall i, j :: 0 <= i < j < |r.value.content| ==>
      r.value.content[i].createdOn >= r.value.content[j].createdOn
  {
    var (p, n) :- PageRequest(page, size);
    var all := FindByStatus(s, status);
    ListedResolve(s, all);
    Ok(ResponsePage(s, all, HasStatus(status), CreatedOn, false, p, n))
  }

  /** getArticlesByAuthor: NotFound on a missing author, then a page of the author's articles, newest first. */
  function GetArticlesByAuthor(s: Store, authorId: Id, page: int, size: int): (r: Result<PageResponse<ArticleResponse>>)
    requires Valid(s)
    ensures authorId !in s.authors ==> r == Err(NotFound("Author", "id", IdKey(authorId)))
    ensures authorId in s.authors ==> (r.Ok? <==> page >= 0 && size >= 1)
    ensures authorId in s.authors && r.Err? ==> r.error == InvalidPageRequest(page, size)
    ensures r.Ok? ==> r.value.totalElements == |ArticlesOfAuthor(s, authorId)| && r.value.pageNumber == page && r.value.pageSize == size
    ensures r.Ok? ==> r.value.totalPages == PageCount(r.value.totalElements, size)
    ensures r.Ok? ==> (r.value.first <==> page == 0) && (r.value.last <==> ReachesEnd(page, size, r.value.totalElements))
    ensures r.Ok? ==> Ids(r.value.content) == Window(FindByAuthorId(s, authorId), page, size)
    ensures r.Ok? ==> forall i, j :: 0 <= i < j < |r.value.content| ==> r.value.content[i].id != r.value.content[j].id
    ensures r.Ok? ==> forall k :: 0 <= k < |r.value.content| ==>
      r.value.content[k].id in s.articles && Resolves(s, r.value.content[k].id) && r.value.content[k] == ToResponse(s, r.value.content[k].id) &&
      s.articles[r.value.content[k].id].authorId == authorId
    ensures r.Ok? ==> forall i, j :: 0 <= i < j < |r.value.content| ==>
      r.value.content[i].createdOn >= r.value.content[j].createdOn
  {
    var _ :- AuthorService.GetAuthorEntityById(s, authorId);
    var (p, n) :- PageRequest(page, size);
    var all := FindByAuthorId(s, authorId);
    ListedResolve(s, all);
    Ok(ResponsePage(s, all, ByAuthor(authorId), CreatedOn, false, p, n))
  }

  /** getArticlesByCategory: NotFound on a missing category, then a page of its articles, newest first. */
  function GetArticlesByCategory(s: Store, categoryId: Id, page: int, size: int): (r: Result<PageResponse<ArticleResponse>>)
    requires Valid(s)
    ensures categoryId !in s.categories ==> r == Err(NotFound("Category", "id", IdKey(categoryId)))
    ensures categoryId in s.categories ==> (r.Ok? <==> page >= 0 && size >= 1)
    ensures categoryId in s.categories && r.Err? ==> r.error == InvalidPageRequest(page, size)
    ensures r.Ok? ==> r.value.totalElements == |ArticlesOfCategory(s, categoryId)| && r.value.pageNumber == page && r.value.pageSize == size
    ensures r.Ok? ==> r.value.totalPages == PageCount(r.value.totalElements, size)
    ensures r.Ok? ==> (r.value.first <==> page == 0) && (r.value.last <==> ReachesEnd(page, size, r.value.totalElements))
    ensures r.Ok? ==> Ids(r.value.content) == Window(FindByCategoryId(s, categoryId), page, size)
    ensures r.Ok? ==> forall i, j :: 0 <= i < j < |r.value.content| ==> r.value.content[i].id != r.value.content[j].id
    ensures r.Ok? ==> forall k :: 0 <= k < |r.value.content| ==>
      r.value.content[k].id in s.articles && Resolves(s, r.value.content[k].id) && r.value.content[k] == ToResponse(s, r.value.content[k].id) &&
      s.articles[r.value.content[k].id].categoryId == categoryId
    ensures r.Ok? ==> forall i, j :: 0 <= i < j < |r.value.content| ==>
      r.value.content[i].createdOn >= r.value.content[j].createdOn
  {
    var _ :- CategoryService.GetCategoryEntityById(s, categoryId);
    var (p, n) :- PageRequest(page, size);
    var all := FindByCategoryId(s, categoryId);
    ListedResolve(s, all);
    Ok(ResponsePage(s, all, InCategory(categoryId), CreatedOn, false, p, n))
  }

  /** searchArticles: a page of the articles whose title or content holds the keyword, ignoring case, newest first. */
  function SearchArticles(s: Store, keyword: string, page: int, size: int): (r: Result<PageResponse<ArticleResponse>>)
    requires Valid(s)
    requires NoWildcards(keyword)
    ensures r.Ok? <==> page >= 0 && size >= 1
    ensures r.Err? ==> r.error == InvalidPageRequest(page, size)
    ensures r.Ok? ==> r.value.totalElements == |SearchHits(s, keyword)| && r.value.pageNumber == page && r.value.pageSize == size
    ensures r.Ok? ==> r.value.totalPages == PageCount(r.value.totalElements, size)
    ensures r.Ok? ==> (r.value.first <==> page == 0) && (r.value.last <==> ReachesEnd(page, size, r.value.totalElements))
    ensures r.Ok? ==> Ids(r.value.content) == Window(Repository.SearchArticles(s, keyword), page, size)
    ensures r.Ok? ==> forall i, j :: 0 <= i < j < |r.value.content| ==> r.value.content[i].id != r.value.content[j].id
    ensures r.Ok? ==> forall k :: 0 <= k < |r.value.content| ==>
      r.value.content[k].id in s.articles && Resolves(s, r.value.content[k].id) && r.value.content[k] == ToResponse(s, r.value.content[k].id) &&
      Mentions(s.articles[r.value.content[k].id], keyword)
    ensures r.Ok? ==> forall i, j :: 0 <= i < j < |r.value.content| ==>
      r.value.content[i].createdOn >= r.value.content[j].createdOn
  {
    var (p, n) :- PageRequest(page, size);
    var all := Repository.SearchArticles(s, keyword);
    ListedResolve(s, all);
    Ok(ResponsePage(s, all, MentionsKeyword(keyword), CreatedOn, false, p, n))
  }

  /** The category of an update: none when no id is given; a given id must name a stored category. */
  function ResolveCategory(s: Store, categoryId: Option<Id>): (r: Result<Option<Id>>)
    ensures categoryId.None? ==> r == Ok(None)
    ensures categoryId.Some? ==> (r.Ok? <==> categoryId.value in s.categories)
    ensures r.Ok? ==> r.value == categoryId
    ensures r.Err? ==> r.error == NotFound("Category", "id", IdKey(categoryId.value))
  {
    match categoryId
    case None => Ok(None)
    case Some(categoryId) =>
      var _ :- CategoryService.GetCategoryEntityById(s, categoryId);
      Ok(Some(categoryId))
  }

  /**
   * updateArticle: NotFound on a missing article, then on a given but missing category; the
   * patched article is saved under its id, which the store refuses when a new title's slug is
   * already held by another article.
   */
  function UpdateArticle(s: Store, id: Id, req: UpdateArticleRequest, now: Instant): (r: Result<(Store, ArticleResponse)>)
    requires Valid(s)
    ensures id !in s.articles ==> r == Err(NotFound("Article", "id", IdKey(id)))
    ensures id in s.articles && req.categoryId.Some? && req.categoryId.value !in s.categories ==>
      r == Err(NotFound("Category", "id", IdKey(req.categoryId.value)))
    ensures id in s.articles && (req.categoryId.None? || req.categoryId.value in s.categories) ==>
      (r.Err? <==> SlugTakenByOther(s, id, UpdateEntity(s.articles[id], req, req.categoryId, now).slug))
    ensures id in s.articles && (req.categoryId.None? || req.categoryId.value in s.categories) && r.Err? ==>
      r.error == ConstraintViolation("articles", "slug", TextKey(UpdateEntity(s.articles[id], req, req.categoryId, now).slug))
    ensures r.Ok? ==> Valid(r.value.0)
    ensures r.Ok? ==> r.value.0 == s.(articles := s.articles[id := UpdateEntity(s.articles[id], req, req.categoryId, now)])
    ensures r.Ok? ==> r.value.1.id == id && r.value.1.title == r.value.0.articles[id].title && r.value.1.slug == r.value.0.articles[id].slug
    ensures r.Ok? ==> r.value.1.status == r.value.0.articles[id].status && r.value.1.publishedOn == r.value.0.articles[id].publishedOn
    ensures r.Ok? ==> r.value.1.categoryId == r.value.0.articles[id].categoryId && r.value.1.excerpt == r.value.0.articles[id].excerpt
  {
    var article :- FindArticle(s, id);
    var category :- ResolveCategory(s, req.categoryId);
    var updated := UpdateEntity(article, req, category, now);
    var t :- SaveArticle(s, id, updated);
    Ok((t, ToResponse(t, id)))
  }

  /** publishArticle: NotFound on a missing id; otherwise the article is PUBLISHED with the publish time now. */
  function PublishArticle(s: Store, id: Id, now: Instant): (r: Result<(Store, ArticleResponse)>)
    requires Valid(s)
    ensures r.Ok? <==> id in s.articles
    ensures r.Err? ==> r.error == NotFound("Article", "id", IdKey(id))
    ensures r.Ok? ==> Valid(r.value.0)
    ensures r.Ok? ==> r.value.0 == s.(articles := s.articles[id := Publish(s.articles[id], now)])
    ensures r.Ok? ==> r.value.1.id == id && r.value.1.status == Published && r.value.1.publishedOn == Some(now)
  {
    var article :- FindArticle(s, id);
    var saved := SaveArticle(s, id, Publish(article, now));
    assert saved.Ok?;
    var t := saved.value;
    Ok((t, ToResponse(t, id)))
  }

  /** deleteArticle: NotFound on a missing id; otherwise the article and every comment on it are removed. */
  function DeleteArticle(s: Store, id: Id): (r: Result<Store>)
    requires Valid(s)
    ensures r.Ok? <==> id in s.articles
    ensures r.Err? ==> r.error == NotFound("Article", "id", IdKey(id))
    ensures r.Ok? ==> Valid(r.value)
    ensures r.Ok? ==> r.value.articles == s.articles - {id}
    ensures r.Ok? ==> forall c :: c in r.value.comments <==> c in s.comments && s.comments[c].articleId != id
    ensures r.Ok? ==> forall c :: c in r.value.comments ==> r.value.comments[c] == s.comments[c]
    ensures r.Ok? ==> r.value.authors == s.authors && r.value.categories == s.categories
    ensures r.Ok? ==>
      r.value.nextAuthorId == s.nextAuthorId && r.value.nextCategoryId == s.nextCategoryId &&
      r.value.nextArticleId == s.nextArticleId && r.value.nextCommentId == s.nextCommentId
  {
    var _ :- FindArticle(s, id);
    Ok(RemoveArticle(s, id))
  }
}
