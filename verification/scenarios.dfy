/**
 * Properties that span several use cases: slug collisions between titles, the foreign keys seen
 * through the delete use cases, the cascade from an article to its comments, the two publish
 * paths, and reading back what was created.
 */
module Scenarios {
  import opened Outcomes
  import opened Entities
  import opened Requests
  import opened Store
  import opened Slug
  import opened Repository
  import opened ArticleMapper
  import SlugExamples
  import AuthorService
  import CategoryService
  import ArticleService
  import CommentService
  import CommentMapper

  /** Two titles with the same slug: once the first is created, creating the second is refused. */
  lemma SameSlugIsRefused(s: Store, first: CreateArticleRequest, second: CreateArticleRequest, t1: Instant, t2: Instant)
    requires Valid(s)
    requires first.authorId in s.authors && first.categoryId in s.categories
    requires second.authorId in s.authors && second.categoryId in s.categories
    requires !ExistsBySlug(s, GenerateSlug(first.title))
    requires GenerateSlug(second.title) == GenerateSlug(first.title)
    ensures ArticleService.CreateArticle(s, first, t1).Ok?
    ensures ArticleService.CreateArticle(ArticleService.CreateArticle(s, first, t1).value.0, second, t2) ==
      Err(DuplicateResource("Article", "slug", TextKey(GenerateSlug(first.title))))
  {
    var (t, created) := ArticleService.CreateArticle(s, first, t1).value;
    assert t.articles[created.id].slug == GenerateSlug(first.title);
  }

  /** "Hello World" and "Hello   World!!" share the slug "helloworld", so the second is refused. */
  lemma HelloWorldCollides(s: Store, first: CreateArticleRequest, second: CreateArticleRequest, t1: Instant, t2: Instant)
    requires Valid(s)
    requires first.title == "Hello World" && second.title == "Hello   World!!"
    requires first.authorId in s.authors && first.categoryId in s.categories
    requires second.authorId in s.authors && second.categoryId in s.categories
    requires !ExistsBySlug(s, "helloworld")
    ensures ArticleService.CreateArticle(s, first, t1).Ok?
    ensures ArticleService.CreateArticle(ArticleService.CreateArticle(s, first, t1).value.0, second, t2) ==
      Err(DuplicateResource("Article", "slug", TextKey("helloworld")))
  {
    SlugExamples.HelloWorldExample();
    SlugExamples.HelloWorldShoutedExample();
    SameSlugIsRefused(s, first, second, t1, t2);
  }

  /** Deleting the article that holds a slug frees it for a new article. */
  lemma DeleteFreesSlug(s: Store, id: Id)
    requires Valid(s) && id in s.articles
    ensures ArticleService.DeleteArticle(s, id).Ok?
    ensures !ExistsBySlug(ArticleService.DeleteArticle(s, id).value, s.articles[id].slug)
  {
  }

  /** An article's author can not be deleted while the article exists. */
  lemma ReferencedAuthorIsKept(s: Store, articleId: Id)
    requires Valid(s) && articleId in s.articles
    ensures AuthorService.DeleteAuthor(s, s.articles[articleId].authorId) ==
      Err(ConstraintViolation("articles", "author_id", IdKey(s.articles[articleId].authorId)))
  {
    assert articleId in ArticlesOfAuthor(s, s.articles[articleId].authorId);
  }

  /** An article's category can not be deleted while the article exists. */
  lemma ReferencedCategoryIsKept(s: Store, articleId: Id)
    requires Valid(s) && articleId in s.articles
    ensures CategoryService.DeleteCategory(s, s.articles[articleId].categoryId) ==
      Err(ConstraintViolation("articles", "category_id", IdKey(s.articles[articleId].categoryId)))
  {
    assert articleId in ArticlesOfCategory(s, s.articles[articleId].categoryId);
  }

  /** Once its article is deleted, a comment's lookup is NotFound. */
  lemma CascadeRemovesComments(s: Store, commentId: Id)
    requires Valid(s) && commentId in s.comments
    ensures ArticleService.DeleteArticle(s, s.comments[commentId].articleId).Ok?
    ensures CommentService.GetCommentById(ArticleService.DeleteArticle(s, s.comments[commentId].articleId).value, commentId) ==
      Err(NotFound("Comment", "id", IdKey(commentId)))
  {
  }

  /** The publish use case overwrites the publish time: publishing twice keeps the second time. */
  lemma PublishTwiceOverwrites(s: Store, id: Id, t1: Instant, t2: Instant)
    requires Valid(s) && id in s.articles
    ensures ArticleService.PublishArticle(s, id, t1).Ok?
    ensures ArticleService.PublishArticle(ArticleService.PublishArticle(s, id, t1).value.0, id, t2).Ok?
    ensures ArticleService.PublishArticle(ArticleService.PublishArticle(s, id, t1).value.0, id, t2).value.0.articles[id].publishedOn == Some(t2)
  {
  }

  /**
   * The update use case keeps the first publish time: a never-published article updated to
   * PUBLISHED twice keeps the first update's time.
   */
  lemma UpdateToPublishedTwiceKeepsFirst(s: Store, id: Id, t1: Instant, t2: Instant)
    requires Valid(s) && id in s.articles && s.articles[id].publishedOn.None?
    ensures
      var req := UpdateArticleRequest(None, None, None, None, Some(Published));
      var once := ArticleService.UpdateArticle(s, id, req, t1);
      && once.Ok?
      && ArticleService.UpdateArticle(once.value.0, id, req, t2).Ok?
      && ArticleService.UpdateArticle(once.value.0, id, req, t2).value.0.articles[id].publishedOn == Some(t1)
  {
    var req := UpdateArticleRequest(None, None, None, None, Some(Published));
    var a := s.articles[id];
    assert UpdateEntity(a, req, None, t1).slug == a.slug;
    var once := ArticleService.UpdateArticle(s, id, req, t1);
    assert !SlugTakenByOther(s, id, a.slug);
    var u := once.value.0;
    assert !SlugTakenByOther(u, id, u.articles[id].slug);
  }

  /** A created article can be read back by its id and by its slug. */
  lemma CreatedArticleReadsBack(s: Store, req: CreateArticleRequest, now: Instant)
    requires Valid(s)
    requires req.authorId in s.authors && req.categoryId in s.categories
    requires !ExistsBySlug(s, GenerateSlug(req.title))
    ensures ArticleService.CreateArticle(s, req, now).Ok?
    ensures
      var (t, created) := ArticleService.CreateArticle(s, req, now).value;
      && ArticleService.GetArticleById(t, created.id).Ok?
      && ArticleService.GetArticleById(t, created.id).value.slug == GenerateSlug(req.title)
      && ArticleService.GetArticleBySlug(t, GenerateSlug(req.title)).Ok?
      && ArticleService.GetArticleBySlug(t, GenerateSlug(req.title)).value.id == created.id
  {
    var (t, created) := ArticleService.CreateArticle(s, req, now).value;
    assert t.articles[created.id].slug == GenerateSlug(req.title);
  }

  /** Once an author is created, creating another author with the same email is refused. */
  lemma SameEmailIsRefused(s: Store, first: CreateAuthorRequest, second: CreateAuthorRequest, t1: Instant, t2: Instant)
    requires Valid(s) && !ExistsByEmail(s, first.email) && second.email == first.email
    ensures AuthorService.CreateAuthor(s, first, t1).Ok?
    ensures AuthorService.CreateAuthor(AuthorService.CreateAuthor(s, first, t1).value.0, second, t2) ==
      Err(DuplicateResource("Author", "email", TextKey(first.email)))
  {
    var (t, created) := AuthorService.CreateAuthor(s, first, t1).value;
    assert t.authors[created.id].email == first.email;
  }

  /** Re-submitting an author's own email in an update is not a conflict. */
  lemma ResubmittedEmailIsAccepted(s: Store, id: Id, req: UpdateAuthorRequest)
    requires Valid(s) && id in s.authors && req.email == Some(s.authors[id].email)
    ensures AuthorService.UpdateAuthor(s, id, req).Ok?
  {
  }

  /** Once a category is created, creating another with the same name is refused. */
  lemma SameCategoryNameIsRefused(s: Store, first: CreateCategoryRequest, second: CreateCategoryRequest, t1: Instant, t2: Instant)
    requires Valid(s) && !ExistsByName(s, first.name) && second.name == first.name
    ensures CategoryService.CreateCategory(s, first, t1).Ok?
    ensures CategoryService.CreateCategory(CategoryService.CreateCategory(s, first, t1).value.0, second, t2) ==
      Err(DuplicateResource("Category", "name", TextKey(first.name)))
  {
    var (t, created) := CategoryService.CreateCategory(s, first, t1).value;
    assert t.categories[created.id].name == first.name;
  }

  /** An update that gives no field leaves the store as it was. */
  lemma EmptyArticleUpdateKeepsStore(s: Store, id: Id, now: Instant)
    requires Valid(s) && id in s.articles
    ensures
      var r := ArticleService.UpdateArticle(s, id, UpdateArticleRequest(None, None, None, None, None), now);
      r.Ok? && r.value.0 == s
  {
    var a := s.articles[id];
    EmptyUpdateIsIdentity(a, now);
    assert !SlugTakenByOther(s, id, a.slug);
    assert s.(articles := s.articles[id := a]) == s;
  }

  /** Looking an article up by its slug gives the same detail as looking it up by its id. */
  lemma SlugLookupAgreesWithId(s: Store, id: Id)
    requires Valid(s) && id in s.articles
    ensures ArticleService.GetArticleBySlug(s, s.articles[id].slug) == ArticleService.GetArticleById(s, id)
  {
    assert ExistsBySlug(s, s.articles[id].slug);
  }

  /** A new comment shows in its article's detail, which then lists one comment more. */
  lemma {:induction false} CommentShowsInDetail(s: Store, req: CreateCommentRequest, now: Instant)
    requires Valid(s) && req.articleId in s.articles
    ensures CommentService.CreateComment(s, req, now).Ok?
    ensures
      var (t, created) := CommentService.CreateComment(s, req, now).value;
      var detail := ArticleService.GetArticleById(t, req.articleId);
      && detail.Ok?
      && created.id in CommentMapper.Ids(detail.value.comments)
      && |detail.value.comments| == |CommentsOf(s, req.articleId)| + 1
  {
    var (t, created) := CommentService.CreateComment(s, req, now).value;
    assert CommentsOf(t, req.articleId) == CommentsOf(s, req.articleId) + {created.id};
  }
}
