/**
 * The relational store as four tables of id -> entity, each with the counter its IDENTITY
 * column draws the next id from. The store's own constraints are modelled where the schema
 * declares them: the unique index on an article's slug, the unique category name, and the
 * foreign keys that make it refuse to delete an author or a category an article still references.
 * Deleting an article cascades to its comments (cascade-all with orphan removal).
 */
module Store {
  import opened Outcomes
  import opened Entities
  import opened Ordering

  datatype Store = Store(
    authors: map<Id, Author>,
    categories: map<Id, Category>,
    articles: map<Id, Article>,
    comments: map<Id, Comment>,
    nextAuthorId: Id,
    nextCategoryId: Id,
    nextArticleId: Id,
    nextCommentId: Id)

  const Empty: Store := Store(map[], map[], map[], map[], 1, 1, 1, 1)

  /** Every id of the table was drawn from its counter, which starts at 1. */
  predicate IdsBelow<T>(m: map<Id, T>, next: Id) {
    1 <= next && forall id :: id in m ==> 1 <= id < next
  }

  predicate UniqueEmails(m: map<Id, Author>) {
    forall i, j :: i in m && j in m && m[i].email == m[j].email ==> i == j
  }

  predicate UniqueNames(m: map<Id, Category>) {
    forall i, j :: i in m && j in m && m[i].name == m[j].name ==> i == j
  }

  predicate UniqueSlugs(m: map<Id, Article>) {
    forall i, j :: i in m && j in m && m[i].slug == m[j].slug ==> i == j
  }

  /** The article exists and its author and category rows exist. */
  predicate Resolves(s: Store, id: Id) {
    id in s.articles && s.articles[id].authorId in s.authors && s.articles[id].categoryId in s.categories
  }

  /** Every article references an existing author and an existing category. */
  predicate ArticleRefsResolve(s: Store) {
    forall id :: id in s.articles ==> s.articles[id].authorId in s.authors && s.articles[id].categoryId in s.categories
  }

  /** Every comment belongs to an existing article. */
  predicate CommentRefsResolve(s: Store) {
    forall id :: id in s.comments ==> s.comments[id].articleId in s.articles
  }

  /** The integrity the store keeps at all times. */
  predicate Valid(s: Store) {
    && IdsBelow(s.authors, s.nextAuthorId)
    && IdsBelow(s.categories, s.nextCategoryId)
    && IdsBelow(s.articles, s.nextArticleId)
    && IdsBelow(s.comments, s.nextCommentId)
    && UniqueEmails(s.authors)
    && UniqueNames(s.categories)
    && UniqueSlugs(s.articles)
    && ArticleRefsResolve(s)
    && CommentRefsResolve(s)
  }

  lemma EmptyIsValid()
    ensures Valid(Empty)
  {
  }

  /** Article.comments: the comments whose owning article is articleId. */
  function CommentsOf(s: Store, articleId: Id): set<Id> {
    set id | id in s.comments && s.comments[id].articleId == articleId
  }

  /** Author.articles. */
  function ArticlesOfAuthor(s: Store, authorId: Id): set<Id> {
    set id | id in s.articles && s.articles[id].authorId == authorId
  }

  /** Category.articles. */
  function ArticlesOfCategory(s: Store, categoryId: Id): set<Id> {
    set id | id in s.articles && s.articles[id].categoryId == categoryId
  }

  /** The keys of m in [lo, hi), ascending: a scan of the table in id order. */
  function IdsInRange<T>(m: map<Id, T>, lo: Id, hi: Id): (r: seq<Id>)
    ensures forall id :: id in r <==> id in m && lo <= id < hi
    ensures forall i :: 0 <= i < |r| ==> lo <= r[i]
    ensures Distinct(r)
    decreases hi - lo
  {
    if lo >= hi then []
    else
      var rest := IdsInRange(m, lo + 1, hi);
      assert lo !in rest;
      if lo in m then [lo] + rest else rest
  }

  /** All ids of a table, ascending. */
  function Scan<T>(m: map<Id, T>, next: Id): (r: seq<Id>)
    requires IdsBelow(m, next)
    ensures forall id :: id in r <==> id in m
    ensures Distinct(r)
  {
    IdsInRange(m, 1, next)
  }

  // ----- writes -----

  function InsertAuthor(s: Store, a: Author): (r: (Store, Id))
    ensures r.1 == s.nextAuthorId
    ensures r.0 == s.(authors := s.authors[r.1 := a], nextAuthorId := s.nextAuthorId + 1)
    ensures Valid(s) && (forall j :: j in s.authors ==> s.authors[j].email != a.email) ==> Valid(r.0)
  {
    (s.(authors := s.authors[s.nextAuthorId := a], nextAuthorId := s.nextAuthorId + 1), s.nextAuthorId)
  }

  function InsertCategory(s: Store, c: Category): (r: Result<(Store, Id)>)
    ensures r.Err? <==> exists j :: j in s.categories && s.categories[j].name == c.name
    ensures r.Err? ==> r.error == ConstraintViolation("categories", "name", TextKey(c.name))
    ensures r.Ok? ==> r.value.1 == s.nextCategoryId
    ensures r.Ok? ==> r.value.0 == s.(categories := s.categories[r.value.1 := c], nextCategoryId := s.nextCategoryId + 1)
    ensures Valid(s) && r.Ok? ==> Valid(r.value.0)
  {
    if exists j :: j in s.categories && s.categories[j].name == c.name then
      Err(ConstraintViolation("categories", "name", TextKey(c.name)))
    else
      Ok((s.(categories := s.categories[s.nextCategoryId := c], nextCategoryId := s.nextCategoryId + 1), s.nextCategoryId))
  }

  /** True when an article other than id already holds slug. */
  predicate SlugTakenByOther(s: Store, id: Id, slug: string) {
    exists j :: j in s.articles && j != id && s.articles[j].slug == slug
  }

  function InsertArticle(s: Store, a: Article): (r: Result<(Store, Id)>)
    ensures r.Err? <==> SlugTakenByOther(s, s.nextArticleId, a.slug)
    ensures r.Err? ==> r.error == ConstraintViolation("articles", "slug", TextKey(a.slug))
    ensures r.Ok? ==> r.value.1 == s.nextArticleId
    ensures r.Ok? ==> r.value.0 == s.(articles := s.articles[r.value.1 := a], nextArticleId := s.nextArticleId + 1)
    ensures Valid(s) && a.authorId in s.authors && a.categoryId in s.categories && r.Ok? ==> Valid(r.value.0)
  {
    if SlugTakenByOther(s, s.nextArticleId, a.slug) then
      Err(ConstraintViolation("articles", "slug", TextKey(a.slug)))
    else
      Ok((s.(articles := s.articles[s.nextArticleId := a], nextArticleId := s.nextArticleId + 1), s.nextArticleId))
  }

  /** Saves a changed article under its existing id; the unique slug index still applies. */
  function SaveArticle(s: Store, id: Id, a: Article): (r: Result<Store>)
    ensures r.Err? <==> SlugTakenByOther(s, id, a.slug)
    ensures r.Err? ==> r.error == ConstraintViolation("articles", "slug", TextKey(a.slug))
    ensures r.Ok? ==> r.value == s.(articles := s.articles[id := a])
    ensures Valid(s) && id in s.articles && a.authorId in s.authors && a.categoryId in s.categories && r.Ok? ==> Valid(r.value)
  {
    if SlugTakenByOther(s, id, a.slug) then Err(ConstraintViolation("articles", "slug", TextKey(a.slug)))
    else Ok(s.(articles := s.articles[id := a]))
  }

  function InsertComment(s: Store, c: Comment): (r: (Store, Id))
    ensures r.1 == s.nextCommentId
    ensures r.0 == s.(comments := s.comments[r.1 := c], nextCommentId := s.nextCommentId + 1)
    ensures Valid(s) && c.articleId in s.articles ==> Valid(r.0)
  {
    (s.(comments := s.comments[s.nextCommentId := c], nextCommentId := s.nextCommentId + 1), s.nextCommentId)
  }

  /** Deleting an author an article still references violates the articles.author_id foreign key. */
  function RemoveAuthor(s: Store, id: Id): (r: Result<Store>)
    ensures r.Err? <==> ArticlesOfAuthor(s, id) != {}
    ensures r.Err? ==> r.error == ConstraintViolation("articles", "author_id", IdKey(id))
    ensures r.Ok? ==> r.value == s.(authors := s.authors - {id})
    ensures Valid(s) && r.Ok? ==> Valid(r.value)
  {
    if ArticlesOfAuthor(s, id) != {} then Err(ConstraintViolation("articles", "author_id", IdKey(id)))
    else
      assert forall a :: a in s.articles ==> s.articles[a].authorId != id by {
        forall a | a in s.articles ensures s.articles[a].authorId != id {
          assert a !in ArticlesOfAuthor(s, id);
        }
      }
      Ok(s.(authors := s.authors - {id}))
  }

  /** Deleting a category an article still references violates the articles.category_id foreign key. */
  function RemoveCategory(s: Store, id: Id): (r: Result<Store>)
    ensures r.Err? <==> ArticlesOfCategory(s, id) != {}
    ensures r.Err? ==> r.error == ConstraintViolation("articles", "category_id", IdKey(id))
    ensures r.Ok? ==> r.value == s.(categories := s.categories - {id})
    ensures Valid(s) && r.Ok? ==> Valid(r.value)
  {
    if ArticlesOfCategory(s, id) != {} then Err(ConstraintViolation("articles", "category_id", IdKey(id)))
    else
      assert forall a :: a in s.articles ==> s.articles[a].categoryId != id by {
        forall a | a in s.articles ensures s.articles[a].categoryId != id {
          assert a !in ArticlesOfCategory(s, id);
        }
      }
      Ok(s.(categories := s.categories - {id}))
  }

  /** Deleting an article removes it and, by cascade, every comment it owns. */
  function RemoveArticle(s: Store, id: Id): (r: Store)
    ensures r.articles == s.articles - {id}
    ensures forall c :: c in r.comments <==> c in s.comments && s.comments[c].articleId != id
    ensures forall c :: c in r.comments ==> r.comments[c] == s.comments[c]
    ensures r.authors == s.authors && r.categories == s.categories
    ensures r.nextAuthorId == s.nextAuthorId && r.nextCategoryId == s.nextCategoryId
    ensures r.nextArticleId == s.nextArticleId && r.nextCommentId == s.nextCommentId
    ensures Valid(s) ==> Valid(r)
  {
    s.(articles := s.articles - {id}, comments := s.comments - CommentsOf(s, id))
  }

  function RemoveComment(s: Store, id: Id): (r: Store)
    ensures r == s.(comments := s.comments - {id})
    ensures Valid(s) ==> Valid(r)
  {
    s.(comments := s.comments - {id})
  }
}
