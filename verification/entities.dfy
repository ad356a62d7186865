/**
 * The four persistent entities and the two behaviours the Article entity carries itself.
 * Ids are not part of an entity: the store maps each id to its entity. Collections that JPA
 * derives from a foreign key (an article's comments, an author's or a category's articles)
 * are computed from the store rather than kept in the entity.
 */
module Entities {
  import opened Outcomes

  /** Surrogate keys (Java Long). */
  type Id = int

  /** Abstract clock value standing for LocalDateTime; only its order matters. */
  type Instant = int

  const INT32_MIN: int := -0x8000_0000
  const INT32_MAX: int := 0x7fff_ffff

  /** A Java int / Integer value. */
  newtype Int32 = x: int | -0x8000_0000 <= x < 0x8000_0000

  datatype ArticleStatus = Draft | Published

  datatype Author = Author(name: string, email: string, bio: Option<string>, createdOn: Instant)

  datatype Category = Category(name: string, description: Option<string>, createdOn: Instant)

  datatype Article = Article(
    title: string,
    slug: string,
    content: string,
    excerpt: Option<string>,
    status: ArticleStatus,
    authorId: Id,
    categoryId: Id,
    viewCount: Int32,
    publishedOn: Option<Instant>,
    createdOn: Instant)

  datatype Comment = Comment(
    articleId: Id,
    authorName: string,
    authorEmail: string,
    content: string,
    approved: bool,
    createdOn: Instant)

  /** The editorial content and references of an article are the same in both. */
  predicate SameContent(a: Article, b: Article) {
    && a.title == b.title
    && a.slug == b.slug
    && a.content == b.content
    && a.excerpt == b.excerpt
    && a.authorId == b.authorId
    && a.categoryId == b.categoryId
    && a.createdOn == b.createdOn
  }

  /** Article.incrementViewCount: `viewCount++` on a Java int, which wraps at the top of the range. */
  function IncrementViewCount(a: Article): (r: Article)
    ensures a.viewCount as int < INT32_MAX ==> r.viewCount as int == a.viewCount as int + 1
    ensures a.viewCount as int == INT32_MAX ==> r.viewCount as int == INT32_MIN
    ensures SameContent(a, r) && r.status == a.status && r.publishedOn == a.publishedOn
  {
    var next := if a.viewCount as int == INT32_MAX then INT32_MIN else a.viewCount as int + 1;
    a.(viewCount := next as Int32)
  }

  /** Article.publish: the status becomes PUBLISHED and the publish time is overwritten with now. */
  function Publish(a: Article, now: Instant): (r: Article)
    ensures r.status == Published && r.publishedOn == Some(now)
    ensures SameContent(a, r) && r.viewCount == a.viewCount
  {
    a.(status := Published, publishedOn := Some(now))
  }

  /** Publishing is overwrite-only: a second publish keeps the second call's time. */
  lemma PublishTwice(a: Article, t1: Instant, t2: Instant)
    ensures Publish(Publish(a, t1), t2) == Publish(a, t2)
  {
  }

  /** n increments, as the view counter sees them when no wrap-around happens. */
  function IncrementTimes(a: Article, n: nat): Article {
    if n == 0 then a else IncrementViewCount(IncrementTimes(a, n - 1))
  }

  /** n increments raise the view count by exactly n, provided the Java int does not overflow. */
  lemma {:induction false} IncrementTimesAddsN(a: Article, n: nat)
    requires a.viewCount as int + n <= INT32_MAX
    ensures IncrementTimes(a, n).viewCount as int == a.viewCount as int + n
    ensures SameContent(a, IncrementTimes(a, n))
    ensures IncrementTimes(a, n).status == a.status
    ensures IncrementTimes(a, n).publishedOn == a.publishedOn
  {
    if n > 0 {
      IncrementTimesAddsN(a, n - 1);
    }
  }

  /** At the top of the Java int range one more view wraps the counter to the most negative value. */
  lemma IncrementAtMaxWraps(a: Article)
    requires a.viewCount as int == INT32_MAX
    ensures IncrementViewCount(a).viewCount as int == INT32_MIN
    ensures IncrementViewCount(a).viewCount as int < a.viewCount as int
  {
  }
}
