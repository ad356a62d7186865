/**
 * The queries the services issue against the store: the derived queries of the article,
 * author, category and comment repositories and the JPQL keyword search. A paged query is
 * modelled as the full ordered result; the services cut the requested page out of it.
 */
module Repository {
  import opened Outcomes
  import opened Ascii
  import opened Entities
  import opened Ordering
  import opened Store

  // ----- existence checks -----

  predicate ExistsBySlug(s: Store, slug: string) {
    exists id :: id in s.articles && s.articles[id].slug == slug
  }

  predicate ExistsByEmail(s: Store, email: string) {
    exists id :: id in s.authors && s.authors[id].email == email
  }

  predicate ExistsByName(s: Store, name: string) {
    exists id :: id in s.categories && s.categories[id].name == name
  }

  /** findBySlug: the article holding slug, if any; the unique slug makes it the only one. */
  function FindBySlug(s: Store, slug: string): (r: Option<Id>)
    requires Valid(s)
    ensures r.None? <==> !ExistsBySlug(s, slug)
    ensures forall id :: r == Some(id) <==> id in s.articles && s.articles[id].slug == slug
  {
    var all := Scan(s.articles, s.nextArticleId);
    var hits := Select(all, TableFilter(s.articles, (a: Article) => a.slug == slug));
    assert forall id :: id in hits <==> id in s.articles && s.articles[id].slug == slug by {
      forall id ensures id in hits <==> id in s.articles && s.articles[id].slug == slug {
        assert id in hits <==> id in all && TableFilter(s.articles, (a: Article) => a.slug == slug)(id);
      }
    }
    if hits == [] then None else assert hits[0] in hits; Some(hits[0])
  }

  // ----- ordered queries -----

  /** The sort key of an id of table m; ids outside the table never occur in a query result. */
  function TableKey<T>(m: map<Id, T>, key: T -> int): Id -> int {
    id => if id in m then key(m[id]) else 0
  }

  /** The filter of an id of table m; ids outside the table never match. */
  function TableFilter<T>(m: map<Id, T>, keep: T -> bool): Id -> bool {
    id => id in m && keep(m[id])
  }

  lemma SortedByTableKey<T>(m: map<Id, T>, key: T -> int, r: seq<Id>)
    requires SortedDesc(r, TableKey(m, key))
    requires forall i :: 0 <= i < |r| ==> r[i] in m
    ensures forall i, j :: 0 <= i < j < |r| ==> key(m[r[i]]) >= key(m[r[j]])
  {
    forall i, j | 0 <= i < j < |r|
      ensures key(m[r[i]]) >= key(m[r[j]])
    {
      assert TableKey(m, key)(r[i]) >= TableKey(m, key)(r[j]);
    }
  }

  /** Filtering then sorting keeps exactly the filtered elements, without duplicates. */
  lemma PermutationFacts(all: seq<Id>, hits: seq<Id>, r: seq<Id>)
    requires Distinct(all) && multiset(hits) <= multiset(all) && multiset(r) == multiset(hits)
    ensures Distinct(r)
    ensures forall id :: id in r <==> id in hits
  {
    DistinctPermutation(all, hits);
    DistinctPermutation(hits, r);
    forall id
      ensures id in r <==> id in hits
    {
      assert id in r <==> id in multiset(r);
      assert id in hits <==> id in multiset(hits);
    }
  }

  lemma QueryFacts<T>(m: map<Id, T>, keep: T -> bool, key: T -> int, all: seq<Id>, hits: seq<Id>, r: seq<Id>)
    requires forall id :: id in all <==> id in m
    requires Distinct(all)
    requires hits == Select(all, TableFilter(m, keep))
    requires r == SortDesc(hits, TableKey(m, key))
    ensures forall id :: id in r <==> id in m && keep(m[id])
    ensures forall i :: 0 <= i < |r| ==> r[i] in m
    ensures Distinct(r)
    ensures forall i, j :: 0 <= i < j < |r| ==> key(m[r[i]]) >= key(m[r[j]])
  {
    PermutationFacts(all, hits, r);
    forall id ensures id in hits <==> id in m && keep(m[id]) {
      assert id in hits <==> id in all && TableFilter(m, keep)(id);
    }
    forall i | 0 <= i < |r| ensures r[i] in m {
      assert r[i] in r;
    }
    SortedByTableKey(m, key, r);
  }

  /** The ids of table m whose entity satisfies keep. */
  function Matches<T>(m: map<Id, T>, keep: T -> bool): set<Id> {
    set id | id in m && keep(m[id])
  }

  /**
   * The ids of table m whose entity satisfies keep, ordered by key, largest first (ORDER BY key DESC):
   * each matches, none twice, and as many as there are matches.
   */
  function Query<T>(m: map<Id, T>, next: Id, keep: T -> bool, key: T -> int): (r: seq<Id>)
    requires IdsBelow(m, next)
    ensures forall i :: 0 <= i < |r| ==> r[i] in m && keep(m[r[i]])
    ensures Distinct(r)
    ensures |r| == |Matches(m, keep)|
    ensures forall i, j :: 0 <= i < j < |r| ==> key(m[r[i]]) >= key(m[r[j]])
  {
    var all := Scan(m, next);
    var hits := Select(all, TableFilter(m, keep));
    var r := SortDesc(hits, TableKey(m, key));
    QueryFacts(m, keep, key, all, hits, r);
    DistinctCardinality(r, Matches(m, keep));
    r
  }

  /** A query result holds every match: exactly the matching ids. */
  lemma QueryComplete<T>(m: map<Id, T>, next: Id, keep: T -> bool, key: T -> int)
    requires IdsBelow(m, next)
    ensures forall id :: id in Query(m, next, keep, key) <==> id in m && keep(m[id])
  {
    var all := Scan(m, next);
    var hits := Select(all, TableFilter(m, keep));
    QueryFacts(m, keep, key, all, hits, SortDesc(hits, TableKey(m, key)));
  }

  /** findAll with a sort on one column: key is that column's value, ascending or descending. */
  function FindAll<T>(m: map<Id, T>, next: Id, key: T -> int, ascending: bool): (r: seq<Id>)
    requires IdsBelow(m, next)
    ensures forall i :: 0 <= i < |r| ==> r[i] in m
    ensures Distinct(r)
    ensures |r| == |m|
    ensures forall i, j :: 0 <= i < j < |r| ==>
      if ascending then key(m[r[i]]) <= key(m[r[j]]) else key(m[r[i]]) >= key(m[r[j]])
  {
    assert Matches(m, (x: T) => true) == m.Keys;
    if ascending then Query(m, next, (x: T) => true, (x: T) => -key(x))
    else Query(m, next, (x: T) => true, key)
  }

  /** findAll lists every id of the table. */
  lemma FindAllComplete<T>(m: map<Id, T>, next: Id, key: T -> int, ascending: bool)
    requires IdsBelow(m, next)
    ensures forall id :: id in FindAll(m, next, key, ascending) <==> id in m
  {
    QueryComplete(m, next, (x: T) => true, (x: T) => -key(x));
    QueryComplete(m, next, (x: T) => true, key);
  }

  function CreatedOn(a: Article): int {
    a.createdOn
  }

  function CommentCreatedOn(c: Comment): int {
    c.createdOn
  }

  // ----- article queries, newest first -----

  function HasStatus(status: ArticleStatus): Article -> bool {
    (a: Article) => a.status == status
  }

  function ByAuthor(authorId: Id): Article -> bool {
    (a: Article) => a.authorId == authorId
  }

  function InCategory(categoryId: Id): Article -> bool {
    (a: Article) => a.categoryId == categoryId
  }

  function ArticlesWithStatus(s: Store, status: ArticleStatus): set<Id> {
    set id | id in s.articles && s.articles[id].status == status
  }

  /** findByStatus: the articles with that status, newest first. */
  function FindByStatus(s: Store, status: ArticleStatus): (r: seq<Id>)
    requires Valid(s)
    ensures forall i :: 0 <= i < |r| ==> r[i] in s.articles && s.articles[r[i]].status == status
    ensures Distinct(r)
    ensures |r| == |ArticlesWithStatus(s, status)|
    ensures forall i, j :: 0 <= i < j < |r| ==> s.articles[r[i]].createdOn >= s.articles[r[j]].createdOn
  {
    assert Matches(s.articles, HasStatus(status)) == ArticlesWithStatus(s, status);
    Query(s.articles, s.nextArticleId, HasStatus(status), CreatedOn)
  }

  lemma FindByStatusComplete(s: Store, status: ArticleStatus)
    requires Valid(s)
    ensures forall id :: id in FindByStatus(s, status) <==> id in s.articles && s.articles[id].status == status
  {
    QueryComplete(s.articles, s.nextArticleId, HasStatus(status), CreatedOn);
  }

  /** findByAuthorId: the author's articles, newest first. */
  function FindByAuthorId(s: Store, authorId: Id): (r: seq<Id>)
    requires Valid(s)
    ensures forall i :: 0 <= i < |r| ==> r[i] in s.articles && s.articles[r[i]].authorId == authorId
    ensures Distinct(r)
    ensures |r| == |ArticlesOfAuthor(s, authorId)|
    ensures forall i, j :: 0 <= i < j < |r| ==> s.articles[r[i]].createdOn >= s.articles[r[j]].createdOn
  {
    assert Matches(s.articles, ByAuthor(authorId)) == ArticlesOfAuthor(s, authorId);
    Query(s.articles, s.nextArticleId, ByAuthor(authorId), CreatedOn)
  }

  lemma FindByAuthorIdComplete(s: Store, authorId: Id)
    requires Valid(s)
    ensures forall id :: id in FindByAuthorId(s, authorId) <==> id in s.articles && s.articles[id].authorId == authorId
  {
    QueryComplete(s.articles, s.nextArticleId, ByAuthor(authorId), CreatedOn);
  }

  /** findByCategoryId: the category's articles, newest first. */
  function FindByCategoryId(s: Store, categoryId: Id): (r: seq<Id>)
    requires Valid(s)
    ensures forall i :: 0 <= i < |r| ==> r[i] in s.articles && s.articles[r[i]].categoryId == categoryId
    ensures Distinct(r)
    ensures |r| == |ArticlesOfCategory(s, categoryId)|
    ensures forall i, j :: 0 <= i < j < |r| ==> s.articles[r[i]].createdOn >= s.articles[r[j]].createdOn
  {
    assert Matches(s.articles, InCategory(categoryId)) == ArticlesOfCategory(s, categoryId);
    Query(s.articles, s.nextArticleId, InCategory(categoryId), CreatedOn)
  }

  lemma FindByCategoryIdComplete(s: Store, categoryId: Id)
    requires Valid(s)
    ensures forall id :: id in FindByCategoryId(s, categoryId) <==> id in s.articles && s.articles[id].categoryId == categoryId
  {
    QueryComplete(s.articles, s.nextArticleId, InCategory(categoryId), CreatedOn);
  }

  /**
   * The LIKE wildcards and the backslash, which PostgreSQL, MySQL and H2 take as LIKE's default
   * escape character; a keyword holding one of them is outside this model.
   */
  predicate NoWildcards(keyword: string) {
    forall i :: 0 <= i < |keyword| ==> keyword[i] != '%' && keyword[i] != '_' && keyword[i] != '\\'
  }

  /** lower(text) like lower('%' + keyword + '%'), for a keyword without wildcards. */
  predicate MatchesKeyword(text: string, keyword: string) {
    Contains(Lower(text), Lower(keyword))
  }

  /** The search condition: the keyword occurs, ignoring case, in the title or in the content. */
  predicate Mentions(a: Article, keyword: string) {
    MatchesKeyword(a.title, keyword) || MatchesKeyword(a.content, keyword)
  }

  function MentionsKeyword(keyword: string): Article -> bool {
    (a: Article) => Mentions(a, keyword)
  }

  function SearchHits(s: Store, keyword: string): set<Id> {
    set id | id in s.articles && Mentions(s.articles[id], keyword)
  }

  /** searchArticles: the articles whose title or content holds the keyword, ignoring case, newest first. */
  function SearchArticles(s: Store, keyword: string): (r: seq<Id>)
    requires Valid(s)
    requires NoWildcards(keyword)
    ensures forall i :: 0 <= i < |r| ==> r[i] in s.articles && Mentions(s.articles[r[i]], keyword)
    ensures Distinct(r)
    ensures |r| == |SearchHits(s, keyword)|
    ensures forall i, j :: 0 <= i < j < |r| ==> s.articles[r[i]].createdOn >= s.articles[r[j]].createdOn
  {
    assert Matches(s.articles, MentionsKeyword(keyword)) == SearchHits(s, keyword);
    Query(s.articles, s.nextArticleId, MentionsKeyword(keyword), CreatedOn)
  }

  lemma SearchArticlesComplete(s: Store, keyword: string)
    requires Valid(s)
    requires NoWildcards(keyword)
    ensures forall id :: id in SearchArticles(s, keyword) <==> id in s.articles && Mentions(s.articles[id], keyword)
  {
    QueryComplete(s.articles, s.nextArticleId, MentionsKeyword(keyword), CreatedOn);
  }

  /**
   * The search condition by position: the lower-cased keyword occurs at some index of the
   * lower-cased title or of the lower-cased content.
   */
  lemma MentionsByIndex(a: Article, keyword: string)
    ensures Mentions(a, keyword) <==>
      (exists i: nat :: OccursAt(Lower(a.title), Lower(keyword), i)) ||
      (exists i: nat :: OccursAt(Lower(a.content), Lower(keyword), i))
  {
    ContainsIffOccurs(Lower(a.title), Lower(keyword));
    ContainsIffOccurs(Lower(a.content), Lower(keyword));
  }

  /** The empty keyword matches every article. */
  lemma EmptyKeywordMatchesAll(s: Store)
    requires Valid(s)
    ensures forall id :: id in SearchArticles(s, "") <==> id in s.articles
  {
    SearchArticlesComplete(s, "");
    forall id | id in s.articles
      ensures MatchesKeyword(s.articles[id].title, "")
    {
      EmptyIsContained(Lower(s.articles[id].title));
    }
  }

  // ----- comment queries, newest first -----

  function OnArticle(articleId: Id): Comment -> bool {
    (c: Comment) => c.articleId == articleId
  }

  function OnArticleWithApproval(articleId: Id, approved: bool): Comment -> bool {
    (c: Comment) => c.articleId == articleId && c.approved == approved
  }

  function CommentsWithApproval(s: Store, articleId: Id, approved: bool): set<Id> {
    set id | id in s.comments && s.comments[id].articleId == articleId && s.comments[id].approved == approved
  }

  /** findByArticleId: the article's comments, newest first. */
  function FindCommentsByArticleId(s: Store, articleId: Id): (r: seq<Id>)
    requires Valid(s)
    ensures forall i :: 0 <= i < |r| ==> r[i] in s.comments && s.comments[r[i]].articleId == articleId
    ensures Distinct(r)
    ensures |r| == |CommentsOf(s, articleId)|
    ensures forall i, j :: 0 <= i < j < |r| ==> s.comments[r[i]].createdOn >= s.comments[r[j]].createdOn
  {
    assert Matches(s.comments, OnArticle(articleId)) == CommentsOf(s, articleId);
    Query(s.comments, s.nextCommentId, OnArticle(articleId), CommentCreatedOn)
  }

  lemma FindCommentsByArticleIdComplete(s: Store, articleId: Id)
    requires Valid(s)
    ensures forall id :: id in FindCommentsByArticleId(s, articleId) <==> id in s.comments && s.comments[id].articleId == articleId
  {
    QueryComplete(s.comments, s.nextCommentId, OnArticle(articleId), CommentCreatedOn);
  }

  /** findByArticleIdAndApproved: the article's comments with that approval, newest first. */
  function FindCommentsByArticleIdAndApproved(s: Store, articleId: Id, approved: bool): (r: seq<Id>)
    requires Valid(s)
    ensures forall i :: 0 <= i < |r| ==>
      r[i] in s.comments && s.comments[r[i]].articleId == articleId && s.comments[r[i]].approved == approved
    ensures Distinct(r)
    ensures |r| == |CommentsWithApproval(s, articleId, approved)|
    ensures forall i, j :: 0 <= i < j < |r| ==> s.comments[r[i]].createdOn >= s.comments[r[j]].createdOn
  {
    assert Matches(s.comments, OnArticleWithApproval(articleId, approved)) == CommentsWithApproval(s, articleId, approved);
    Query(s.comments, s.nextCommentId, OnArticleWithApproval(articleId, approved), CommentCreatedOn)
  }

  lemma FindCommentsByArticleIdAndApprovedComplete(s: Store, articleId: Id, approved: bool)
    requires Valid(s)
    ensures forall id :: id in FindCommentsByArticleIdAndApproved(s, articleId, approved) <==>
      (id in s.comments && s.comments[id].articleId == articleId && s.comments[id].approved == approved)
  {
    QueryComplete(s.comments, s.nextCommentId, OnArticleWithApproval(articleId, approved), CommentCreatedOn);
  }

  /** Article.comments as a list: the article's comments in id order. */
  function CommentList(s: Store, articleId: Id): (r: seq<Id>)
    requires Valid(s)
    ensures forall id :: id in r <==> id in CommentsOf(s, articleId)
    ensures forall i :: 0 <= i < |r| ==> r[i] in s.comments && s.comments[r[i]].articleId == articleId
    ensures Distinct(r)
    ensures |r| == |CommentsOf(s, articleId)|
  {
    var all := Scan(s.comments, s.nextCommentId);
    var r := Select(all, TableFilter(s.comments, OnArticle(articleId)));
    DistinctPermutation(all, r);
    assert forall id :: id in r <==> id in CommentsOf(s, articleId) by {
      forall id ensures id in r <==> id in CommentsOf(s, articleId) {
        assert id in r <==> id in all && TableFilter(s.comments, OnArticle(articleId))(id);
      }
    }
    assert forall i :: 0 <= i < |r| ==> r[i] in s.comments && s.comments[r[i]].articleId == articleId by {
      forall i | 0 <= i < |r| ensures r[i] in s.comments && s.comments[r[i]].articleId == articleId {
        assert r[i] in r;
      }
    }
    DistinctCardinality(r, CommentsOf(s, articleId));
    r
  }
}
