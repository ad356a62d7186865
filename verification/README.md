# Blog backend domain model

A Dafny model of the domain layer of a blog backend (Spring Boot, JPA). The backend keeps four
kinds of record: authors, categories, articles and comments. Its services
create, look up, list, patch, publish, moderate and delete them.

The model keeps the whole database as one immutable `Store`:
- one map from id to entity per table;
- the counter each IDENTITY column draws its next id from.

Each service operation is a pure function that takes a store and returns one of:
- a new store and a response;
- an `Error`: `NotFound`, `DuplicateResource`, the database's `ConstraintViolation`, or the
  paging library's `InvalidPageRequest`.

The store's integrity is the predicate `Store.Valid`. It requires:
- ids were drawn from the counters;
- emails, category names and slugs are unique;
- every article's author and category exist;
- every comment's article exists.

Every operation that writes is proved to preserve `Valid`.

Module layout, following the program's packages:

| file | module | models |
|---|---|---|
| `outcomes.dfy` | `Outcomes` | ids, clock values, the error kinds and a `Result` type |
| `ascii.dfy` | `Ascii` | character classes and case mapping |
| `entities.dfy` | `Entities` | the entities; `Article.incrementViewCount` and `Article.publish` |
| `requests.dfy` | `Requests` | request records and the patch rule for optional fields |
| `slug.dfy`, `slug_examples.dfy` | `Slug`, `SlugExamples` | `ArticleMapper.generateSlug` and worked examples |
| `ordering.dfy` | `Ordering` | filtering, duplicate-freedom and a descending sort |
| `store.dfy` | `Store` | tables, integrity and the schema's constraints |
| `repository.dfy` | `Repository` | the derived and JPQL queries |
| `paging.dfy` | `Paging` | page requests, the page window, `buildPageResponse`, the sort-direction rule |
| `*_mapper.dfy` | four mapper modules | the four mappers |
| `*_service.dfy` | four service modules | the four services |
| `scenarios.dfy` | `Scenarios` | properties that span several operations |

Where a reader might expect otherwise, the model follows the code:
- **Slug.** The slug of "Hello World" is `helloworld`, not `hello-world`. The code deletes every
  character outside `[a-zA-Z0-9]` before it rewrites whitespace to hyphens. So the rewrite and the
  hyphen-collapse never change anything. `Slug.HyphenStepsAreDead` proves this.
- **Status patch.** An update sets a given status as is, so a PUBLISHED article can go back to DRAFT.
- **Publish time.** `publishArticle` overwrites an existing publish time.
- **Slug on update.** `updateArticle` does not check that the new slug is free. A collision
  surfaces as the database's unique-index violation on `articles.slug`, not as `DuplicateResource`.
- **Deleting a referenced author or category.** The services do not check for articles first;
  the foreign keys `articles.author_id` and `articles.category_id` refuse the delete with a
  `ConstraintViolation`. For categories this follows from `Category.java`, whose article list has
  no cascade. For authors it is an assumption: `Author.java` is not part of this model, and the
  model assumes its article list has no cascade either.

## Model

All source paths are under `src/main/java/com/mz/blog/`.

| member | source | states |
|---|---|---|
| Entities.IncrementViewCount | src/main/java/com/mz/blog/entity/Article.java:67-69 | the view count rises by one as a Java int: at 2^31-1 it wraps to -2^31; title, slug, content, references, status and publish time are untouched |
| Entities.IncrementTimesAddsN | src/main/java/com/mz/blog/entity/Article.java:67-69 | n increments without overflow raise the view count by exactly n and touch nothing else |
| Entities.IncrementAtMaxWraps | src/main/java/com/mz/blog/entity/Article.java:54-69 | when the view count is 2^31-1, one more view sets it to -2^31, which is below its previous value |
| Entities.Publish | src/main/java/com/mz/blog/entity/Article.java:71-74 | status becomes PUBLISHED and the publish time is the current time whatever it was; content and references untouched |
| Entities.PublishTwice | src/main/java/com/mz/blog/entity/Article.java:71-74 | publishing twice equals publishing once at the second time |
| Slug.KeepAlnum | src/main/java/com/mz/blog/mapper/ArticleMapper.java:107 | the kept characters are all in `[a-zA-Z0-9]` and no more than the input |
| Slug.GenerateSlug | src/main/java/com/mz/blog/mapper/ArticleMapper.java:105-111 | the slug has only lower-case ASCII letters and digits, is no longer than the title, and equals the title lower-cased and filtered to alphanumerics |
| Slug.PipelineIsFilter | src/main/java/com/mz/blog/mapper/ArticleMapper.java:105-111 | the four-step pipeline as written computes the reference definition "alphanumerics, lower-cased" |
| Slug.HyphenStepsAreDead | src/main/java/com/mz/blog/mapper/ArticleMapper.java:108-109 | the whitespace-to-hyphen and hyphen-collapsing rewrites leave the stripped title unchanged |
| Slug.TrimSlug | src/main/java/com/mz/blog/mapper/ArticleMapper.java:110 | trimming a string of letters and digits changes nothing |
| Slug.SlugHasNoSeparators | src/main/java/com/mz/blog/mapper/ArticleMapper.java:105-111 | no slug holds a hyphen or whitespace, so none starts or ends with one |
| Slug.SlugIdempotent | src/main/java/com/mz/blog/mapper/ArticleMapper.java:105-111 | generating a slug from a slug gives the same slug |
| SlugExamples.HelloWorldExample | src/main/java/com/mz/blog/mapper/ArticleMapper.java:106-107 | "Hello World" gives "helloworld" |
| SlugExamples.HelloWorldShoutedExample | src/main/java/com/mz/blog/mapper/ArticleMapper.java:106-107 | "Hello   World!!" gives "helloworld" as well |
| Store.InsertAuthor | src/main/java/com/mz/blog/service/AuthorService.java:39-41 | the author is saved under the next id; integrity holds when no author has its email |
| Store.InsertCategory | src/main/java/com/mz/blog/entity/Category.java:24-25 | the unique index on the name refuses a taken name with a ConstraintViolation; otherwise the category is added under the next id and integrity holds |
| Store.InsertArticle | src/main/java/com/mz/blog/entity/Article.java:30-48 | the unique index on the slug refuses a taken slug; otherwise the article is added under the next id, and integrity holds when author and category exist |
| Store.SaveArticle | src/main/java/com/mz/blog/entity/Article.java:30-31 | saving under an existing id is refused exactly when another article holds the slug; otherwise only that row changes |
| Store.InsertComment | src/main/java/com/mz/blog/entity/Comment.java:25-27 | the comment is added under the next id; integrity holds when its article exists |
| Store.RemoveAuthor | src/main/java/com/mz/blog/entity/Article.java:42-44 | the author_id foreign key refuses the delete exactly when some article references the author; otherwise only that author goes and integrity holds |
| Store.RemoveCategory | src/main/java/com/mz/blog/entity/Article.java:46-48 | the category_id foreign key refuses the delete exactly when some article is filed under the category; otherwise only that category goes |
| Store.RemoveArticle | src/main/java/com/mz/blog/entity/Article.java:50-51 | the article goes and, by cascade with orphan removal, exactly its comments; other comments are kept unchanged |
| Store.RemoveComment | src/main/java/com/mz/blog/service/CommentService.java:124 | only that comment is removed and integrity holds |
| Repository.FindBySlug | src/main/java/com/mz/blog/repository/ArticleRepository.java:17-18 | none exactly when no article has the slug (existsBySlug is false); otherwise the one article holding it |
| Repository.FindByStatus | src/main/java/com/mz/blog/repository/ArticleRepository.java:20 | every listed article has the status, none twice, as many as there are such articles, newest first |
| Repository.FindByStatusComplete | src/main/java/com/mz/blog/repository/ArticleRepository.java:20 | an article is listed exactly when it has the status |
| Repository.FindByAuthorId | src/main/java/com/mz/blog/repository/ArticleRepository.java:22 | every listed article is the author's, none twice, as many as the author has, newest first |
| Repository.FindByAuthorIdComplete | src/main/java/com/mz/blog/repository/ArticleRepository.java:22 | an article is listed exactly when the author wrote it |
| Repository.FindByCategoryId | src/main/java/com/mz/blog/repository/ArticleRepository.java:24 | every listed article is in the category, none twice, as many as the category has, newest first |
| Repository.FindByCategoryIdComplete | src/main/java/com/mz/blog/repository/ArticleRepository.java:24 | an article is listed exactly when it is in the category |
| Repository.SearchArticles | src/main/java/com/mz/blog/repository/ArticleRepository.java:26-31 | every listed article holds the keyword, ignoring case, in its title or content; none twice; as many as there are hits; newest first |
| Repository.SearchArticlesComplete | src/main/java/com/mz/blog/repository/ArticleRepository.java:26-31 | an article is listed exactly when lower(keyword) is a substring of lower(title) or lower(content) |
| Repository.EmptyKeywordMatchesAll | src/main/java/com/mz/blog/repository/ArticleRepository.java:26-31 | the empty keyword lists every article |
| Repository.MentionsByIndex | src/main/java/com/mz/blog/repository/ArticleRepository.java:26-31 | the search condition holds exactly when the lower-cased keyword occurs at some index of the lower-cased title or content |
| Repository.FindCommentsByArticleId | src/main/java/com/mz/blog/repository/CommentRepository.java:12 | every listed comment is on the article, none twice, as many as the article has, newest first |
| Repository.FindCommentsByArticleIdComplete | src/main/java/com/mz/blog/repository/CommentRepository.java:12 | a comment is listed exactly when it is on the article |
| Repository.FindCommentsByArticleIdAndApproved | src/main/java/com/mz/blog/repository/CommentRepository.java:13 | every listed comment is on the article with that approval, none twice, counted exactly, newest first |
| Repository.FindCommentsByArticleIdAndApprovedComplete | src/main/java/com/mz/blog/repository/CommentRepository.java:13 | a comment is listed exactly when it is on the article with that approval |
| Repository.FindAll | src/main/java/com/mz/blog/service/AuthorService.java:61-67 | every id of the table once, ascending or descending on the sort key |
| Repository.FindAllComplete | src/main/java/com/mz/blog/service/AuthorService.java:67 | findAll lists exactly the ids of the table |
| Repository.CommentList | src/main/java/com/mz/blog/entity/Article.java:50-51 | the article's comment list holds exactly the comments on it, none twice |
| Paging.SortDirection | src/main/java/com/mz/blog/service/AuthorService.java:61-63 | ascending exactly when the direction is "asc" ignoring case; every other string is descending |
| Paging.PageRequest | src/main/java/com/mz/blog/service/AuthorService.java:64 | a negative page or a size below one is refused; otherwise the request is accepted as given |
| Paging.BuildPageResponse | src/main/java/com/mz/blog/service/ArticleService.java:228-238 | the mapped content with the page's number, size, totals, first and last copied unchanged |
| Paging.Window | src/main/java/com/mz/blog/service/CommentService.java:68-71 | the page'th window holds the result's elements from page * size on, in order, min(size, remaining) of them, and nothing past the end |
| Paging.PageOf | src/main/java/com/mz/blog/service/CommentService.java:68-71 | a page carries the window and the whole result's total; it is first exactly on page 0 and last exactly when the pages up to it hold every element |
| Paging.PageCount | src/main/java/com/mz/blog/service/ArticleService.java:234 | the page count is the ceiling of total over size: one page fewer cannot hold every element, this many can |
| Paging.EveryElementOnItsPage | src/main/java/com/mz/blog/service/CommentService.java:68-71 | no element is lost by paging: element k of the result is entry k % size of page k / size |
| AuthorMapper.ToEntity | src/main/java/com/mz/blog/mapper/AuthorMapper.java:12-18 | name, email and bio copied unchanged |
| AuthorMapper.UpdateEntity | src/main/java/com/mz/blog/mapper/AuthorMapper.java:20-30 | a given field overwrites, an absent field keeps the author's value |
| AuthorMapper.EmptyUpdateIsIdentity | src/main/java/com/mz/blog/mapper/AuthorMapper.java:20-30 | an all-absent request changes nothing |
| AuthorMapper.UpdateIsIdempotent | src/main/java/com/mz/blog/mapper/AuthorMapper.java:20-30 | the same request applied twice equals applying it once |
| AuthorMapper.ToResponse | src/main/java/com/mz/blog/mapper/AuthorMapper.java:32-41 | stored fields copied; the article count is the number of articles referencing the author |
| CategoryMapper.ToEntity | src/main/java/com/mz/blog/mapper/CategoryMapper.java:15-20 | name and description copied unchanged |
| CategoryMapper.ToResponse | src/main/java/com/mz/blog/mapper/CategoryMapper.java:23-31 | stored fields copied; the article count is the number of articles in the category |
| CommentMapper.ToEntity | src/main/java/com/mz/blog/mapper/CommentMapper.java:16-24 | linked to the given article, fields copied, and never approved |
| CommentMapper.ToResponse | src/main/java/com/mz/blog/mapper/CommentMapper.java:26-36 | the owning article's id, the approved flag, content and author fields copied |
| ArticleMapper.ToEntity | src/main/java/com/mz/blog/mapper/ArticleMapper.java:26-37 | a DRAFT with view count 0 and no publish time, slug generated from the title, the given author and category |
| ArticleMapper.ApplyStatus | src/main/java/com/mz/blog/mapper/ArticleMapper.java:56-61 | the status is set as given; the publish time is stamped only for PUBLISHED over a missing time, and kept otherwise |
| ArticleMapper.UpdateEntity | src/main/java/com/mz/blog/mapper/ArticleMapper.java:39-62 | each absent field keeps title, slug, excerpt, content, category and status; a new title replaces title and slug, the slug regenerated from it; author, views and creation time kept |
| ArticleMapper.EmptyUpdateIsIdentity | src/main/java/com/mz/blog/mapper/ArticleMapper.java:39-56 | an all-absent request with no category changes nothing |
| ArticleMapper.UpdatePublishKeepsFirstTime | src/main/java/com/mz/blog/mapper/ArticleMapper.java:56-61 | publishing through updates twice keeps the first publish time |
| ArticleMapper.UpdateCanUnpublish | src/main/java/com/mz/blog/mapper/ArticleMapper.java:56-57 | an update can set a PUBLISHED article back to DRAFT, keeping its publish time |
| ArticleMapper.ToResponse | src/main/java/com/mz/blog/mapper/ArticleMapper.java:64-81 | slug, status, view count and times copied; author and category names resolved; the comment count is the number of comments on the article |
| ArticleMapper.ToDetailResponse | src/main/java/com/mz/blog/mapper/ArticleMapper.java:83-103 | the stored fields including excerpt and creation time, the author's and category's own representations, and the representation of every comment on the article, each exactly once |
| AuthorService.GetAuthorEntityById | src/main/java/com/mz/blog/service/AuthorService.java:114-119 | the stored author exactly when the id exists; otherwise NotFound("Author","id",id) |
| AuthorService.GetAuthorById | src/main/java/com/mz/blog/service/AuthorService.java:47-55 | NotFound exactly when the id is absent; otherwise the response carries the stored author's id, name, email, bio and creation time and the number of articles that reference the author |
| AuthorService.CreateAuthor | src/main/java/com/mz/blog/service/AuthorService.java:32-45 | DuplicateResource exactly when the email is registered; otherwise one new author under a fresh id, other tables unchanged, integrity (unique emails) kept |
| AuthorService.CreatedAuthorReadsBack | src/main/java/com/mz/blog/service/AuthorService.java:32-55 | an author created with a free email reads back by its new id as exactly the creation's response, with the requested fields and no articles |
| AuthorService.UpdateAuthor | src/main/java/com/mz/blog/service/AuthorService.java:86-103 | NotFound on a missing id; DuplicateResource exactly when a given, changed email is registered; otherwise only that author is patched and emails stay unique |
| AuthorService.DeleteAuthor | src/main/java/com/mz/blog/service/AuthorService.java:105-113 | NotFound on a missing id; refused exactly when the author still has articles; otherwise only that author is removed |
| AuthorService.ResponsePage | src/main/java/com/mz/blog/service/AuthorService.java:67-83 | the ids listed are exactly the page'th window of the ordered list, none twice, each mapped to its response, in the list's order; the total count, the page count (the ceiling of total over size), page size, first and last follow the list |
| AuthorService.GetAllAuthors | src/main/java/com/mz/blog/service/AuthorService.java:57-84 | an invalid page is refused; otherwise the ids listed are exactly the page'th window of findAll ordered by the key in the requested direction, none twice, with the author count as total and last set when the pages up to it hold every author; the page count is the ceiling of that total over the size, first is set exactly on page 0 and last exactly when the pages up to this one hold every entry |
| CategoryService.GetCategoryEntityById | src/main/java/com/mz/blog/service/CategoryService.java:99-103 | the stored category exactly when the id exists; otherwise NotFound("Category","id",id) |
| CategoryService.GetCategoryById | src/main/java/com/mz/blog/service/CategoryService.java:51-58 | NotFound with the resource name spelled "category" exactly when the id is absent; otherwise the response carries the stored category's id, name, description and creation time and the number of articles filed under it |
| CategoryService.CreateCategory | src/main/java/com/mz/blog/service/CategoryService.java:36-48 | DuplicateResource exactly when the name is taken; otherwise one new category under a fresh id, other tables unchanged, names stay unique |
| CategoryService.CreatedCategoryReadsBack | src/main/java/com/mz/blog/service/CategoryService.java:36-58 | a category created with a free name reads back by its new id as exactly the creation's response, with the requested fields and no articles |
| CategoryService.DeleteCategory | src/main/java/com/mz/blog/service/CategoryService.java:90-97 | NotFound on a missing id; refused exactly when an article is filed under it; otherwise only that category is removed |
| CategoryService.ResponsePage | src/main/java/com/mz/blog/service/CategoryService.java:70-86 | the ids listed are exactly the page'th window of the ordered list, none twice, each mapped to its response, in the list's order; the total count, the page count (the ceiling of total over size), page size, first and last follow the list |
| CategoryService.GetAllCategories | src/main/java/com/mz/blog/service/CategoryService.java:61-87 | an invalid page is refused; otherwise the ids listed are exactly the page'th window of findAll ordered by the key in the requested direction, none twice, with the category count as total; the page count is the ceiling of that total over the size, first is set exactly on page 0 and last exactly when the pages up to this one hold every entry |
| ArticleService.FindArticle | src/main/java/com/mz/blog/service/ArticleService.java:65-66 | the stored article exactly when the id exists; otherwise NotFound("Article","id",id) |
| ArticleService.CreateArticle | src/main/java/com/mz/blog/service/ArticleService.java:42-59 | NotFound for a missing author, then for a missing category; DuplicateResource exactly when the generated slug is taken; otherwise one new DRAFT article with 0 views and 0 comments, other tables unchanged, slugs stay unique |
| ArticleService.GetArticleById | src/main/java/com/mz/blog/service/ArticleService.java:61-69 | NotFound exactly when the id is absent; otherwise the article's full detail representation, comments included |
| ArticleService.GetArticleBySlug | src/main/java/com/mz/blog/service/ArticleService.java:71-79 | NotFound("Article","slug",slug) exactly when no article holds the slug; otherwise the full detail representation of the article that does |
| ArticleService.IncrementViewCount | src/main/java/com/mz/blog/service/ArticleService.java:81-90 | NotFound on a missing id; otherwise only that article changes, by one view |
| ArticleService.ResponsePage | src/main/java/com/mz/blog/service/ArticleService.java:104-110 | the ids listed are exactly the page'th window of the ordered, filtered list, none twice, each mapped to its response and satisfying the filter, in the list's order; the total count, the page count (the ceiling of total over size), page size, first and last follow the list |
| ArticleService.GetAllArticles | src/main/java/com/mz/blog/service/ArticleService.java:92-111 | an invalid page is refused; otherwise the ids listed are exactly the page'th window of findAll ordered by the key in the requested direction, none twice, with the article count as total; the page count is the ceiling of that total over the size, first is set exactly on page 0 and last exactly when the pages up to this one hold every entry |
| ArticleService.GetArticlesByStatus | src/main/java/com/mz/blog/service/ArticleService.java:112-128 | the ids listed are exactly the page'th window of findByStatus, none twice, each with the status, newest first, with the number of such articles as total; the page count is the ceiling of that total over the size, first is set exactly on page 0 and last exactly when the pages up to this one hold every entry |
| ArticleService.GetArticlesByAuthor | src/main/java/com/mz/blog/service/ArticleService.java:130-148 | NotFound on a missing author before the page request is looked at; otherwise the ids listed are exactly the page'th window of findByAuthorId, none twice, each the author's, newest first, counted exactly; the page count is the ceiling of that total over the size, first is set exactly on page 0 and last exactly when the pages up to this one hold every entry |
| ArticleService.GetArticlesByCategory | src/main/java/com/mz/blog/service/ArticleService.java:150-168 | NotFound on a missing category before the page request is looked at; otherwise the ids listed are exactly the page'th window of findByCategoryId, none twice, each in the category, newest first, counted exactly; the page count is the ceiling of that total over the size, first is set exactly on page 0 and last exactly when the pages up to this one hold every entry |
| ArticleService.SearchArticles | src/main/java/com/mz/blog/service/ArticleService.java:170-186 | the ids listed are exactly the page'th window of the search query, none twice, each mentioning the keyword, newest first, counted exactly; the page count is the ceiling of that total over the size, first is set exactly on page 0 and last exactly when the pages up to this one hold every entry |
| ArticleService.ResolveCategory | src/main/java/com/mz/blog/service/ArticleService.java:195-198 | no category when none is given; a given id is kept exactly when that category exists, otherwise NotFound on it |
| ArticleService.UpdateArticle | src/main/java/com/mz/blog/service/ArticleService.java:188-205 | NotFound on a missing article, then on a given but missing category; refused exactly when the patched slug is held by another article; otherwise only that article is patched; the response shows the patched article's title, slug, excerpt, status, publish time and category |
| ArticleService.PublishArticle | src/main/java/com/mz/blog/service/ArticleService.java:207-216 | NotFound on a missing id; otherwise only that article changes, to PUBLISHED at the current time |
| ArticleService.DeleteArticle | src/main/java/com/mz/blog/service/ArticleService.java:218-226 | NotFound on a missing id; otherwise the article and exactly its comments are removed, every other comment is kept unchanged, authors, categories and id counters are unchanged, and integrity is kept |
| CommentService.FindComment | src/main/java/com/mz/blog/service/CommentService.java:55-56 | the stored comment exactly when the id exists; otherwise NotFound("Comment","id",id) |
| CommentService.CreateComment | src/main/java/com/mz/blog/service/CommentService.java:38-49 | NotFound exactly when the article is missing; otherwise one new unapproved comment on it under a fresh id, other tables unchanged |
| CommentService.GetCommentById | src/main/java/com/mz/blog/service/CommentService.java:51-58 | NotFound exactly when the id is absent; otherwise the response carries the stored comment's id, article id, author name and email, content, approval flag and creation time |
| CommentService.ResponsePage | src/main/java/com/mz/blog/service/CommentService.java:71-79 | the ids listed are exactly the page'th window of the newest-first list, none twice, each mapped to its response and satisfying the filter, in the list's order; the total count, the page count (the ceiling of total over size), page size, first and last follow the list |
| CommentService.GetCommentsByArticle | src/main/java/com/mz/blog/service/CommentService.java:60-80 | NotFound on a missing article; otherwise the ids listed are exactly the page'th window of findByArticleId, none twice, each on the article, newest first, counted exactly; the page count is the ceiling of that total over the size, first is set exactly on page 0 and last exactly when the pages up to this one hold every entry |
| CommentService.GetApprovedCommentsByArticle | src/main/java/com/mz/blog/service/CommentService.java:82-102 | NotFound on a missing article; otherwise the ids listed are exactly the page'th window of findByArticleIdAndApproved, none twice, each approved and on the article, newest first, counted exactly; the page count is the ceiling of that total over the size, first is set exactly on page 0 and last exactly when the pages up to this one hold every entry |
| CommentService.ApproveComment | src/main/java/com/mz/blog/service/CommentService.java:104-116 | NotFound on a missing id; otherwise only that comment changes, to approved |
| CommentService.DeleteComment | src/main/java/com/mz/blog/service/CommentService.java:118-126 | NotFound on a missing id; otherwise only that comment is removed |
| CommentService.ApproveIsIdempotent | src/main/java/com/mz/blog/service/CommentService.java:108-112 | approving twice leaves the store as approving once |
| CommentService.CreatedCommentReadsBack | src/main/java/com/mz/blog/service/CommentService.java:39-58 | a created comment reads back, unapproved, under the returned id |
| CommentService.DeletedCommentIsGone | src/main/java/com/mz/blog/service/CommentService.java:119-124 | after deletion the lookup is NotFound |
| CommentService.ModerationGatesApprovedListing | src/main/java/com/mz/blog/service/CommentService.java:71-111 | a new comment is listed among the article's comments but not the approved ones until it is approved |
| CommentService.EveryCommentIsOnSomePage | src/main/java/com/mz/blog/service/CommentService.java:60-80 | whatever the page size, every comment of an article appears on some page of the article's comment listing |
| Scenarios.SameSlugIsRefused | src/main/java/com/mz/blog/service/ArticleService.java:49-53 | a second title with the same slug is refused with DuplicateResource once the first is created |
| Scenarios.HelloWorldCollides | src/main/java/com/mz/blog/service/ArticleService.java:49-53 | "Hello World" and "Hello   World!!" collide on "helloworld" |
| Scenarios.DeleteFreesSlug | src/main/java/com/mz/blog/service/ArticleService.java:218-226 | deleting the article holding a slug frees that slug |
| Scenarios.ReferencedAuthorIsKept | src/main/java/com/mz/blog/entity/Article.java:42-44 | the author of an existing article can not be deleted |
| Scenarios.ReferencedCategoryIsKept | src/main/java/com/mz/blog/entity/Article.java:46-48 | the category of an existing article can not be deleted |
| Scenarios.CascadeRemovesComments | src/main/java/com/mz/blog/entity/Article.java:50-51 | once its article is deleted a comment's lookup is NotFound |
| Scenarios.PublishTwiceOverwrites | src/main/java/com/mz/blog/service/ArticleService.java:210-213 | publishing twice keeps the second time |
| Scenarios.UpdateToPublishedTwiceKeepsFirst | src/main/java/com/mz/blog/mapper/ArticleMapper.java:56-61 | reaching PUBLISHED through update twice keeps the first time |
| Scenarios.CreatedArticleReadsBack | src/main/java/com/mz/blog/service/ArticleService.java:42-79 | a created article reads back by id and by its slug |
| Scenarios.SameEmailIsRefused | src/main/java/com/mz/blog/service/AuthorService.java:36-38 | once an author is created, a second author with the same email is refused with DuplicateResource on that email |
| Scenarios.ResubmittedEmailIsAccepted | src/main/java/com/mz/blog/service/AuthorService.java:93-97 | an update that repeats the author's own email is not a conflict and succeeds |
| Scenarios.SameCategoryNameIsRefused | src/main/java/com/mz/blog/service/CategoryService.java:39-41 | once a category is created, a second category with the same name is refused with DuplicateResource on that name |
| Scenarios.EmptyArticleUpdateKeepsStore | src/main/java/com/mz/blog/service/ArticleService.java:188-205 | an update that gives no field succeeds and leaves the whole store as it was |
| Scenarios.SlugLookupAgreesWithId | src/main/java/com/mz/blog/service/ArticleService.java:61-79 | looking an article up by its slug gives the same result as looking it up by its id |
| Scenarios.CommentShowsInDetail | src/main/java/com/mz/blog/mapper/ArticleMapper.java:83-97 | after a comment is created, its article's detail lists it and holds one comment more than before |

## Left out

- Controllers, the exception handler and the OpenAPI configuration. They do HTTP routing, status
  codes and documentation only. The controller's "read then count a view" is the composition of
  `GetArticleById` and `IncrementViewCount`.
- Bean Validation of request DTOs (sizes, `@Email`). It runs before the services, and any
  request value is accepted here.
- `updatedOn` and `@UpdateTimestamp`. `toResponse` and `toDetailResponse` copy `updatedOn` into
  both article representations; the model drops the field from both, because it would need a
  clock reading on every write. The clock is a parameter `now` wherever the code calls
  `LocalDateTime.now()` or relies on `@CreationTimestamp`.
- Unicode case mapping. `toLowerCase` and `equalsIgnoreCase` are modelled on ASCII letters only;
  other characters are kept as they are.
- The JVM default locale. `generateSlug` calls `toLowerCase()` without a locale, so it lowers by
  the default locale. The model assumes a default locale that lowers ASCII letters the plain ASCII
  way. Under a Turkish or Azeri default locale, `'I'` lowers to a dotless `'ı'`, which the
  `[^a-zA-Z0-9]` filter then deletes ("Intro" would become "ntro"); that case is not modelled.
- SearchArticles: only keywords without the LIKE wildcards `%` and `_` and without a backslash.
  The code does not escape them, and there is no ESCAPE clause. A wildcard keyword matches by
  pattern, not by substring. PostgreSQL, MySQL and H2 take the backslash as LIKE's default escape
  character. The database in use is not part of this model, so keywords holding it are left out.
- GetAllAuthors, GetAllCategories, GetAllArticles: `Sort.by(sortBy)` on an arbitrary field name
  is abstracted to an integer sort key. An unknown field name, which the library rejects, is not
  modelled.
- Listing order among rows with equal sort keys. The database leaves it open; the model fixes
  ascending id.
- Spring's page arithmetic (`totalPages`, `isLast`) is modelled as `Paging.PageOf` and
  `Paging.PageCount` rather than taken from the library.
- Author.java and CategoryRepository.java are not part of this model. Email uniqueness is kept
  as an integrity invariant that the author service maintains. Lazy loading is not modelled.
- Transactions and concurrency. In particular, the race between a uniqueness check and the
  write is out of scope; every operation is atomic.
- `CommentRepository.countByArticleIdAndApproved`: no service calls it.
