/**
 * The request shapes the services receive. Bean Validation runs before the services, so the
 * required fields are present; optional ones are Option values. An update request's None
 * stands for a Java null, which means "leave this field unchanged".
 */
module Requests {
  import opened Outcomes
  import opened Entities

  datatype CreateArticleRequest = CreateArticleRequest(
    title: string,
    content: string,
    excerpt: Option<string>,
    authorId: Id,
    categoryId: Id)

  datatype UpdateArticleRequest = UpdateArticleRequest(
    title: Option<string>,
    content: Option<string>,
    excerpt: Option<string>,
    categoryId: Option<Id>,
    status: Option<ArticleStatus>)

  datatype CreateAuthorRequest = CreateAuthorRequest(name: string, email: string, bio: Option<string>)

  datatype UpdateAuthorRequest = UpdateAuthorRequest(name: Option<string>, email: Option<string>, bio: Option<string>)

  datatype CreateCategoryRequest = CreateCategoryRequest(name: string, description: Option<string>)

  datatype CreateCommentRequest = CreateCommentRequest(
    articleId: Id,
    authorName: string,
    authorEmail: string,
    content: string)

  /** Patch semantics of an update request field: a given value overwrites, an absent one keeps the current value. */
  function Patch<T>(given: Option<T>, current: T): (r: T)
    ensures given.None? ==> r == current
    ensures given.Some? ==> r == given.value
  {
    if given.Some? then given.value else current
  }
}
