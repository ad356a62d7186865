/** Translation between category requests, category entities and the category representation. */
module CategoryMapper {
  import opened Outcomes
  import opened Entities
  import opened Requests
  import opened Store

  datatype CategoryResponse = CategoryResponse(
    id: Id,
    name: string,
    description: Option<string>,
    articleCount: int,
    createdOn: Instant)

  /** toEntity: name and description are copied unchanged. */
  function ToEntity(req: CreateCategoryRequest, now: Instant): (c: Category)
    ensures c.name == req.name && c.description == req.description && c.createdOn == now
  {
    Category(req.name, req.description, now)
  }

  /** toResponse: the stored fields, and the number of articles filed under the category. */
  function ToResponse(s: Store, id: Id): (r: CategoryResponse)
    requires id in s.categories
    ensures r.id == id
    ensures r.name == s.categories[id].name && r.description == s.categories[id].description
    ensures r.createdOn == s.categories[id].createdOn
    ensures r.articleCount == |set a | a in s.articles && s.articles[a].categoryId == id|
  {
    var c := s.categories[id];
    CategoryResponse(id, c.name, c.description, |ArticlesOfCategory(s, id)|, c.createdOn)
  }

  /** The representations of a sequence of categories, in order. */
  function ToResponses(s: Store, ids: seq<Id>): (r: seq<CategoryResponse>)
    requires forall i :: 0 <= i < |ids| ==> ids[i] in s.categories
    ensures |r| == |ids|
    ensures forall i :: 0 <= i < |ids| ==> r[i] == ToResponse(s, ids[i])
  {
    seq(|ids|, i requires 0 <= i < |ids| => ToResponse(s, ids[i]))
  }

  /**
   * The ids of a list of representations, in order. Each representation type carries its own id
   * field, so each mapper has its own projection, as it has its own ToResponses.
   */
  function Ids(rs: seq<CategoryResponse>): (ids: seq<Id>)
    ensures |ids| == |rs|
    ensures forall i :: 0 <= i < |rs| ==> ids[i] == rs[i].id
  {
    seq(|rs|, i requires 0 <= i < |rs| => rs[i].id)
  }
}
