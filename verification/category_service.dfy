/**
 * The category use cases: create with a unique name, look up, list a page in a chosen order,
 * and delete. Categories are never updated.
 */
module CategoryService {
  import opened Outcomes
  import opened Entities
  import opened Requests
  import opened Store
  import opened Ordering
  import opened Repository
  import opened Paging
  import opened CategoryMapper

  /** getCategoryEntityById: the stored category, or NotFound on its id. */
  function GetCategoryEntityById(s: Store, id: Id): (r: Result<Category>)
    ensures r.Ok? <==> id in s.categories
    ensures r.Ok? ==> r.value == s.categories[id]
    ensures r.Err? ==> r.error == NotFound("Category", "id", IdKey(id))
  {
    if id in s.categories then Ok(s.categories[id]) else Err(NotFound("Category", "id", IdKey(id)))
  }

  /** getCategoryById: the category's representation, or NotFound, whose resource name is spelt in lower case here. */
  function GetCategoryById(s: Store, id: Id): (r: Result<CategoryResponse>)
    ensures r.Ok? <==> id in s.categories
    ensures r.Ok? ==> r.value.id == id && r.value.name == s.categories[id].name
    ensures r.Ok? ==> r.value.description == s.categories[id].description && r.value.createdOn == s.categories[id].createdOn
    ensures r.Ok? ==> r.value.articleCount == |ArticlesOfCategory(s, id)|
    ensures r.Err? ==> r.error == NotFound("category", "id", IdKey(id))
  {
    if id in s.categories then Ok(ToResponse(s, id)) else Err(NotFound("category", "id", IdKey(id)))
  }

  /**
   * createCategory: refused with DuplicateResource when the name is taken already; otherwise
   * exactly one category is added under a fresh id, with the requested fields and no articles.
   */
  function CreateCategory(s: Store, req: CreateCategoryRequest, now: Instant): (r: Result<(Store, CategoryResponse)>)
    requires Valid(s)
    ensures r.Err? <==> ExistsByName(s, req.name)
    ensures r.Err? ==> r.error == DuplicateResource("Category", "name", TextKey(req.name))
    ensures r.Ok? ==> Valid(r.value.0)
    ensures r.Ok? ==> r.value.1.id !in s.categories
    ensures r.Ok? ==> r.value.0.categories == s.categories[r.value.1.id := Category(req.name, req.description, now)]
    ensures r.Ok? ==> r.value.0.authors == s.authors && r.value.0.articles == s.articles && r.value.0.comments == s.comments
    ensures r.Ok? ==> r.value.1.name == req.name && r.value.1.articleCount == 0
  {
    if ExistsByName(s, req.name) then Err(DuplicateResource("Category", "name", TextKey(req.name)))
    else
      var saved := InsertCategory(s, CategoryMapper.ToEntity(req, now));
      assert saved.Ok?;
      var (t, id) := saved.value;
      assert id !in s.categories;
      assert ArticlesOfCategory(t, id) == {} by {
        forall a | a in t.articles ensures t.articles[a].categoryId != id {
          assert t.articles[a].categoryId in s.categories;
        }
      }
      Ok((t, ToResponse(t, id)))
  }

  /**
   * deleteCategory: NotFound on a missing id; the store refuses to remove a category an article
   * is still filed under; otherwise only that category is removed.
   */
  function DeleteCategory(s: Store, id: Id): (r: Result<Store>)
    requires Valid(s)
    ensures id !in s.categories ==> r == Err(NotFound("Category", "id", IdKey(id)))
    ensures id in s.categories ==> (r.Err? <==> ArticlesOfCategory(s, id) != {})
    ensures id in s.categories && r.Err? ==> r.error == ConstraintViolation("articles", "category_id", IdKey(id))
    ensures r.Ok? ==> Valid(r.value) && id !in r.value.categories
    ensures r.Ok? ==> r.value == s.(categories := s.categories - {id})
  {
    var _ :- GetCategoryEntityById(s, id);
    RemoveCategory(s, id)
  }

  /**
   * The page'th window of an ordered list of categories, each mapped to its representation; the
   * window keeps the list's order.
   */
  function ResponsePage(s: Store, all: seq<Id>, key: Category -> int, ascending: bool, page: nat, size: nat): (r: PageResponse<CategoryResponse>)
    requires size >= 1 && Distinct(all)
    requires forall i :: 0 <= i < |all| ==> all[i] in s.categories
    requires forall i, j :: 0 <= i < j < |all| ==>
      if ascending then key(s.categories[all[i]]) <= key(s.categories[all[j]])
      else key(s.categories[all[i]]) >= key(s.categories[all[j]])
    ensures r.totalElements == |all| && r.pageNumber == page && r.pageSize == size
    ensures r.totalPages == PageCount(|all|, size)
    ensures (r.first <==> page == 0) && (r.last <==> ReachesEnd(page, size, |all|))
    ensures Ids(r.content) == Window(all, page, size)
    ensures forall i, j :: 0 <= i < j < |r.content| ==> r.content[i].id != r.content[j].id
    ensures forall k :: 0 <= k < |r.content| ==>
      r.content[k].id in s.categories && r.content[k] == ToResponse(s, r.content[k].id)
    ensures forall i, j :: 0 <= i < j < |r.content| ==>
      if ascending then key(s.categories[r.content[i].id]) <= key(s.categories[r.content[j].id])
      else key(s.categories[r.content[i].id]) >= key(s.categories[r.content[j].id])
  {
    var p := PageOf(all, page, size);
    var r := BuildPageResponse(p, ToResponses(s, p.content));
    assert Ids(r.content) == p.content;
    DistinctIndices(all);
    forall i, j | 0 <= i < j < |r.content|
      ensures r.content[i].id != r.content[j].id && (if ascending then key(s.categories[r.content[i].id]) <= key(s.categories[r.content[j].id])
        else key(s.categories[r.content[i].id]) >= key(s.categories[r.content[j].id]))
    {
      assert r.content[i].id == all[page * size + i];
      assert r.content[j].id == all[page * size + j];
    }
    r
  }

  /**
   * getAllCategories: the page'th window of all categories ordered by key, ascending when sortDir
   * equals "asc" ignoring case and descending otherwise; an invalid page request is refused.
   */
  function GetAllCategories(s: Store, page: int, size: int, key: Category -> int, sortDir: string): (r: Result<PageResponse<CategoryResponse>>)
    requires Valid(s)
    ensures r.Ok? <==> page >= 0 && size >= 1
    ensures r.Err? ==> r.error == InvalidPageRequest(page, size)
    ensures r.Ok? ==> r.value.totalElements == |s.categories| && r.value.pageNumber == page && r.value.pageSize == size
    ensures r.Ok? ==> r.value.totalPages == PageCount(r.value.totalElements, size)
    ensures r.Ok? ==> (r.value.first <==> page == 0) && (r.value.last <==> ReachesEnd(page, size, r.value.totalElements))
    ensures r.Ok? ==> Ids(r.value.content) == Window(FindAll(s.categories, s.nextCategoryId, key, SortDirection(sortDir) == Ascending), page, size)
    ensures r.Ok? ==> forall i, j :: 0 <= i < j < |r.value.content| ==> r.value.content[i].id != r.value.content[j].id
    ensures r.Ok? ==> forall k :: 0 <= k < |r.value.content| ==>
      r.value.content[k].id in s.categories && r.value.content[k] == ToResponse(s, r.value.content[k].id)
    ensures r.Ok? ==> forall i, j :: 0 <= i < j < |r.value.content| ==>
      if SortDirection(sortDir) == Ascending
      then key(s.categories[r.value.content[i].id]) <= key(s.categories[r.value.content[j].id])
      else key(s.categories[r.value.content[i].id]) >= key(s.categories[r.value.content[j].id])
  {
    var (p, n) :- PageRequest(page, size);
    var ascending := SortDirection(sortDir) == Ascending;
    Ok(ResponsePage(s, FindAll(s.categories, s.nextCategoryId, key, ascending), key, ascending, p, n))
  }

  /** A created category can be read back under the id the creation returned, with the requested fields and no articles. */
  lemma CreatedCategoryReadsBack(s: Store, req: CreateCategoryRequest, now: Instant)
    requires Valid(s) && !ExistsByName(s, req.name)
    ensures CreateCategory(s, req, now).Ok?
    ensures
      var (t, created) := CreateCategory(s, req, now).value;
      && GetCategoryById(t, created.id) == Ok(created)
      && created.name == req.name && created.description == req.description
      && created.createdOn == now && created.articleCount == 0
  {
  }
}
