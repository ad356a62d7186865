/**
 * The author use cases: create with a unique email, look up, list a page in a chosen order,
 * patch with a re-check of a changed email, and delete.
 */
module AuthorService {
  import opened Outcomes
  import opened Entities
  import opened Requests
  import opened Store
  import opened Ordering
  import opened Repository
  import opened Paging
  import opened AuthorMapper

  /** getAuthorEntityById: the stored author, or NotFound on its id. */
  function GetAuthorEntityById(s: Store, id: Id): (r: Result<Author>)
    ensures r.Ok? <==> id in s.authors
    ensures r.Ok? ==> r.value == s.authors[id]
    ensures r.Err? ==> r.error == NotFound("Author", "id", IdKey(id))
  {
    if id in s.authors then Ok(s.authors[id]) else Err(NotFound("Author", "id", IdKey(id)))
  }

  /** getAuthorById: the author's representation, or NotFound on its id. */
  function GetAuthorById(s: Store, id: Id): (r: Result<AuthorResponse>)
    ensures r.Ok? <==> id in s.authors
    ensures r.Ok? ==> r.value.id == id && r.value.email == s.authors[id].email && r.value.name == s.authors[id].name
    ensures r.Ok? ==> r.value.bio == s.authors[id].bio && r.value.createdOn == s.authors[id].createdOn
    ensures r.Ok? ==> r.value.articleCount == |ArticlesOfAuthor(s, id)|
    ensures r.Err? ==> r.error == NotFound("Author", "id", IdKey(id))
  {
    var a :- GetAuthorEntityById(s, id);
    Ok(ToResponse(s, id))
  }

  /**
   * createAuthor: refused with DuplicateResource when the email is registered already; otherwise
   * exactly one author is added under a fresh id, with the requested fields and no articles.
   */
  function CreateAuthor(s: Store, req: CreateAuthorRequest, now: Instant): (r: Result<(Store, AuthorResponse)>)
    requires Valid(s)
    ensures r.Err? <==> ExistsByEmail(s, req.email)
    ensures r.Err? ==> r.error == DuplicateResource("Author", "email", TextKey(req.email))
    ensures r.Ok? ==> Valid(r.value.0)
    ensures r.Ok? ==> r.value.1.id !in s.authors
    ensures r.Ok? ==> r.value.0.authors == s.authors[r.value.1.id := Author(req.name, req.email, req.bio, now)]
    ensures r.Ok? ==> r.value.0.articles == s.articles && r.value.0.categories == s.categories && r.value.0.comments == s.comments
    ensures r.Ok? ==> r.value.1.email == req.email && r.value.1.articleCount == 0
  {
    if ExistsByEmail(s, req.email) then Err(DuplicateResource("Author", "email", TextKey(req.email)))
    else
      var inserted := InsertAuthor(s, AuthorMapper.ToEntity(req, now));
      var t := inserted.0;
      var id := inserted.1;
      assert id !in s.authors;
      assert UniqueEmails(t.authors) by {
        forall j | j in s.authors ensures s.authors[j].email != req.email {
        }
      }
      assert ArticlesOfAuthor(t, id) == {} by {
        forall a | a in t.articles ensures t.articles[a].authorId != id {
          assert t.articles[a].authorId in s.authors;
        }
      }
      Ok((t, ToResponse(t, id)))
  }

  /** The duplicate check of updateAuthor: the email is given, differs from the current one, and is registered. */
  predicate EmailConflict(s: Store, id: Id, email: Option<string>)
    requires id in s.authors
  {
    email.Some? && email.value != s.authors[id].email && ExistsByEmail(s, email.value)
  }

  /**
   * updateAuthor: NotFound on a missing id; DuplicateResource when a changed email is registered
   * to some author; otherwise only that author changes, patched with the given fields.
   */
  function UpdateAuthor(s: Store, id: Id, req: UpdateAuthorRequest): (r: Result<(Store, AuthorResponse)>)
    requires Valid(s)
    ensures id !in s.authors ==> r == Err(NotFound("Author", "id", IdKey(id)))
    ensures id in s.authors ==> (r.Err? <==> EmailConflict(s, id, req.email))
    ensures id in s.authors && r.Err? ==> r.error == DuplicateResource("Author", "email", TextKey(req.email.value))
    ensures r.Ok? ==> Valid(r.value.0)
    ensures r.Ok? ==> r.value.0 == s.(authors := s.authors[id := UpdateEntity(s.authors[id], req)])
    ensures r.Ok? ==> r.value.1 == ToResponse(r.value.0, id)
  {
    var author :- GetAuthorEntityById(s, id);
    if EmailConflict(s, id, req.email) then Err(DuplicateResource("Author", "email", TextKey(req.email.value)))
    else
      var t := s.(authors := s.authors[id := UpdateEntity(author, req)]);
      assert UniqueEmails(t.authors) by {
        forall i, j | i in t.authors && j in t.authors && t.authors[i].email == t.authors[j].email
          ensures i == j
        {
          if i != j && (i == id || j == id) {
            assert false;
          }
        }
      }
      Ok((t, ToResponse(t, id)))
  }

  /**
   * deleteAuthor: NotFound on a missing id; the store refuses to remove an author an article
   * still references; otherwise only that author is removed.
   */
  function DeleteAuthor(s: Store, id: Id): (r: Result<Store>)
    requires Valid(s)
    ensures id !in s.authors ==> r == Err(NotFound("Author", "id", IdKey(id)))
    ensures id in s.authors ==> (r.Err? <==> ArticlesOfAuthor(s, id) != {})
    ensures id in s.authors && r.Err? ==> r.error == ConstraintViolation("articles", "author_id", IdKey(id))
    ensures r.Ok? ==> Valid(r.value) && id !in r.value.authors
    ensures r.Ok? ==> r.value == s.(authors := s.authors - {id})
  {
    var _ :- GetAuthorEntityById(s, id);
    RemoveAuthor(s, id)
  }

  /**
   * The page'th window of an ordered list of authors, each mapped to its representation; the
   * window keeps the list's order.
   */
  function ResponsePage(s: Store, all: seq<Id>, key: Author -> int, ascending: bool, page: nat, size: nat): (r: PageResponse<AuthorResponse>)
    requires size >= 1 && Distinct(all)
    requires forall i :: 0 <= i < |all| ==> all[i] in s.authors
    requires forall i, j :: 0 <= i < j < |all| ==>
      if ascending then key(s.authors[all[i]]) <= key(s.authors[all[j]]) else key(s.authors[all[i]]) >= key(s.authors[all[j]])
    ensures r.totalElements == |all| && r.pageNumber == page && r.pageSize == size
    ensures r.totalPages == PageCount(|all|, size)
    ensures (r.first <==> page == 0) && (r.last <==> ReachesEnd(page, size, |all|))
    ensures Ids(r.content) == Window(all, page, size)
    ensures forall i, j :: 0 <= i < j < |r.content| ==> r.content[i].id != r.content[j].id
    ensures forall k :: 0 <= k < |r.content| ==> r.content[k].id in s.authors && r.content[k] == ToResponse(s, r.content[k].id)
    ensures forall i, j :: 0 <= i < j < |r.content| ==>
      if ascending then key(s.authors[r.content[i].id]) <= key(s.authors[r.content[j].id])
      else key(s.authors[r.content[i].id]) >= key(s.authors[r.content[j].id])
  {
    var p := PageOf(all, page, size);
    var r := BuildPageResponse(p, ToResponses(s, p.content));
    assert Ids(r.content) == p.content;
    DistinctIndices(all);
    forall i, j | 0 <= i < j < |r.content|
      ensures r.content[i].id != r.content[j].id && (if ascending then key(s.authors[r.content[i].id]) <= key(s.authors[r.content[j].id])
        else key(s.authors[r.content[i].id]) >= key(s.authors[r.content[j].id]))
    {
      assert r.content[i].id == all[page * size + i];
      assert r.content[j].id == all[page * size + j];
    }
    r
  }

  /**
   * getAllAuthors: the page'th window of all authors ordered by key, ascending when sortDir
   * equals "asc" ignoring case and descending otherwise; an invalid page request is refused.
   */
  function GetAllAuthors(s: Store, page: int, size: int, key: Author -> int, sortDir: string): (r: Result<PageResponse<AuthorResponse>>)
    requires Valid(s)
    ensures r.Ok? <==> page >= 0 && size >= 1
    ensures r.Err? ==> r.error == InvalidPageRequest(page, size)
    ensures r.Ok? ==> r.value.totalElements == |s.authors| && r.value.pageNumber == page && r.value.pageSize == size
    ensures r.Ok? ==> r.value.totalPages == PageCount(r.value.totalElements, size)
    ensures r.Ok? ==> (r.value.first <==> page == 0) && (r.value.last <==> ReachesEnd(page, size, r.value.totalElements))
    ensures r.Ok? ==> Ids(r.value.content) == Window(FindAll(s.authors, s.nextAuthorId, key, SortDirection(sortDir) == Ascending), page, size)
    ensures r.Ok? ==> forall i, j :: 0 <= i < j < |r.value.content| ==> r.value.content[i].id != r.value.content[j].id
    ensures r.Ok? ==> forall k :: 0 <= k < |r.value.content| ==>
      r.value.content[k].id in s.authors && r.value.content[k] == ToResponse(s, r.value.content[k].id)
    ensures r.Ok? ==> forall i, j :: 0 <= i < j < |r.value.content| ==>
      if SortDirection(sortDir) == Ascending
      then key(s.authors[r.value.content[i].id]) <= key(s.authors[r.value.content[j].id])
      else key(s.authors[r.value.content[i].id]) >= key(s.authors[r.value.content[j].id])
  {
    var (p, n) :- PageRequest(page, size);
    var ascending := SortDirection(sortDir) == Ascending;
    Ok(ResponsePage(s, FindAll(s.authors, s.nextAuthorId, key, ascending), key, ascending, p, n))
  }

  /** A created author can be read back under the id the creation returned, with the requested fields and no articles. */
  lemma CreatedAuthorReadsBack(s: Store, req: CreateAuthorRequest, now: Instant)
    requires Valid(s) && !ExistsByEmail(s, req.email)
    ensures CreateAuthor(s, req, now).Ok?
    ensures
      var (t, created) := CreateAuthor(s, req, now).value;
      && GetAuthorById(t, created.id) == Ok(created)
      && created.name == req.name && created.email == req.email && created.bio == req.bio
      && created.createdOn == now && created.articleCount == 0
  {
  }
}
