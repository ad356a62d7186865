/** Translation between author requests, author entities and the author representation. */
module AuthorMapper {
  import opened Outcomes
  import opened Entities
  import opened Requests
  import opened Store

  datatype AuthorResponse = AuthorResponse(
    id: Id,
    name: string,
    email: string,
    bio: Option<string>,
    articleCount: int,
    createdOn: Instant)

  /** toEntity: name, email and bio are copied unchanged; the creation time is stamped by the store. */
  function ToEntity(req: CreateAuthorRequest, now: Instant): (a: Author)
    ensures a.name == req.name && a.email == req.email && a.bio == req.bio
    ensures a.createdOn == now
  {
    Author(req.name, req.email, req.bio, now)
  }

  /** updateEntity: each field the request gives overwrites the author's, each absent one is kept. */
  function UpdateEntity(a: Author, req: UpdateAuthorRequest): (r: Author)
    ensures req.name.None? ==> r.name == a.name
    ensures req.name.Some? ==> r.name == req.name.value
    ensures req.email.None? ==> r.email == a.email
    ensures req.email.Some? ==> r.email == req.email.value
    ensures req.bio.None? ==> r.bio == a.bio
    ensures req.bio.Some? ==> r.bio == req.bio
    ensures r.createdOn == a.createdOn
  {
    a.(name := Patch(req.name, a.name), email := Patch(req.email, a.email), bio := if req.bio.Some? then req.bio else a.bio)
  }

  /** An update request with every field absent changes nothing. */
  lemma EmptyUpdateIsIdentity(a: Author)
    ensures UpdateEntity(a, UpdateAuthorRequest(None, None, None)) == a
  {
  }

  /** Applying the same update twice is the same as applying it once. */
  lemma UpdateIsIdempotent(a: Author, req: UpdateAuthorRequest)
    ensures UpdateEntity(UpdateEntity(a, req), req) == UpdateEntity(a, req)
  {
  }

  /** toResponse: the stored fields, and the number of articles that reference the author. */
  function ToResponse(s: Store, id: Id): (r: AuthorResponse)
    requires id in s.authors
    ensures r.id == id
    ensures r.name == s.authors[id].name && r.email == s.authors[id].email && r.bio == s.authors[id].bio
    ensures r.createdOn == s.authors[id].createdOn
    ensures r.articleCount == |set a | a in s.articles && s.articles[a].authorId == id|
  {
    var a := s.authors[id];
    AuthorResponse(id, a.name, a.email, a.bio, |ArticlesOfAuthor(s, id)|, a.createdOn)
  }

  /** The representations of a sequence of authors, in order. */
  function ToResponses(s: Store, ids: seq<Id>): (r: seq<AuthorResponse>)
    requires forall i :: 0 <= i < |ids| ==> ids[i] in s.authors
    ensures |r| == |ids|
    ensures forall i :: 0 <= i < |ids| ==> r[i] == ToResponse(s, ids[i])
  {
    seq(|ids|, i requires 0 <= i < |ids| => ToResponse(s, ids[i]))
  }

  /**
   * The ids of a list of representations, in order. Each representation type carries its own id
   * field, so each mapper has its own projection, as it has its own ToResponses.
   */
  function Ids(rs: seq<AuthorResponse>): (ids: seq<Id>)
    ensures |ids| == |rs|
    ensures forall i :: 0 <= i < |rs| ==> ids[i] == rs[i].id
  {
    seq(|rs|, i requires 0 <= i < |rs| => rs[i].id)
  }
}
