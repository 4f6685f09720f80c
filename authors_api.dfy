/**
 * The authors controller and its repository. `GetById` and `Add` follow
 * `AuthorRepository`; `HasBooks` and `Remove`, which the controller calls
 * but no repository declares, are kept to what the controller relies on:
 * which ids `HasBooks` answers true for, and the calls made to `Remove`,
 * whose effect on the table lies outside this model.
 */
module AuthorsApi {
  import opened Wrappers
  import opened Models
  import Text

  /** The author DTOs, one per author, in order. */
  function AuthorDtos(authors: seq<Author>): (ds: seq<AuthorDto>)
    ensures |ds| == |authors|
    ensures forall i :: 0 <= i < |ds| ==> ds[i].id == authors[i].id && ds[i].name == authors[i].name
  {
    seq(|authors|, i requires 0 <= i < |authors| => AuthorDto(authors[i].id, authors[i].name))
  }

  /** `GetAll` given the repository's answer: "No authors found." for null or empty, else the DTOs. */
  function GetAll(authors: Option<seq<Author>>): (r: ActionResult<seq<AuthorDto>>)
    ensures r.NotFound? <==> authors.None? || authors.value == []
    ensures r.NotFound? ==> r.body == Some("No authors found.")
    ensures r.Ok? || r.NotFound?
    ensures r.Ok? ==> |r.value| == |authors.value|
                      && forall i :: 0 <= i < |r.value| ==>
                           r.value[i].id == authors.value[i].id && r.value[i].name == authors.value[i].name
  {
    if authors.None? || authors.value == [] then NotFound(Some("No authors found."))
    else Ok(AuthorDtos(authors.value))
  }

  /** `GetById` given the repository's answer: not found for null, else that author's DTO. */
  function GetById(author: Option<Author>): (r: ActionResult<AuthorDto>)
    ensures r.NotFound? <==> author.None?
    ensures r.Ok? || r == NotFound(None)
    ensures r.Ok? ==> r.value.id == author.value.id && r.value.name == author.value.name
  {
    match author
    case None => NotFound(None)
    case Some(a) => Ok(AuthorDto(a.id, a.name))
  }

  /** The first author with that id (the table's key lookup), if any. */
  function FindAuthor(authors: seq<Author>, id: int): (r: Option<Author>)
    ensures r.None? <==> forall a :: a in authors ==> a.id != id
    ensures r.Some? ==> r.value in authors && r.value.id == id
  {
    var k := AuthorIndex(authors, id);
    if k < 0 then None else Some(authors[k])
  }

  /** The author repository as the controller uses it. */
  class AuthorRepository {
    var authors: seq<Author>
    /** The ids for which `HasBooks` answers true. */
    var withBooks: set<int>
    /** The ids passed to `Remove`, in call order. */
    var removed: seq<int>

    constructor (authors: seq<Author>, withBooks: set<int>)
      ensures this.authors == authors && this.withBooks == withBooks && removed == []
    {
      this.authors := authors;
      this.withBooks := withBooks;
      removed := [];
    }

    function GetById(id: int): (r: Option<Author>)
      reads this
      ensures r.None? <==> forall a :: a in authors ==> a.id != id
      ensures r.Some? ==> r.value in authors && r.value.id == id
    {
      FindAuthor(authors, id)
    }

    /** Whether the author still has books: answered from the set the repository was given. */
    predicate HasBooks(id: int): (r: bool)
      reads this
      ensures r <==> id in withBooks
    {
      id in withBooks
    }

    /** Inserts the author; `newId` is the identity the database assigns on saving. */
    method Add(author: Author, newId: int) returns (created: Author)
      modifies this
      ensures created == author.(id := newId)
      ensures authors == old(authors) + [created]
      ensures withBooks == old(withBooks) && removed == old(removed)
    {
      created := author.(id := newId);
      authors := authors + [created];
    }

    /** Records the call; what it does to the table is not modelled. */
    method Remove(id: int)
      modifies this
      ensures removed == old(removed) + [id]
      ensures authors == old(authors) && withBooks == old(withBooks)
    {
      removed := removed + [id];
    }
  }

  class AuthorsController {
    const repository: AuthorRepository

    constructor (repository: AuthorRepository)
      ensures this.repository == repository
    {
      this.repository := repository;
    }

    /**
     * `Create`: a null or white-space name is refused and nothing is added;
     * otherwise the trimmed name, which is not blank, is stored under a
     * fresh id and echoed back.
     */
    method Create(dto: Option<CreateAuthorDto>, newId: int) returns (r: ActionResult<AuthorDto>)
      requires forall a :: a in repository.authors ==> a.id != newId
      modifies repository
      ensures dto.None? || Text.IsNullOrWhiteSpace(Some(dto.value.name)) ==>
                r == BadRequest("Invalid author data.") && unchanged(repository)
      ensures dto.Some? && !Text.IsNullOrWhiteSpace(Some(dto.value.name)) ==>
                var name := Text.Trim(Text.DotNet, dto.value.name);
                && name != [] && Text.Trim(Text.DotNet, name) == name
                && repository.authors == old(repository.authors) + [Author(newId, name)]
                && r == Created(newId, AuthorDto(newId, name))
      ensures repository.withBooks == old(repository.withBooks) && repository.removed == old(repository.removed)
    {
      if dto.None? || Text.IsNullOrWhiteSpace(Some(dto.value.name)) {
        return BadRequest("Invalid author data.");
      }
      Text.TrimIdempotent(Text.DotNet, dto.value.name);
      var createdAuthor := repository.Add(Author(0, Text.Trim(Text.DotNet, dto.value.name)), newId);
      var result := AuthorDto(createdAuthor.id, createdAuthor.name);
      return Created(createdAuthor.id, result);
    }

    /**
     * `Delete`: not found when the id is unknown, refused when the author
     * has books, and otherwise exactly one call of `Remove` with that id.
     */
    method Delete(id: int) returns (r: ActionResult<()>)
      modifies repository
      ensures old(repository.GetById(id)).None? ==>
                r == NotFound(None) && repository.removed == old(repository.removed)
      ensures old(repository.GetById(id)).Some? && id in old(repository.withBooks) ==>
                r == BadRequest("Cannot delete an author with associated books.")
                && repository.removed == old(repository.removed)
      ensures old(repository.GetById(id)).Some? && id !in old(repository.withBooks) ==>
                r == NoContent && repository.removed == old(repository.removed) + [id]
      ensures repository.authors == old(repository.authors) && repository.withBooks == old(repository.withBooks)
    {
      var existingAuthor := repository.GetById(id);
      if existingAuthor.None? {
        return NotFound(None);
      }
      if repository.HasBooks(id) {
        return BadRequest("Cannot delete an author with associated books.");
      }
      repository.Remove(id);
      return NoContent;
    }
  }
}
