/**
 * The entities, the data transfer objects and the HTTP results of the
 * backend, as values. Navigation properties (`Book.Author`,
 * `Author.Books`, ...) are not part of the model.
 */
module Models {
  import opened Wrappers

  /** A book's identifier; the source uses `Guid`, of which only equality matters here. */
  type Guid = int

  datatype Book = Book(id: Guid, title: string, authorId: int, publisherId: int, isBorrowed: bool)

  datatype Author = Author(id: int, name: string)

  datatype Publisher = Publisher(id: int, name: string)

  /** The first position of `s` whose key is `id`, or -1: the `FindIndex`/`FirstOrDefault` search of every table. */
  function FirstIndex<T>(s: seq<T>, key: T -> int, id: int): (k: int)
    ensures -1 <= k < |s|
    ensures k >= 0 ==> key(s[k]) == id
    ensures forall j :: 0 <= j < k ==> key(s[j]) != id
    ensures k == -1 <==> forall j :: 0 <= j < |s| ==> key(s[j]) != id
  {
    if s == [] then -1
    else if key(s[0]) == id then 0
    else
      var k := FirstIndex(s[1..], key, id);
      if k == -1 then -1 else k + 1
  }

  /** The first position of an author table holding that id, or -1. */
  function AuthorIndex(authors: seq<Author>, id: int): int
  {
    FirstIndex(authors, (a: Author) => a.id, id)
  }

  /** The first position of a publisher table holding that id, or -1. */
  function PublisherIndex(publishers: seq<Publisher>, id: int): int
  {
    FirstIndex(publishers, (p: Publisher) => p.id, id)
  }

  /** The book DTO as the controller reads and writes it: ids and names of author and publisher. */
  datatype BookDto = BookDto(
    id: Guid,
    title: string,
    authorId: int,
    authorName: string,
    publisherId: int,
    publisherName: string,
    isBorrowed: bool)

  datatype AuthorDto = AuthorDto(id: int, name: string)

  datatype PublisherDto = PublisherDto(id: int, name: string)

  datatype CreateAuthorDto = CreateAuthorDto(name: string)

  datatype CreatePublisherDto = CreatePublisherDto(name: string)

  /**
   * What an action returns: 200 with a value, 404 with an optional body,
   * 400 with a message, 204, or 201 naming the created entity's id
   * (the route value of `CreatedAtAction`) together with the body.
   */
  datatype ActionResult<T> =
    | Ok(value: T)
    | NotFound(body: Option<string>)
    | BadRequest(message: string)
    | NoContent
    | Created(id: int, value: T)
}
