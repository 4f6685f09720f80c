/**
 * The books controller: listing and lookup mapped to DTOs, and the guarded
 * transitions Create, Update, Delete, Borrow and Return over the book
 * repository. Each transition is first given as a function from the stored
 * list to an `Outcome`; the controller's methods are proved to produce
 * exactly that outcome, and the properties of the system are lemmas and
 * postconditions about the functions.
 */
module BooksApi {
  import opened Wrappers
  import opened Models
  import opened BookStore
  import Text

  /** What an action answers, and the stored list afterwards. */
  datatype Outcome<T> = Outcome(result: ActionResult<T>, store: seq<Book>)

  /** `FirstOrDefault(a => a.Id == id)?.Name ?? "Unknown"`: the first matching author's name, else "Unknown". */
  function AuthorName(authors: seq<Author>, id: int): (name: string)
    ensures (forall a :: a in authors ==> a.id != id) ==> name == "Unknown"
    ensures (exists a :: a in authors && a.id == id) ==>
              exists k :: 0 <= k < |authors| && authors[k].id == id && name == authors[k].name
                          && forall j :: 0 <= j < k ==> authors[j].id != id
  {
    var k := AuthorIndex(authors, id);
    if k < 0 then "Unknown" else authors[k].name
  }

  /** The same lookup for the publisher's name. */
  function PublisherName(publishers: seq<Publisher>, id: int): (name: string)
    ensures (forall p :: p in publishers ==> p.id != id) ==> name == "Unknown"
    ensures (exists p :: p in publishers && p.id == id) ==>
              exists k :: 0 <= k < |publishers| && publishers[k].id == id && name == publishers[k].name
                          && forall j :: 0 <= j < k ==> publishers[j].id != id
  {
    var k := PublisherIndex(publishers, id);
    if k < 0 then "Unknown" else publishers[k].name
  }

  /** The DTO for one book; the names come from the given author and publisher tables. */
  function ToDto(b: Book, authors: seq<Author>, publishers: seq<Publisher>): (d: BookDto)
    ensures d.id == b.id && d.title == b.title && d.authorId == b.authorId
    ensures d.publisherId == b.publisherId && d.isBorrowed == b.isBorrowed
    ensures d.authorName == AuthorName(authors, b.authorId)
    ensures d.publisherName == PublisherName(publishers, b.publisherId)
  {
    BookDto(b.id, b.title, b.authorId, AuthorName(authors, b.authorId),
            b.publisherId, PublisherName(publishers, b.publisherId), b.isBorrowed)
  }

  /** The request is refused as invalid: no body, or a null or white-space title. */
  predicate IsInvalid(dto: Option<BookDto>) {
    dto.None? || Text.IsNullOrWhiteSpace(Some(dto.value.title))
  }

  /** The book `Create` stores for a valid request. */
  function NewBook(dto: BookDto, id: Guid): Book {
    Book(id, dto.title, dto.authorId, dto.publisherId, false)
  }

  /** `Create`: an invalid request is refused; otherwise one new, available book is appended. */
  function CreateBook(store: seq<Book>, dto: Option<BookDto>, newId: Guid): (o: Outcome<BookDto>)
    ensures IsInvalid(dto) ==> o == Outcome(BadRequest("Invalid book data."), store)
    ensures !IsInvalid(dto) ==> o.result == Created(newId, dto.value)
    ensures !IsInvalid(dto) ==>
              && |o.store| == |store| + 1 && o.store[..|store|] == store
              && var b := o.store[|store|];
                 b.id == newId && !b.isBorrowed && b.title == dto.value.title
                 && b.authorId == dto.value.authorId && b.publisherId == dto.value.publisherId
    ensures UniqueIds(store) && IsFresh(store, newId) ==> UniqueIds(o.store)
  {
    if IsInvalid(dto) then Outcome(BadRequest("Invalid book data."), store)
    else Outcome(Created(newId, dto.value), store + [NewBook(dto.value, newId)])
  }

  /** The book after `Update` copies the DTO's title, author and publisher into it. */
  function Edited(b: Book, dto: BookDto): Book {
    b.(title := dto.title, authorId := dto.authorId, publisherId := dto.publisherId)
  }

  /**
   * `Update`: checks, in this order, the request, the id and the borrowed
   * flag; only an accepted update changes the store, and it changes only
   * the title, author and publisher of the first book with that id.
   */
  function UpdateBook(store: seq<Book>, id: Guid, dto: Option<BookDto>): (o: Outcome<()>)
    ensures !o.result.NoContent? ==> o.store == store
    ensures IsInvalid(dto) ==> o.result == BadRequest("Invalid book data.")
    ensures !IsInvalid(dto) && Lookup(store, id).None? ==> o.result == NotFound(None)
    ensures !IsInvalid(dto) && Lookup(store, id).Some? && Lookup(store, id).value.isBorrowed ==>
              o.result == BadRequest("Cannot update a borrowed book.")
    ensures o.result.NoContent? <==> !IsInvalid(dto) && Lookup(store, id).Some? && !Lookup(store, id).value.isBorrowed
    ensures o.result.NoContent? ==>
              && |o.store| == |store|
              && var k := FindIndex(store, id);
                 && o.store[k].id == store[k].id && o.store[k].isBorrowed == store[k].isBorrowed
                 && o.store[k].title == dto.value.title && o.store[k].authorId == dto.value.authorId
                 && o.store[k].publisherId == dto.value.publisherId
                 && forall j :: 0 <= j < |store| && j != k ==> o.store[j] == store[j]
    ensures UniqueIds(store) ==> UniqueIds(o.store)
  {
    if IsInvalid(dto) then Outcome(BadRequest("Invalid book data."), store)
    else match Lookup(store, id)
      case None => Outcome(NotFound(None), store)
      case Some(b) =>
        if b.isBorrowed then Outcome(BadRequest("Cannot update a borrowed book."), store)
        else Outcome(NoContent, ReplaceById(store, Edited(b, dto.value)))
  }

  /** `Delete`: a missing id is not found, a borrowed book stays, an available one is removed. */
  function DeleteBook(store: seq<Book>, id: Guid): (o: Outcome<()>)
    ensures Lookup(store, id).None? ==> o == Outcome(NotFound(None), store)
    ensures Lookup(store, id).Some? && Lookup(store, id).value.isBorrowed ==>
              o == Outcome(BadRequest("Cannot delete a borrowed book."), store)
    ensures o.result.NoContent? <==> Lookup(store, id).Some? && !Lookup(store, id).value.isBorrowed
    ensures o.result.NoContent? ==>
              && |o.store| == |store| - 1
              && o.store == store[..FindIndex(store, id)] + store[FindIndex(store, id) + 1..]
    ensures UniqueIds(store) ==> UniqueIds(o.store)
    ensures UniqueIds(store) && o.result.NoContent? ==> Lookup(o.store, id).None?
  {
    var k := FindIndex(store, id);
    if k < 0 then
      assert Lookup(store, id) == None;
      Outcome(NotFound(None), store)
    else
      assert Lookup(store, id) == Some(store[k]);
      if store[k].isBorrowed then Outcome(BadRequest("Cannot delete a borrowed book."), store)
      else
        var r := RemoveById(store, id);
        assert r == store[..k] + store[k + 1..];
        Outcome(NoContent, r)
  }

  /** The stored list with the borrowed flag of the first book with `id` set to `flag`. */
  function SetBorrowed(store: seq<Book>, id: Guid, flag: bool): (r: seq<Book>)
    requires Lookup(store, id).Some?
    ensures |r| == |store|
    ensures r[FindIndex(store, id)] == store[FindIndex(store, id)].(isBorrowed := flag)
    ensures forall j :: 0 <= j < |store| && j != FindIndex(store, id) ==> r[j] == store[j]
    ensures Lookup(r, id) == Some(Lookup(store, id).value.(isBorrowed := flag))
    ensures UniqueIds(store) ==> UniqueIds(r)
  {
    var b := Lookup(store, id).value;
    var r := ReplaceById(store, b.(isBorrowed := flag));
    assert FindIndex(r, id) == FindIndex(store, id);
    r
  }

  /** `Borrow`: succeeds exactly on an available book, which becomes borrowed. */
  function BorrowBook(store: seq<Book>, id: Guid): (o: Outcome<()>)
    ensures o.result.NoContent? <==> Lookup(store, id).Some? && !Lookup(store, id).value.isBorrowed
    ensures Lookup(store, id).None? ==> o == Outcome(NotFound(None), store)
    ensures Lookup(store, id).Some? && Lookup(store, id).value.isBorrowed ==>
              o == Outcome(BadRequest("Book is already borrowed."), store)
    ensures o.result.NoContent? ==> o.store == SetBorrowed(store, id, true)
    ensures o.result.NoContent? ==> Lookup(o.store, id) == Some(Lookup(store, id).value.(isBorrowed := true))
    ensures UniqueIds(store) ==> UniqueIds(o.store)
  {
    match Lookup(store, id)
    case None => Outcome(NotFound(None), store)
    case Some(b) =>
      if b.isBorrowed then Outcome(BadRequest("Book is already borrowed."), store)
      else Outcome(NoContent, ReplaceById(store, b.(isBorrowed := true)))
  }

  /** `Return`: succeeds exactly on a borrowed book, which becomes available. */
  function ReturnBook(store: seq<Book>, id: Guid): (o: Outcome<()>)
    ensures o.result.NoContent? <==> Lookup(store, id).Some? && Lookup(store, id).value.isBorrowed
    ensures Lookup(store, id).None? ==> o == Outcome(NotFound(None), store)
    ensures Lookup(store, id).Some? && !Lookup(store, id).value.isBorrowed ==>
              o == Outcome(BadRequest("Book is not borrowed."), store)
    ensures o.result.NoContent? ==> o.store == SetBorrowed(store, id, false)
    ensures o.result.NoContent? ==> Lookup(o.store, id) == Some(Lookup(store, id).value.(isBorrowed := false))
    ensures UniqueIds(store) ==> UniqueIds(o.store)
  {
    match Lookup(store, id)
    case None => Outcome(NotFound(None), store)
    case Some(b) =>
      if !b.isBorrowed then Outcome(BadRequest("Book is not borrowed."), store)
      else Outcome(NoContent, ReplaceById(store, b.(isBorrowed := false)))
  }

  /** A successful Borrow followed by Return gives back the original store. */
  lemma BorrowThenReturn(store: seq<Book>, id: Guid)
    requires BorrowBook(store, id).result.NoContent?
    ensures ReturnBook(BorrowBook(store, id).store, id) == Outcome(NoContent, store)
  {
    var k := FindIndex(store, id);
    var borrowed := SetBorrowed(store, id, true);
    assert FindIndex(borrowed, id) == k;
    var back := SetBorrowed(borrowed, id, false);
    assert back[k] == store[k];
    assert back == store;
  }


  /** A successful Return followed by Borrow gives back the original store. */
  lemma ReturnThenBorrow(store: seq<Book>, id: Guid)
    requires ReturnBook(store, id).result.NoContent?
    ensures BorrowBook(ReturnBook(store, id).store, id) == Outcome(NoContent, store)
  {
    var k := FindIndex(store, id);
    var returned := SetBorrowed(store, id, false);
    assert FindIndex(returned, id) == k;
    var back := SetBorrowed(returned, id, true);
    assert back[k] == store[k];
    assert back == store;
  }


  /**
   * A borrowed book can be neither edited nor deleted, and a second
   * Borrow is refused: the store is the same after each attempt.
   */
  lemma BorrowedBookIsFrozen(store: seq<Book>, id: Guid, dto: Option<BookDto>)
    requires Lookup(store, id).Some? && Lookup(store, id).value.isBorrowed
    ensures UpdateBook(store, id, dto).store == store && !UpdateBook(store, id, dto).result.NoContent?
    ensures DeleteBook(store, id) == Outcome(BadRequest("Cannot delete a borrowed book."), store)
    ensures BorrowBook(store, id) == Outcome(BadRequest("Book is already borrowed."), store)
  {
  }

  /**
   * Create "Emma", borrow it, try to delete it (refused), return it,
   * delete it: the store is empty again.
   */
  lemma EmmaScenario(id: Guid, authorId: int, publisherId: int)
    ensures var dto := BookDto(0, "Emma", authorId, "", publisherId, "", false);
            var s1 := CreateBook([], Some(dto), id);
            var s2 := BorrowBook(s1.store, id);
            var s3 := DeleteBook(s2.store, id);
            var s4 := ReturnBook(s3.store, id);
            var s5 := DeleteBook(s4.store, id);
            && s1.result == Created(id, dto) && s2.result == NoContent
            && s3.result == BadRequest("Cannot delete a borrowed book.")
            && s4.result == NoContent && s5 == Outcome(NoContent, [])
  {
    var dto := BookDto(0, "Emma", authorId, "", publisherId, "", false);
    assert !Text.IsBlank(Text.DotNet, "Emma") by {
      assert !Text.IsWhiteSpace(Text.DotNet, "Emma"[0]);
    }
    var emma := Book(id, "Emma", authorId, publisherId, false);
    var lent := emma.(isBorrowed := true);
    var s1 := CreateBook([], Some(dto), id);
    assert s1 == Outcome(Created(id, dto), [emma]);
    var s2 := BorrowBook(s1.store, id);
    assert s2 == Outcome(NoContent, [lent]) by {
      assert FindIndex([emma], id) == 0;
      assert Lookup([emma], id) == Some(emma);
    }
    assert Lookup([lent], id) == Some(lent) by {
      assert FindIndex([lent], id) == 0;
    }
    var s3 := DeleteBook(s2.store, id);
    assert s3 == Outcome(BadRequest("Cannot delete a borrowed book."), [lent]);
    var s4 := ReturnBook(s3.store, id);
    assert s4 == Outcome(NoContent, [emma]);
    assert RemoveById([emma], id) == [];
  }

  /** The controller over the book repository of `BookRepository.cs`. */
  class BooksController {
    const repository: BookRepository

    constructor (repository: BookRepository)
      ensures this.repository == repository
    {
      this.repository := repository;
    }

    /**
     * `GetAll`: one DTO per listed book, in the repository's order. The
     * author and publisher names come from the given tables (the seed data
     * of `StaticData`), or are "Unknown".
     */
    function GetAll(title: Option<string>, authorId: Option<int>, authors: seq<Author>, publishers: seq<Publisher>)
      : (r: ActionResult<seq<BookDto>>)
      reads repository, repository.list
      ensures r.Ok?
      ensures |r.value| == |repository.GetAll(title, authorId)|
      ensures forall i :: 0 <= i < |r.value| ==>
                r.value[i] == ToDto(repository.GetAll(title, authorId)[i], authors, publishers)
    {
      var books := repository.GetAll(title, authorId);
      Ok(seq(|books|, i requires 0 <= i < |books| => ToDto(books[i], authors, publishers)))
    }

    /** `GetById`: not found for an unknown id, else the DTO of the first book with that id. */
    function GetById(id: Guid, authors: seq<Author>, publishers: seq<Publisher>): (r: ActionResult<BookDto>)
      reads repository, repository.list
      ensures r.NotFound? <==> forall b :: b in repository.list.books ==> b.id != id
      ensures r.Ok? || r == NotFound(None)
      ensures r.Ok? ==> r.value.id == id
                        && r.value == ToDto(repository.list.books[FindIndex(repository.list.books, id)], authors, publishers)
    {
      match repository.GetById(id)
      case None => NotFound(None)
      case Some(book) => Ok(ToDto(book, authors, publishers))
    }

    /** `Create`; `newId` stands for the `Guid.NewGuid()` the source draws, and is fresh. */
    method Create(dto: Option<BookDto>, newId: Guid) returns (r: ActionResult<BookDto>)
      requires IsFresh(repository.list.books, newId)
      modifies repository.list
      ensures Outcome(r, repository.list.books) == CreateBook(old(repository.list.books), dto, newId)
    {
      if dto.None? || Text.IsNullOrWhiteSpace(Some(dto.value.title)) {
        return BadRequest("Invalid book data.");
      }
      var book := Book(newId, dto.value.title, dto.value.authorId, dto.value.publisherId, false);
      repository.Add(book);
      return Created(book.id, dto.value);
    }

    method Update(id: Guid, dto: Option<BookDto>) returns (r: ActionResult<()>)
      modifies repository.list
      ensures Outcome(r, repository.list.books) == UpdateBook(old(repository.list.books), id, dto)
    {
      if dto.None? || Text.IsNullOrWhiteSpace(Some(dto.value.title)) {
        return BadRequest("Invalid book data.");
      }
      var existingBook := repository.GetById(id);
      if existingBook.None? {
        return NotFound(None);
      }
      if existingBook.value.isBorrowed {
        return BadRequest("Cannot update a borrowed book.");
      }
      var edited := existingBook.value.(title := dto.value.title, authorId := dto.value.authorId,
                                        publisherId := dto.value.publisherId);
      repository.Update(edited);
      return NoContent;
    }

    method Delete(id: Guid) returns (r: ActionResult<()>)
      modifies repository.list
      ensures Outcome(r, repository.list.books) == DeleteBook(old(repository.list.books), id)
    {
      var existingBook := repository.GetById(id);
      if existingBook.None? {
        return NotFound(None);
      }
      if existingBook.value.isBorrowed {
        return BadRequest("Cannot delete a borrowed book.");
      }
      repository.Remove(id);
      return NoContent;
    }

    method Borrow(id: Guid) returns (r: ActionResult<()>)
      modifies repository.list
      ensures Outcome(r, repository.list.books) == BorrowBook(old(repository.list.books), id)
    {
      var book := repository.GetById(id);
      if book.None? {
        return NotFound(None);
      }
      if book.value.isBorrowed {
        return BadRequest("Book is already borrowed.");
      }
      repository.Update(book.value.(isBorrowed := true));
      return NoContent;
    }

    method Return(id: Guid) returns (r: ActionResult<()>)
      modifies repository.list
      ensures Outcome(r, repository.list.books) == ReturnBook(old(repository.list.books), id)
    {
      var book := repository.GetById(id);
      if book.None? {
        return NotFound(None);
      }
      if !book.value.isBorrowed {
        return BadRequest("Book is not borrowed.");
      }
      repository.Update(book.value.(isBorrowed := false));
      return NoContent;
    }
  }
}
