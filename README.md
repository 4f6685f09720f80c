# LibraryManager in Dafny

A model of the domain logic of LibraryManager, a library catalogue with a
REST backend and a single-page frontend. The backend keeps books in an
in-memory list and authors and publishers in database tables. Its
controllers put guarded transitions over that state: a book is either
available or borrowed, and it may be edited or deleted only while it is
available. Borrow and Return toggle that state and refuse a double borrow
or a double return. Names and titles are validated before anything is
created. The frontend builds request URLs and turns failed responses into
error messages.

Files (one module each):

- `wrappers.dfy`: `Option`, which stands in for nullable references.
- `text.dfy`: the .NET and JavaScript white-space sets, `IsNullOrWhiteSpace`, `Trim`, substring search, and an ASCII case-insensitive search.
- `models.dfy`: `Book`, `Author` and `Publisher`, `FirstIndex` (the one first-match search by id that every table lookup uses), the DTOs, and `ActionResult`, which stands for the HTTP results 200, 404, 400, 204 and 201.
- `book_store.dfy`: the filter condition and the list operations (`Where`, `FindIndex`, `Lookup`, `RemoveFirst`, `RemoveFirstAt`, `ReplaceById`, `RemoveById`), the class `BookList`, which stands for the static list, and the class `BookRepository`, of which each instance works on one shared `BookList`.
- `books_api.dfy`: each controller transition as a function from the stored list to an `Outcome` (result and new list). The class `BooksController` has one method per action, and each method is proved to produce that function's outcome. The file also holds the lemmas that relate several transitions.
- `authors_api.dfy`: the authors controller and its repository. `GetById` and `Add` follow `AuthorRepository`; `HasBooks` and `Remove`, which the controller calls but no repository declares, keep only what the controller relies on.
- `publisher_store.dfy`: `PublisherRepository` over a publisher table and a book table.
- `publishers_api.dfy`, `publisher_api.dfy`: the two publisher controllers.
- `frontend_api.dfy`: `buildUrl`, the body-reader choice of `readResponse`, the error message of `apiFetch`, and its decision to throw or return.

Modelling choices:

- A `Guid` is an `int`; only equality matters. `Guid.NewGuid()` becomes a `newId` argument that the controller's `Create` requires to be fresh.
- A database-assigned identity becomes a `newId` argument of `Add`. `PublisherRepository.Add` requires that id not to be in the table yet, as a database key would guarantee. `AuthorRepository.Add` does not require it; only `AuthorsController.Create` requires a fresh id.
- In the source, `GetById` returns a reference to the stored book, the controller changes that object's fields, and then it calls `Update`. In the model, `GetById` returns a value, and `Update` writes the changed value back to the first position with that id. The two agree when that object is stored at one position only; see "## Left out" for the case where it is not.
- The author and publisher seed tables (`StaticData`) are parameters of the book listing.
- The static `_books` list is one `BookList` object. Every `BookRepository` instance is constructed over it and keeps no state of its own, so a repository made for a later request scope sees what earlier ones stored (`AddThenListInNextScope`).
- The null answers that the author and publisher repository interfaces allow are `Option` arguments of the controllers' `GetAll` and `GetById`.
- `AuthorRepository.GetById` and `AuthorRepository.Add` follow the concrete class in `AuthorRepository.cs`. `HasBooks` and `Remove` are called by the controller but declared nowhere, so the model gives them the least it can: it keeps the author table, the set of author ids for which `HasBooks` answers true, and a log of the ids passed to `Remove`. What `Remove` does to the table is not modelled.
- The source's `BookDto` has no `AuthorId`, `AuthorName`, `PublisherId` or `PublisherName`, yet the controller reads and writes these fields. The model's `BookDto` has them, as the controller uses it.

## Model

| member | source | states |
|---|---|---|
| `Text.Trim` | backend/LibraryManager.API/Controllers/AuthorsController.cs:71 | the result is the input with a white-space prefix and suffix cut off; it has no white space at either end; it is empty iff the input is all white space |
| `Text.TrimIdempotent` | backend/LibraryManager.API/Controllers/AuthorsController.cs:71 | trimming a trimmed name changes nothing |
| `Text.Contains` | frontend/src/api.js:10 | true iff the substring occurs at some index |
| `Text.ContainsImpliesContainsIgnoreCase` | backend/LibraryManager.API/Repositories/BookRepository.cs:12 | an exact occurrence of the title filter is also a case-insensitive one |
| `Text.NullOrWhiteSpaceTrimsToEmpty` | backend/LibraryManager.API/Controllers/BooksController.cs:63 | `string.IsNullOrWhiteSpace` holds exactly of null and of a string that `Trim` empties |
| `Text.ContainsIgnoreCaseMatchesAt` | backend/LibraryManager.API/Repositories/BookRepository.cs:12 | the case-insensitive search succeeds iff, at some index, the title spells the filter character by character up to ASCII case |
| `BookStore.MatchesFilterMeans` | backend/LibraryManager.API/Repositories/BookRepository.cs:11-13 | a book passes iff the title filter is null, blank after trimming or spelled up to ASCII case somewhere in the title, and the author filter is absent or equals the book's author id |
| `BookStore.Where` | backend/LibraryManager.API/Repositories/BookRepository.cs:9-14 | every returned book matches the title and author filters; each book occurs as often as in the list if it matches and not at all otherwise; the result is a subsequence of the list; if every book matches, the result is the whole list |
| `Models.FirstIndex` | backend/LibraryManager.API/Repositories/BookRepository.cs:28 | the first position whose key is the id, or -1 iff no entry has it; used as `FindIndex` over books, as the seed-table `FirstOrDefault` over authors and publishers (BooksController.cs:30-32), and as the key lookup `Find` (PublisherRepository.cs:34) |
| `BookStore.Lookup` | backend/LibraryManager.API/Repositories/BookRepository.cs:16-19 | none iff no book has the id; otherwise the stored book at a position with that id and no earlier one |
| `BookStore.RemoveFirst` | backend/LibraryManager.API/Repositories/BookRepository.cs:40 | an absent element leaves the list unchanged; a present one shortens it by one |
| `BookStore.RemoveFirstAt` | backend/LibraryManager.API/Repositories/BookRepository.cs:35-42 | `Remove` drops the first equal element and keeps the rest in order: when no earlier book equals the one at position k, removing it deletes exactly the entry at k; the entry `GetById` found is such a first position, since no earlier book has its id |
| `BookStore.ReplaceById` | backend/LibraryManager.API/Repositories/BookRepository.cs:26-33 | the length is kept; an absent id changes nothing; otherwise only the entry at `FindIndex` changes and becomes the book; ids per position and their uniqueness are kept |
| `BookStore.RemoveById` | backend/LibraryManager.API/Repositories/BookRepository.cs:35-42 | an absent id changes nothing; otherwise exactly the entry at `FindIndex` is dropped and the length falls by one; with unique ids, the id is gone afterwards |
| `BookStore.BookList.constructor` | backend/LibraryManager.API/Repositories/BookRepository.cs:7 | the static list starts empty, once |
| `BookStore.BookRepository.constructor` | backend/LibraryManager.API/Program.cs:16 | a repository instance for a request scope works on the given shared list |
| `BookStore.BookRepository.GetAll` | backend/LibraryManager.API/Repositories/BookRepository.cs:9-14 | the result is a subsequence of the stored list holding exactly the matching books, each as often as stored; with no title filter and no author filter it is the whole list in stored order |
| `BookStore.BookRepository.GetById` | backend/LibraryManager.API/Repositories/BookRepository.cs:16-19 | null iff no stored book has the id; otherwise the first stored book with it |
| `BookStore.BookRepository.Add` | backend/LibraryManager.API/Repositories/BookRepository.cs:21-24 | appends the book at the end and keeps every existing entry at its position; there is no uniqueness check |
| `BookStore.BookRepository.Update` | backend/LibraryManager.API/Repositories/BookRepository.cs:26-33 | the new list is `ReplaceById` of the old one |
| `BookStore.BookRepository.Remove` | backend/LibraryManager.API/Repositories/BookRepository.cs:35-42 | the new list is `RemoveById` of the old one |
| `BookStore.BookRepository.Clear` | backend/LibraryManager.API/Repositories/BookRepository.cs:45 | the list is empty |
| `BookStore.AddThenListInNextScope` | backend/LibraryManager.API/Repositories/BookRepository.cs:7 | a book added through one scope's repository is listed, after the earlier books, by the next scope's repository |
| `BooksApi.AuthorName` | backend/LibraryManager.API/Controllers/BooksController.cs:30 | the name of the first author with the id, or "Unknown" when none has it |
| `BooksApi.PublisherName` | backend/LibraryManager.API/Controllers/BooksController.cs:32 | the name of the first publisher with the id, or "Unknown" when none has it |
| `BooksApi.ToDto` | backend/LibraryManager.API/Controllers/BooksController.cs:25-34 | the DTO copies id, title, author id, publisher id and borrowed flag, and carries the author and publisher names `AuthorName` and `PublisherName` find |
| `BooksApi.CreateBook` | backend/LibraryManager.API/Controllers/BooksController.cs:61-78 | no body or a blank title gives "Invalid book data." and the store is unchanged; otherwise 201 echoes the input DTO, and exactly one book is appended with the new id, not borrowed, and the DTO's title, author and publisher; a fresh id keeps ids unique |
| `BooksApi.UpdateBook` | backend/LibraryManager.API/Controllers/BooksController.cs:81-104 | checks a blank or missing title, then a missing id, then a borrowed book, in that order; each refusal leaves the store unchanged; success iff valid, found and available; on success, only title, author and publisher of that book change, its id and borrowed flag stay, and other books are untouched |
| `BooksApi.DeleteBook` | backend/LibraryManager.API/Controllers/BooksController.cs:107-122 | a missing id is not found; a borrowed book gives "Cannot delete a borrowed book." and stays; success iff found and available, removing exactly that entry; with unique ids the id is then gone |
| `BooksApi.SetBorrowed` | backend/LibraryManager.API/Controllers/BooksController.cs:136-137 | only the borrowed flag of the first book with the id changes; a lookup then finds the changed book |
| `BooksApi.BorrowBook` | backend/LibraryManager.API/Controllers/BooksController.cs:125-139 | succeeds iff the book exists and is available, and afterwards it is borrowed; a missing id is not found; a borrowed book gives "Book is already borrowed." with no change |
| `BooksApi.ReturnBook` | backend/LibraryManager.API/Controllers/BooksController.cs:142-158 | succeeds iff the book exists and is borrowed, and afterwards it is available; a missing id is not found; an available book gives "Book is not borrowed." with no change |
| `BooksApi.BorrowThenReturn` | backend/LibraryManager.API/Controllers/BooksController.cs:125-158 | a successful Borrow followed by Return succeeds and restores the original store |
| `BooksApi.ReturnThenBorrow` | backend/LibraryManager.API/Controllers/BooksController.cs:125-158 | a successful Return followed by Borrow succeeds and restores the original store |
| `BooksApi.BorrowedBookIsFrozen` | backend/LibraryManager.API/Controllers/BooksController.cs:93-135 | a borrowed book is never changed by an update, a delete or a second borrow |
| `BooksApi.EmmaScenario` | backend/LibraryManager.API/Controllers/BooksController.cs:61-158 | create "Emma", borrow it, delete it (refused with "Cannot delete a borrowed book."), return it, delete it (204): the store is empty again |
| `BooksApi.BooksController.constructor` | backend/LibraryManager.API/Controllers/BooksController.cs:15-18 | the controller keeps the repository it is given |
| `BooksApi.BooksController.GetAll` | backend/LibraryManager.API/Controllers/BooksController.cs:21-37 | 200 with one DTO per listed book, in the repository's order, each the `ToDto` of the book at the same position |
| `BooksApi.BooksController.GetById` | backend/LibraryManager.API/Controllers/BooksController.cs:40-58 | not found iff no stored book has the id; otherwise 200 with the DTO of the first book with it |
| `BooksApi.BooksController.Create` | backend/LibraryManager.API/Controllers/BooksController.cs:61-78 | result and new store are those of `CreateBook` |
| `BooksApi.BooksController.Update` | backend/LibraryManager.API/Controllers/BooksController.cs:81-104 | result and new store are those of `UpdateBook` |
| `BooksApi.BooksController.Delete` | backend/LibraryManager.API/Controllers/BooksController.cs:107-122 | result and new store are those of `DeleteBook` |
| `BooksApi.BooksController.Borrow` | backend/LibraryManager.API/Controllers/BooksController.cs:125-139 | result and new store are those of `BorrowBook` |
| `BooksApi.BooksController.Return` | backend/LibraryManager.API/Controllers/BooksController.cs:142-158 | result and new store are those of `ReturnBook` |
| `AuthorsApi.AuthorDtos` | backend/LibraryManager.API/Controllers/AuthorsController.cs:35 | one DTO per author, same id and name, same order and count |
| `AuthorsApi.GetAll` | backend/LibraryManager.API/Controllers/AuthorsController.cs:28-37 | "No authors found." iff the repository answers null or empty; otherwise 200 with one DTO per author in order |
| `AuthorsApi.GetById` | backend/LibraryManager.API/Controllers/AuthorsController.cs:45-54 | not found iff the repository answers null; otherwise that author's id and name |
| `AuthorsApi.FindAuthor` | backend/LibraryManager.API/Repositories/AuthorRepository.cs:33-36 | none iff no author has the id; otherwise a stored author with it |
| `AuthorsApi.AuthorRepository.constructor` | backend/LibraryManager.API/Repositories/AuthorRepository.cs:13-16 | the given table and `HasBooks` answers, with no `Remove` calls yet |
| `AuthorsApi.AuthorRepository.GetById` | backend/LibraryManager.API/Repositories/AuthorRepository.cs:33-36 | none iff no author has the id; otherwise a stored author with it |
| `AuthorsApi.AuthorRepository.Add` | backend/LibraryManager.API/Repositories/AuthorRepository.cs:43-48 | inserts the author with the assigned id and returns that same author |
| `AuthorsApi.AuthorRepository.HasBooks` | backend/LibraryManager.API/Controllers/AuthorsController.cs:92 | true iff the id is in the given set of authors with books |
| `AuthorsApi.AuthorRepository.Remove` | backend/LibraryManager.API/Controllers/AuthorsController.cs:97 | records one call with the id |
| `AuthorsApi.AuthorsController.constructor` | backend/LibraryManager.API/Controllers/AuthorsController.cs:17-20 | the controller keeps the repository it is given |
| `AuthorsApi.AuthorsController.Create` | backend/LibraryManager.API/Controllers/AuthorsController.cs:62-76 | a null DTO or blank name gives "Invalid author data." and nothing changes; otherwise the trimmed name is stored under the new id, it is non-empty and trimmed, and 201 carries the created id and name |
| `AuthorsApi.AuthorsController.Delete` | backend/LibraryManager.API/Controllers/AuthorsController.cs:84-99 | a missing id gives not found and no `Remove`; an author with books gives "Cannot delete an author with associated books." and no `Remove`; otherwise `Remove` is called exactly once with the id and 204 is returned |
| `PublisherStore.RemoveKey` | backend/LibraryManager.API/Repositories/PublisherRepository.cs:63-71 | an absent key changes nothing; otherwise exactly the entry with that key is dropped and the length falls by one |
| `PublisherStore.RemoveKeyShifts` | backend/LibraryManager.API/Repositories/PublisherRepository.cs:63-71 | after the removed position, every remaining entry moves up by one |
| `PublisherStore.RemoveKeyKeepsOthers` | backend/LibraryManager.API/Repositories/PublisherRepository.cs:63-71 | no publisher is added, and no publisher with another key is lost |
| `PublisherStore.RemoveKeyKeepsKeysUnique` | backend/LibraryManager.API/Repositories/PublisherRepository.cs:63-71 | with unique keys before, keys stay unique and the removed key is gone |
| `PublisherStore.RemoveKeyIdempotent` | backend/LibraryManager.API/Repositories/PublisherRepository.cs:63-71 | with unique keys, removing a key twice is removing it once |
| `PublisherStore.AnyBookOf` | backend/LibraryManager.API/Repositories/PublisherRepository.cs:56 | true iff some book has that publisher id |
| `PublisherStore.PublisherRepository.constructor` | backend/LibraryManager.API/Repositories/PublisherRepository.cs:12-15 | the given tables, with unique publisher keys |
| `PublisherStore.PublisherRepository.GetAll` | backend/LibraryManager.API/Repositories/PublisherRepository.cs:22-25 | all publishers, whatever the name argument |
| `PublisherStore.PublisherRepository.GetById` | backend/LibraryManager.API/Repositories/PublisherRepository.cs:32-35 | null iff no publisher has the key; otherwise the publisher with it |
| `PublisherStore.PublisherRepository.Add` | backend/LibraryManager.API/Repositories/PublisherRepository.cs:42-47 | appends the publisher with its assigned id, returns that same publisher, keeps keys unique and leaves the books alone |
| `PublisherStore.PublisherRepository.HasBooks` | backend/LibraryManager.API/Repositories/PublisherRepository.cs:54-57 | true iff at least one book has that publisher id |
| `PublisherStore.PublisherRepository.Remove` | backend/LibraryManager.API/Repositories/PublisherRepository.cs:63-71 | the publisher table becomes `RemoveKey` of the old one; the book table is untouched |
| `PublishersApi.PublisherDtos` | backend/LibraryManager.API/Controllers/PublishersController.cs:38 | one DTO per publisher, same id and name, in order |
| `PublishersApi.GetAll` | backend/LibraryManager.API/Controllers/PublishersController.cs:30-40 | "No publishers found." iff the repository answers null or empty; otherwise 200 with one DTO per publisher in order |
| `PublishersApi.GetById` | backend/LibraryManager.API/Controllers/PublishersController.cs:48-57 | not found iff the repository answers null; otherwise that publisher's DTO |
| `PublishersApi.PublishersController.constructor` | backend/LibraryManager.API/Controllers/PublishersController.cs:17-20 | the controller keeps the repository it is given |
| `PublishersApi.PublishersController.Create` | backend/LibraryManager.API/Controllers/PublishersController.cs:65-79 | a null DTO or blank name gives "Invalid publisher data." and nothing changes; otherwise the trimmed name is stored under the new id, it is non-empty and trimmed, and 201 echoes the created id and name |
| `PublisherApi.GetAll` | backend/LibraryManager.API/Controllers/PublisherController.cs:20-30 | null and empty each give "No publishers found."; a non-empty list gives 200 with as many DTOs, copying id and name in order |
| `PublisherApi.SameAsPublishersController` | backend/LibraryManager.API/Controllers/PublisherController.cs:20-30 | this controller's listing equals that of `PublishersController` on every repository answer |
| `FrontendApi.BuildUrl` | frontend/src/api.js:3-6 | the URL always starts with the base URL followed by "/"; a path without a leading "/" follows it whole, the empty path included; a path with one follows it without that "/" |
| `FrontendApi.BuildUrlSlashInsensitive` | frontend/src/api.js:3-6 | "p" and "/p" give the same URL |
| `FrontendApi.ReadResponse` | frontend/src/api.js:8-14 | the body is parsed as JSON iff the content-type header contains "application/json"; a missing header counts as "" and means text |
| `FrontendApi.ErrorMessage` | frontend/src/api.js:21-25 | a string payload that is not blank gives its trimmed text; otherwise the payload's message, then the status text, then "Request failed", whichever comes first non-empty; so the message is never empty |
| `FrontendApi.ApiFetch` | frontend/src/api.js:16-30 | throws iff the response is not ok, with that message; otherwise returns the payload unchanged |

## Left out

- HTTP routing, model binding, dependency injection, CORS, Swagger and database seeding are not modelled. `ActionResult` stands in for the ASP.NET result classes.
- Entity Framework is not modelled: `SaveChanges`, change tracking and identity generation. Tables are sequences, and a new identity is a fresh argument. The cascade delete configured in the migration is not modelled.
- The randomness of `Guid.NewGuid()` is not modelled. It becomes a freshness precondition on the controller's `Create`.
- Concurrent requests on the shared static book list are not modelled. Calls are sequential.
- BookStore.RemoveFirst: `List<Book>.Remove` compares references, because `Book` does not override `Equals`; the model compares values. The two agree unless two distinct stored objects have equal fields; `Remove` passes it the object `GetById` found, which is the first with its id either way.
- BookStore.BookRepository.GetById: the source hands out the stored `Book` object, and the controller changes its fields in place before calling `Update` (BooksController.cs:98-100, 136, 155). The model stores values, so there is no aliasing. `Add` does not stop one object from being stored at two positions. In that case the in-place change shows at both positions in the source, but only at the first in the model.
- `IBookRepository` declares `GetPaged` and an `isBorrowed` filter that `BookRepository` does not implement, and `PagedResultDto` is unused; none of them is modelled. `AuthorsController` calls `HasBooks` and `Remove`, which neither `IAuthorRepository` nor `AuthorRepository` declares. In the model, `HasBooks` answers from a given set, and `Remove` is recorded but its effect is not modelled.
- No endpoint deletes a publisher, so there is none in the model, even though the frontend calls one.
- Text.ContainsIgnoreCase: the model's title filter folds ASCII letters only. .NET's `OrdinalIgnoreCase` also folds non-ASCII letters, so the filter "é" matches a title "Émile" in the source but not in the model.
- A JSON `null` in a DTO's string property is not modelled. DTO strings are never null; a null DTO is `None`.
- FrontendApi.ErrorMessage: a `message` field that is truthy but not a string (a number, say) is read as absent.
- The `fetch` call, awaiting, `response.json()` and `response.text()` are I/O and are not modelled. `ReadResponse` only says which reader is chosen.
- The React components are presentation and are not modelled: pages, forms, client-side sorting and filtering.
- Test expectations that the controllers do not implement are not followed: a 400 for an empty `Guid`, a nested `Author` in the book DTO, and `Create` returning the stored book.
