/**
 * The in-memory book repository: one list of books, shared by every
 * request, with a filtered listing, a lookup by id, append, replace and
 * remove.
 */
module BookStore {
  import opened Wrappers
  import opened Models
  import Text

  /** The `Where` condition of `GetAll`: a title filter and an author filter, each optional. */
  predicate MatchesFilter(b: Book, title: Option<string>, authorId: Option<int>) {
    && (Text.IsNullOrWhiteSpace(title) || Text.ContainsIgnoreCase(b.title, title.value))
    && (authorId.None? || b.authorId == authorId.value)
  }

  /**
   * A book passes the filter iff the title filter is null, blank after
   * trimming, or spelled (up to ASCII case) somewhere in the title, and the
   * author filter is absent or names the book's author.
   */
  lemma MatchesFilterMeans(b: Book, title: Option<string>, authorId: Option<int>)
    ensures MatchesFilter(b, title, authorId) <==>
              && (title.None? || Text.Trim(Text.DotNet, title.value) == []
                  || exists i :: Text.MatchesIgnoringCaseAt(b.title, title.value, i))
              && (authorId.None? || b.authorId == authorId.value)
  {
    Text.NullOrWhiteSpaceTrimsToEmpty(title);
    if title.Some? {
      Text.ContainsIgnoreCaseMatchesAt(b.title, title.value);
    }
  }

  /** `a` is `b` with some elements left out, the rest in their order. */
  ghost predicate IsSubsequence(a: seq<Book>, b: seq<Book>)
    decreases |b|
  {
    || a == []
    || (b != [] && ((a[0] == b[0] && IsSubsequence(a[1..], b[1..])) || IsSubsequence(a, b[1..])))
  }

  /** The books of `books` that match the filters, in stored order. */
  function Where(books: seq<Book>, title: Option<string>, authorId: Option<int>): (r: seq<Book>)
    ensures forall b :: b in r ==> MatchesFilter(b, title, authorId)
    ensures forall b :: multiset(r)[b] == if MatchesFilter(b, title, authorId) then multiset(books)[b] else 0
    ensures IsSubsequence(r, books)
    ensures (forall b :: b in books ==> MatchesFilter(b, title, authorId)) ==> r == books
  {
    if books == [] then []
    else
      assert books == [books[0]] + books[1..];
      if MatchesFilter(books[0], title, authorId) then [books[0]] + Where(books[1..], title, authorId)
      else Where(books[1..], title, authorId)
  }

  /** `List.FindIndex(b => b.Id == id)`: the first position holding that id, or -1. */
  function FindIndex(books: seq<Book>, id: Guid): (k: int)
  {
    FirstIndex(books, (b: Book) => b.id, id)
  }

  /** `FirstOrDefault(b => b.Id == id)`: the first book with that id, if any. */
  function Lookup(books: seq<Book>, id: Guid): (r: Option<Book>)
    ensures r.None? <==> forall b :: b in books ==> b.id != id
    ensures r.Some? ==> exists k :: 0 <= k < |books| && books[k] == r.value && r.value.id == id
                                    && forall j :: 0 <= j < k ==> books[j].id != id
  {
    var k := FindIndex(books, id);
    if k < 0 then None else Some(books[k])
  }

  /** `List.Remove(x)`: drops the first element equal to `x`, if there is one. */
  function RemoveFirst(s: seq<Book>, x: Book): (r: seq<Book>)
    ensures x !in s ==> r == s
    ensures x in s ==> |r| == |s| - 1
  {
    if s == [] then []
    else if s[0] == x then s[1..]
    else [s[0]] + RemoveFirst(s[1..], x)
  }

  /**
   * `RemoveFirst` drops the first occurrence and keeps the rest in order:
   * when no earlier book equals `s[k]`, removing `s[k]` deletes exactly the
   * entry at `k`. (Every element of `s` has such a first position.)
   */
  lemma {:induction false} RemoveFirstAt(s: seq<Book>, k: nat)
    requires k < |s|
    requires forall j :: 0 <= j < k ==> s[j] != s[k]
    ensures RemoveFirst(s, s[k]) == s[..k] + s[k + 1..]
  {
    if k > 0 {
      var t := s[1..];
      assert t[k - 1] == s[k];
      RemoveFirstAt(t, k - 1);
      calc {
        RemoveFirst(s, s[k]);
        [s[0]] + RemoveFirst(t, t[k - 1]);
        [s[0]] + (t[..k - 1] + t[k..]);
        { assert t[..k - 1] == s[1..k] && t[k..] == s[k + 1..]; }
        [s[0]] + s[1..k] + s[k + 1..];
        { assert [s[0]] + s[1..k] == s[..k]; }
        s[..k] + s[k + 1..];
      }
    }
  }

  /** Unique book ids: what fresh `Guid`s keep true of the store. */
  ghost predicate UniqueIds(books: seq<Book>) {
    forall i, j :: 0 <= i < j < |books| ==> books[i].id != books[j].id
  }

  /** No stored book has this id. */
  predicate IsFresh(books: seq<Book>, id: Guid) {
    forall b :: b in books ==> b.id != id
  }

  /** The effect of `Update(book)`: the entry at `FindIndex` becomes `book`. */
  function ReplaceById(books: seq<Book>, book: Book): (r: seq<Book>)
    ensures |r| == |books|
    ensures FindIndex(books, book.id) == -1 ==> r == books
    ensures FindIndex(books, book.id) >= 0 ==> r[FindIndex(books, book.id)] == book
    ensures forall j :: 0 <= j < |books| && j != FindIndex(books, book.id) ==> r[j] == books[j]
    ensures forall j :: 0 <= j < |books| ==> r[j].id == books[j].id
    ensures UniqueIds(books) ==> UniqueIds(r)
  {
    var k := FindIndex(books, book.id);
    if k < 0 then books else books[k := book]
  }

  /** The effect of `Remove(id)`: the entry at `FindIndex`, if any, is gone. */
  function RemoveById(books: seq<Book>, id: Guid): (r: seq<Book>)
    ensures FindIndex(books, id) == -1 ==> r == books
    ensures FindIndex(books, id) >= 0 ==>
              |r| == |books| - 1 && r == books[..FindIndex(books, id)] + books[FindIndex(books, id) + 1..]
    ensures UniqueIds(books) ==> UniqueIds(r) && Lookup(r, id).None?
  {
    var k := FindIndex(books, id);
    if k < 0 then books
    else
      var r := books[..k] + books[k + 1..];
      assert forall j :: 0 <= j < |r| ==> r[j] == books[if j < k then j else j + 1];
      r
  }

  /**
   * The static `_books` list of `BookRepository.cs`: one object, created
   * empty once, that every repository instance reads and changes.
   */
  class BookList {
    var books: seq<Book>

    constructor ()
      ensures books == []
    {
      books := [];
    }
  }

  /**
   * A repository instance, as each request scope gets one: it keeps no
   * state of its own and works on the shared list, so it starts with
   * whatever earlier instances left there.
   */
  class BookRepository {
    const list: BookList

    constructor (list: BookList)
      ensures this.list == list
    {
      this.list := list;
    }

    /** The stored books that match the filters, in stored order; all of them when no filter is given. */
    function GetAll(title: Option<string>, authorId: Option<int>): (r: seq<Book>)
      reads list
      ensures IsSubsequence(r, list.books)
      ensures forall b :: multiset(r)[b] == if MatchesFilter(b, title, authorId) then multiset(list.books)[b] else 0
      ensures Text.IsNullOrWhiteSpace(title) && authorId.None? ==> r == list.books
    {
      Where(list.books, title, authorId)
    }

    /** The first stored book with that id, or none. */
    function GetById(id: Guid): (r: Option<Book>)
      reads list
      ensures r.None? <==> forall b :: b in list.books ==> b.id != id
      ensures r.Some? ==> r.value.id == id && r.value == list.books[FindIndex(list.books, id)]
    {
      Lookup(list.books, id)
    }

    /** Appends, with no check that the id is new. */
    method Add(book: Book)
      modifies list
      ensures list.books == old(list.books) + [book]
      ensures forall j :: 0 <= j < |old(list.books)| ==> list.books[j] == old(list.books)[j]
    {
      list.books := list.books + [book];
    }

    /** Replaces the first entry with `book.Id`; nothing happens when there is none. */
    method Update(book: Book)
      modifies list
      ensures list.books == ReplaceById(old(list.books), book)
    {
      var index := FindIndex(list.books, book.id);
      if index >= 0 {
        list.books := list.books[index := book];
      }
    }

    /** Removes the first entry with that id; nothing happens when there is none. */
    method Remove(id: Guid)
      modifies list
      ensures list.books == RemoveById(old(list.books), id)
    {
      var book := GetById(id);
      if book.Some? {
        RemoveFirstAt(list.books, FindIndex(list.books, id));
        list.books := RemoveFirst(list.books, book.value);
      }
    }

    method Clear()
      modifies list
      ensures list.books == []
    {
      list.books := [];
    }
  }

  /**
   * Two request scopes in a row: a book added through the first scope's
   * repository is listed by the repository of the next one.
   */
  method AddThenListInNextScope(list: BookList, book: Book) returns (listed: seq<Book>)
    modifies list
    ensures list.books == old(list.books) + [book]
    ensures listed == list.books
  {
    var first := new BookRepository(list);
    first.Add(book);
    var second := new BookRepository(list);
    listed := second.GetAll(None, None);
  }
}
