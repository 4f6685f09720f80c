/**
 * The publisher repository over two tables of the database: publishers,
 * keyed by id, and books.
 */
module PublisherStore {
  import opened Wrappers
  import opened Models

  /** The table's primary key: no two publishers share an id. */
  ghost predicate UniqueKeys(publishers: seq<Publisher>) {
    forall i, j :: 0 <= i < j < |publishers| ==> publishers[i].id != publishers[j].id
  }

  /** The table without the publisher with that key; unchanged when there is none. */
  function RemoveKey(publishers: seq<Publisher>, id: int): (r: seq<Publisher>)
    ensures PublisherIndex(publishers, id) == -1 ==> r == publishers
    ensures PublisherIndex(publishers, id) >= 0 ==>
              |r| == |publishers| - 1
              && r == publishers[..PublisherIndex(publishers, id)] + publishers[PublisherIndex(publishers, id) + 1..]
  {
    var k := PublisherIndex(publishers, id);
    if k < 0 then publishers else publishers[..k] + publishers[k + 1..]
  }

  /** Where the entries of `RemoveKey` come from, position by position. */
  lemma RemoveKeyShifts(publishers: seq<Publisher>, id: int)
    requires PublisherIndex(publishers, id) >= 0
    ensures var k := PublisherIndex(publishers, id);
            forall j :: 0 <= j < |RemoveKey(publishers, id)| ==>
              RemoveKey(publishers, id)[j] == publishers[if j < k then j else j + 1]
  {
  }

  /** `RemoveKey` loses no publisher but those with that key, and adds none. */
  lemma RemoveKeyKeepsOthers(publishers: seq<Publisher>, id: int)
    ensures forall p :: p in RemoveKey(publishers, id) ==> p in publishers
    ensures forall p :: p in publishers && p.id != id ==> p in RemoveKey(publishers, id)
  {
    var k := PublisherIndex(publishers, id);
    var r := RemoveKey(publishers, id);
    if k >= 0 {
      RemoveKeyShifts(publishers, id);
      forall p | p in publishers && p.id != id ensures p in r {
        var j :| 0 <= j < |publishers| && publishers[j] == p;
        assert r[if j < k then j else j - 1] == p;
      }
    }
  }

  /** On a table with unique keys, `RemoveKey` keeps the keys unique and the key is gone. */
  lemma RemoveKeyKeepsKeysUnique(publishers: seq<Publisher>, id: int)
    requires UniqueKeys(publishers)
    ensures UniqueKeys(RemoveKey(publishers, id))
    ensures forall p :: p in RemoveKey(publishers, id) ==> p.id != id
  {
    var k := PublisherIndex(publishers, id);
    var r := RemoveKey(publishers, id);
    if k >= 0 {
      RemoveKeyShifts(publishers, id);
      forall i, j | 0 <= i < j < |r| ensures r[i].id != r[j].id {
        assert r[i] == publishers[if i < k then i else i + 1];
      }
      forall p | p in r ensures p.id != id {
        var j :| 0 <= j < |r| && r[j] == p;
        assert r[j] == publishers[if j < k then j else j + 1];
      }
    }
  }

  /** Removing a key twice is removing it once. */
  lemma RemoveKeyIdempotent(publishers: seq<Publisher>, id: int)
    requires UniqueKeys(publishers)
    ensures RemoveKey(RemoveKey(publishers, id), id) == RemoveKey(publishers, id)
  {
    RemoveKeyKeepsKeysUnique(publishers, id);
    assert PublisherIndex(RemoveKey(publishers, id), id) == -1;
  }

  /** `Books.Any(book => book.PublisherId == id)`. */
  function AnyBookOf(books: seq<Book>, id: int): (r: bool)
    ensures r <==> exists b :: b in books && b.publisherId == id
  {
    if books == [] then false
    else books[0].publisherId == id || AnyBookOf(books[1..], id)
  }

  class PublisherRepository {
    var publishers: seq<Publisher>
    var books: seq<Book>

    ghost predicate Valid()
      reads this
    {
      UniqueKeys(publishers)
    }

    constructor (publishers: seq<Publisher>, books: seq<Book>)
      requires UniqueKeys(publishers)
      ensures Valid() && this.publishers == publishers && this.books == books
    {
      this.publishers := publishers;
      this.books := books;
    }

    /** Every publisher; the name filter is accepted and ignored. */
    function GetAll(name: Option<string>): (r: seq<Publisher>)
      reads this
      ensures r == publishers
    {
      publishers
    }

    /** `Find(id)`: the publisher with that key, or null. */
    function GetById(id: int): (r: Option<Publisher>)
      reads this
      ensures r.None? <==> forall p :: p in publishers ==> p.id != id
      ensures r.Some? ==> r.value in publishers && r.value.id == id
    {
      var k := PublisherIndex(publishers, id);
      if k < 0 then None else Some(publishers[k])
    }

    /** Inserts the publisher, which receives the fresh identity `newId` on saving, and returns it. */
    method Add(publisher: Publisher, newId: int) returns (created: Publisher)
      requires Valid()
      requires forall p :: p in publishers ==> p.id != newId
      modifies this
      ensures Valid()
      ensures created == publisher.(id := newId)
      ensures publishers == old(publishers) + [created] && books == old(books)
    {
      created := publisher.(id := newId);
      publishers := publishers + [created];
    }

    /** True iff some book names this publisher. */
    function HasBooks(id: int): (r: bool)
      reads this
      ensures r <==> exists b :: b in books && b.publisherId == id
    {
      AnyBookOf(books, id)
    }

    /** Deletes the publisher with that key, if there is one; the books table is untouched. */
    method Remove(id: int)
      requires Valid()
      modifies this
      ensures Valid()
      ensures publishers == RemoveKey(old(publishers), id) && books == old(books)
    {
      var publisher := GetById(id);
      RemoveKeyKeepsKeysUnique(publishers, id);
      if publisher.Some? {
        var k := PublisherIndex(publishers, id);
        publishers := publishers[..k] + publishers[k + 1..];
      }
    }
  }
}
