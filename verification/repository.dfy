/** The record store behind repository/BookRepository.java: a table of books
    keyed by the identity column, plus the next identity value. Queries are
    filters over the table read in ascending id order. */
module Repository {
  import opened Wrappers
  import opened Text
  import opened Books

  /** The `books` table and the identity counter. */
  datatype Store = Store(books: map<int, Book>, nextId: int)

  /** An empty table whose first identity value is 1. */
  const EmptyStore := Store(map[], 1)

  /** Every key was handed out by the counter and is the record's own `id`. */
  predicate WellFormed(st: Store) {
    && st.nextId >= 1
    && forall id :: id in st.books ==> 1 <= id < st.nextId && st.books[id].id == Some(id)
  }

  /** No two stored records share an isbn: the unique `isbn` column. */
  predicate UniqueIsbns(st: Store) {
    forall i, j :: i in st.books && j in st.books && i != j ==> st.books[i].isbn != st.books[j].isbn
  }

  /** The store invariant every request keeps. */
  predicate Inv(st: Store) {
    WellFormed(st) && UniqueIsbns(st)
  }

  /** The `id` of a listed record (0 for a record without one, which a
      well-formed store never holds). */
  function IdOf(b: Book): int {
    b.id.GetOr(0)
  }

  /** Records listed in strictly ascending id order. */
  predicate Ascending(xs: seq<Book>) {
    forall k, l :: 0 <= k < l < |xs| ==> IdOf(xs[k]) < IdOf(xs[l])
  }

  /** Reads the rows with keys in `[lo, hi)` in ascending key order. */
  function Scan(books: map<int, Book>, lo: int, hi: int): seq<Book>
    decreases hi - lo
  {
    if lo >= hi then []
    else if lo in books then [books[lo]] + Scan(books, lo + 1, hi)
    else Scan(books, lo + 1, hi)
  }

  /** Every row carries its own key as `id`. */
  predicate KeyedById(books: map<int, Book>) {
    forall id :: id in books ==> books[id].id == Some(id)
  }

  /** `b` is a row of the table. */
  ghost predicate Stored(books: map<int, Book>, b: Book) {
    exists id :: id in books && books[id] == b
  }

  /** Each record a scan of `[lo, hi)` lists is the row under its own id, in range. */
  lemma {:induction false} ScanRows(books: map<int, Book>, lo: int, hi: int)
    requires KeyedById(books)
    ensures forall k :: 0 <= k < |Scan(books, lo, hi)| ==>
      lo <= IdOf(Scan(books, lo, hi)[k]) < hi && IdOf(Scan(books, lo, hi)[k]) in books
      && books[IdOf(Scan(books, lo, hi)[k])] == Scan(books, lo, hi)[k]
    decreases hi - lo
  {
    if lo < hi {
      var rest := Scan(books, lo + 1, hi);
      ScanRows(books, lo + 1, hi);
      if lo in books {
        var r := Scan(books, lo, hi);
        assert r == [books[lo]] + rest;
        assert forall k :: 1 <= k < |r| ==> r[k] == rest[k - 1];
      }
    }
  }

  /** A scan of `[lo, hi)` lists every row whose key is in range. */
  lemma {:induction false} ScanComplete(books: map<int, Book>, lo: int, hi: int)
    ensures forall id :: lo <= id < hi && id in books ==> books[id] in Scan(books, lo, hi)
    decreases hi - lo
  {
    if lo < hi {
      ScanComplete(books, lo + 1, hi);
    }
  }

  /** A scan lists records by strictly ascending id. */
  lemma {:induction false} ScanAscending(books: map<int, Book>, lo: int, hi: int)
    requires KeyedById(books)
    ensures Ascending(Scan(books, lo, hi))
    decreases hi - lo
  {
    if lo < hi {
      var rest := Scan(books, lo + 1, hi);
      ScanAscending(books, lo + 1, hi);
      ScanRows(books, lo + 1, hi);
      if lo in books {
        var r := Scan(books, lo, hi);
        assert r == [books[lo]] + rest;
        forall k, l | 0 <= k < l < |r|
          ensures IdOf(r[k]) < IdOf(r[l])
        {
          assert r[l] == rest[l - 1];
          if k > 0 {
            assert r[k] == rest[k - 1];
          }
        }
      }
    }
  }

  /** `findAll`: every stored record once, in ascending id order. */
  function FindAll(st: Store): (r: seq<Book>)
    requires WellFormed(st)
    ensures forall b :: b in r <==> Stored(st.books, b)
    ensures forall k :: 0 <= k < |r| ==> IdOf(r[k]) in st.books && st.books[IdOf(r[k])] == r[k]
    ensures Ascending(r)
  {
    var r := Scan(st.books, 1, st.nextId);
    ScanRows(st.books, 1, st.nextId);
    ScanComplete(st.books, 1, st.nextId);
    ScanAscending(st.books, 1, st.nextId);
    assert forall b :: Stored(st.books, b) ==> b in r by {
      forall b | Stored(st.books, b)
        ensures b in r
      {
        var id :| id in st.books && st.books[id] == b;
        assert 1 <= id < st.nextId;
      }
    }
    assert forall b :: b in r ==> Stored(st.books, b) by {
      forall b | b in r
        ensures Stored(st.books, b)
      {
        var k :| 0 <= k < |r| && r[k] == b;
        assert st.books[IdOf(r[k])] == b;
      }
    }
    r
  }

  /** The records of `xs` that `keep` accepts, in their original order. */
  function Filter(xs: seq<Book>, keep: Book -> bool): (r: seq<Book>)
    ensures forall b :: b in r <==> b in xs && keep(b)
    ensures |r| <= |xs|
    ensures Ascending(xs) ==> Ascending(r)
  {
    if |xs| == 0 then []
    else
      var rest := Filter(xs[1..], keep);
      if keep(xs[0]) then
        var r := [xs[0]] + rest;
        assert Ascending(xs) ==> Ascending(r) by {
          if Ascending(xs) {
            forall k, l | 0 <= k < l < |r|
              ensures IdOf(r[k]) < IdOf(r[l])
            {
              if k == 0 {
                assert r[l] == rest[l - 1];
                assert rest[l - 1] in xs[1..];
                var j :| 0 <= j < |xs[1..]| && xs[1..][j] == rest[l - 1];
                assert xs[j + 1] == r[l];
              } else {
                assert r[k] == rest[k - 1] && r[l] == rest[l - 1];
              }
            }
          }
        }
        r
      else
        rest
  }

  /** A title filter: the record has a title and it contains `q`, ignoring ASCII case. */
  predicate TitleMatches(b: Book, q: string) {
    b.title.Some? && ContainsIgnoreCase(b.title.value, q)
  }

  /** An author filter: the record has an author and it contains `q`, ignoring ASCII case. */
  predicate AuthorMatches(b: Book, q: string) {
    b.author.Some? && ContainsIgnoreCase(b.author.value, q)
  }

  /** `findByTitleContainingIgnoreCase`: exactly the stored records whose
      title contains the query, case-insensitively (ASCII). The derived query
      compares `UPPER` of both sides; under ASCII folding that is the same as
      comparing lower-cased text. A record whose title is null matches nothing. */
  function FindByTitleContainingIgnoreCase(st: Store, q: string): (r: seq<Book>)
    requires WellFormed(st)
    ensures forall b :: b in r <==> Stored(st.books, b) && b.title.Some? && Occurs(Lower(b.title.value), Lower(q))
    ensures Ascending(r)
  {
    Filter(FindAll(st), b => TitleMatches(b, q))
  }

  /** `findByAuthorContainingIgnoreCase`: exactly the stored records whose
      author contains the query, case-insensitively (ASCII), as the derived
      query's `UPPER` comparison does. */
  function FindByAuthorContainingIgnoreCase(st: Store, q: string): (r: seq<Book>)
    requires WellFormed(st)
    ensures forall b :: b in r <==> Stored(st.books, b) && b.author.Some? && Occurs(Lower(b.author.value), Lower(q))
    ensures Ascending(r)
  {
    Filter(FindAll(st), b => AuthorMatches(b, q))
  }

  /** `findByTitleAndAuthor`: the records both single-field searches return. */
  function FindByTitleAndAuthor(st: Store, title: string, author: string): (r: seq<Book>)
    requires WellFormed(st)
    ensures forall b :: b in r <==>
      b in FindByTitleContainingIgnoreCase(st, title) && b in FindByAuthorContainingIgnoreCase(st, author)
    ensures Ascending(r)
  {
    Filter(FindAll(st), b => TitleMatches(b, title) && AuthorMatches(b, author))
  }

  /** `existsByIsbn`: some stored record's isbn equals the argument exactly,
      case included. A null argument asks whether a record with a null isbn
      is stored, as the derived query turns it into `isbn IS NULL`. */
  function ExistsByIsbn(st: Store, isbn: Option<string>): (r: bool)
    requires WellFormed(st)
    ensures r <==> exists id :: id in st.books && st.books[id].isbn == isbn
  {
    var hits := Filter(FindAll(st), (b: Book) => b.isbn == isbn);
    assert (exists id :: id in st.books && st.books[id].isbn == isbn) ==> |hits| > 0 by {
      if exists id :: id in st.books && st.books[id].isbn == isbn {
        var id :| id in st.books && st.books[id].isbn == isbn;
        assert st.books[id] in hits;
      }
    }
    assert |hits| > 0 ==> exists id :: id in st.books && st.books[id].isbn == isbn by {
      if |hits| > 0 {
        assert Stored(st.books, hits[0]);
      }
    }
    |hits| > 0
  }
}
