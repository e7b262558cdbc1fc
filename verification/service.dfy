/** The operations of service/BookService.java over the store. Each returns
    the new store explicitly; the queries (`existsByIsbn`, `findAll`) are
    used directly from `Repository`, as the service only forwards them. */
module Service {
  import opened Wrappers
  import opened Text
  import opened Books
  import opened Repository

  /** `createBook`: saves the record under a fresh identity value. The record
      comes back with that id and every other field as supplied; the rows
      already stored are untouched. */
  function CreateBook(st: Store, b: Book): (r: (Store, Book))
    requires WellFormed(st)
    ensures r.1.id.Some? && r.1.id.value !in st.books
    ensures SameContent(r.1, b)
    ensures r.0.books.Keys == st.books.Keys + {r.1.id.value}
    ensures r.0.books[r.1.id.value] == r.1
    ensures forall id :: id in st.books ==> r.0.books[id] == st.books[id]
    ensures WellFormed(r.0) && r.0.nextId > st.nextId
  {
    var saved := b.(id := Some(st.nextId));
    (Store(st.books[st.nextId := saved], st.nextId + 1), saved)
  }

  /** `getBookById`: the record with that id, found exactly when the id is a
      key; it is the one record `findAll` lists under that id. */
  function GetBookById(st: Store, id: int): (r: Option<Book>)
    requires WellFormed(st)
    ensures r.Some? <==> id in st.books
    ensures forall b :: r == Some(b) <==> b in FindAll(st) && IdOf(b) == id
  {
    if id in st.books then Some(st.books[id]) else None
  }

  /** `updateBook`: on a stored id, overwrites title, author, isbn,
      publicationYear and description with the supplied values and keeps
      the id; every other row and the counter stay as they were. On an
      absent id nothing is found and nothing changes. */
  function UpdateBook(st: Store, id: int, upd: Book): (r: (Store, Option<Book>))
    requires WellFormed(st)
    ensures r.1.None? <==> id !in st.books
    ensures r.1.None? ==> r.0 == st
    ensures r.1.Some? ==> && r.1.value.id == st.books[id].id
                          && SameContent(r.1.value, upd)
                          && r.0.books.Keys == st.books.Keys
                          && r.0.books[id] == r.1.value
                          && (forall j :: j in st.books && j != id ==> r.0.books[j] == st.books[j])
                          && r.0.nextId == st.nextId
    ensures WellFormed(r.0)
  {
    match GetBookById(st, id)
    case None => (st, None)
    case Some(current) =>
      var saved := current.(title := upd.title, author := upd.author, isbn := upd.isbn,
                            publicationYear := upd.publicationYear, description := upd.description);
      (st.(books := st.books[id := saved]), Some(saved))
  }

  /** `deleteBook`: removes the row with that id, if any; afterwards the id
      is not found, every other row is unchanged, and deleting an absent id
      changes nothing. */
  function DeleteBook(st: Store, id: int): (r: Store)
    requires WellFormed(st)
    ensures r.books.Keys == st.books.Keys - {id}
    ensures forall j :: j in r.books ==> r.books[j] == st.books[j]
    ensures r.nextId == st.nextId
    ensures id !in st.books ==> r == st
    ensures WellFormed(r) && GetBookById(r, id).None?
  {
    st.(books := st.books - {id})
  }

  /** `searchBooks`: dispatches on which filters are present — both, title
      only, author only, neither — to the matching repository query. The
      result is the stored records meeting every given filter, listed in
      ascending id order, so always a part of `findAll`. */
  function SearchBooks(st: Store, title: Option<string>, author: Option<string>): (r: seq<Book>)
    requires WellFormed(st)
    ensures title.Some? && author.Some? ==> r == FindByTitleAndAuthor(st, title.value, author.value)
    ensures title.Some? && author.None? ==> r == FindByTitleContainingIgnoreCase(st, title.value)
    ensures title.None? && author.Some? ==> r == FindByAuthorContainingIgnoreCase(st, author.value)
    ensures title.None? && author.None? ==> r == FindAll(st)
    ensures forall b :: b in r <==>
      && Stored(st.books, b)
      && (title.Some? ==> b.title.Some? && Occurs(Lower(b.title.value), Lower(title.value)))
      && (author.Some? ==> b.author.Some? && Occurs(Lower(b.author.value), Lower(author.value)))
    ensures forall b :: b in r ==> b in FindAll(st)
    ensures Ascending(r)
  {
    if title.Some? && author.Some? then FindByTitleAndAuthor(st, title.value, author.value)
    else if title.Some? then FindByTitleContainingIgnoreCase(st, title.value)
    else if author.Some? then FindByAuthorContainingIgnoreCase(st, author.value)
    else FindAll(st)
  }
}
