/** The per-request decision logic of controller/BookController.java, as a
    state machine step `Store × Request → Store × Outcome`, and the whole
    request cycle with the exception advice applied (`Serve`). */
module Controller {
  import opened Wrappers
  import opened Text
  import opened Books
  import opened Repository
  import opened Service
  import opened Errors

  /** The endpoints of `/books`, with their path variables, query
      parameters and request bodies. */
  datatype Request =
    | CreateRequest(body: Book)                                     // POST /books
    | GetAllRequest                                                 // GET /books
    | GetByIdRequest(id: int)                                       // GET /books/{id}
    | UpdateRequest(id: int, body: Book)                            // PUT /books/{id}
    | DeleteRequest(id: int)                                        // DELETE /books/{id}
    | SearchRequest(title: Option<string>, author: Option<string>)  // GET /books/search

  /** A JSON response body. */
  datatype Body =
    | BookBody(book: Book)
    | ListBody(books: seq<Book>)
    | ErrorBody(errors: map<string, string>)
    | NoBody

  datatype Response = Response(status: int, body: Body)

  /** How a controller method ends: it returns a `ResponseEntity`, throws
      an exception the advice translates, or fails with an exception nothing
      handles (a `NullPointerException`). */
  datatype Outcome = Returned(response: Response) | Raised(error: ApiError) | Fault

  const IsbnTaken := "A book with this ISBN already exists"

  /** The duplicate-isbn error body, the same for create and update. */
  const DuplicateIsbn: map<string, string> := map["isbn" := IsbnTaken]

  /** `String.format("Book with id %d not found", id)`. */
  function NotFoundMessage(id: int): string {
    "Book with id " + LongToDecimal(id) + " not found"
  }

  /** Distinct ids give distinct not-found messages: the message names the
      id it was raised for. */
  lemma NotFoundMessageInjective(a: int, b: int)
    requires NotFoundMessage(a) == NotFoundMessage(b)
    ensures a == b
  {
    var m := NotFoundMessage(a);
    var x := LongToDecimal(a);
    var y := LongToDecimal(b);
    assert |x| == |y|;
    assert x == m[13..13 + |x|];
    assert y == m[13..13 + |y|];
    LongToDecimalInjective(a, b);
  }

  /** The not-found error body. */
  function NotFoundBody(id: int): map<string, string> {
    map["error" := NotFoundMessage(id)]
  }

  /** Some stored record has this isbn. */
  ghost predicate IsbnHeld(st: Store, isbn: Option<string>) {
    exists id :: id in st.books && st.books[id].isbn == isbn
  }

  /** POST /books. `@Valid` runs first: any violation is raised before the
      duplicate check. A valid record whose isbn is already stored is turned
      away with the duplicate error. Otherwise it is stored under a fresh id
      and returned with status 200. Only the last case changes the store,
      and it keeps the invariant. */
  function CreateEndpoint(st: Store, body: Book): (r: (Store, Outcome))
    requires WellFormed(st)
    ensures !IsValid(body) ==> r == (st, Raised(Invalid(Validate(body)))) && Validate(body) != {}
    ensures IsValid(body) && IsbnHeld(st, body.isbn) ==> r == (st, Raised(Custom(DuplicateIsbn)))
    ensures IsValid(body) && !IsbnHeld(st, body.isbn) ==>
      && r.1.Returned? && r.1.response.status == StatusOk && r.1.response.body.BookBody?
      && var saved := r.1.response.body.book;
         && SameContent(saved, body) && saved.id.Some? && saved.id.value !in st.books
         && r.0.books == st.books[saved.id.value := saved]
    ensures Inv(st) ==> Inv(r.0)
  {
    var violations := Validate(body);
    if violations != {} then
      (st, Raised(Invalid(violations)))
    else if ExistsByIsbn(st, body.isbn) then
      (st, Raised(Custom(DuplicateIsbn)))
    else
      var (next, saved) := CreateBook(st, body);
      assert Inv(st) ==> UniqueIsbns(next) by {
        if Inv(st) {
          forall i, j | i in next.books && j in next.books && i != j
            ensures next.books[i].isbn != next.books[j].isbn
          {
            if i != saved.id.value && j != saved.id.value {
              assert next.books[i] == st.books[i] && next.books[j] == st.books[j];
            } else if i == saved.id.value {
              assert next.books[j] == st.books[j];
            } else {
              assert next.books[i] == st.books[i];
            }
          }
        }
      }
      (next, Returned(Response(StatusOk, BookBody(saved))))
  }

  /** GET /books: always 200 with every stored record; the store is untouched. */
  function GetAllEndpoint(st: Store): (r: (Store, Outcome))
    requires WellFormed(st)
    ensures r.0 == st
    ensures r.1.Returned? && r.1.response.status == StatusOk && r.1.response.body.ListBody?
    ensures forall b :: b in r.1.response.body.books <==> Stored(st.books, b)
  {
    (st, Returned(Response(StatusOk, ListBody(FindAll(st)))))
  }

  /** GET /books/{id}: the stored record with 200, or the not-found error
      raised as a `CustomException`. The fallback 404 after the second lookup
      is never taken. The store is untouched. */
  function GetByIdEndpoint(st: Store, id: int): (r: (Store, Outcome))
    requires WellFormed(st)
    ensures r.0 == st
    ensures id in st.books ==> r.1 == Returned(Response(StatusOk, BookBody(st.books[id])))
    ensures id !in st.books ==> r.1 == Raised(Custom(NotFoundBody(id)))
  {
    match GetBookById(st, id)
    case None => (st, Raised(Custom(NotFoundBody(id))))
    case Some(_) =>
      match GetBookById(st, id)
      case Some(b) => (st, Returned(Response(StatusOk, BookBody(b))))
      case None => (st, Returned(Response(StatusNotFound, NoBody)))
  }

  /** PUT /books/{id}. No `@Valid`: the body is not validated. An absent id
      raises the not-found error. A stored isbn of null makes the comparison
      fail with an unhandled fault. The duplicate check runs only when the
      isbn changes, and rejects an isbn another record holds. Otherwise the
      five fields are overwritten, the id is kept, and 200 is returned. */
  function UpdateEndpoint(st: Store, id: int, body: Book): (r: (Store, Outcome))
    requires WellFormed(st)
    ensures id !in st.books ==> r == (st, Raised(Custom(NotFoundBody(id))))
    ensures id in st.books && st.books[id].isbn.None? ==> r == (st, Fault)
    ensures (id in st.books && st.books[id].isbn.Some? && st.books[id].isbn != body.isbn && IsbnHeld(st, body.isbn))
            ==> r == (st, Raised(Custom(DuplicateIsbn)))
    ensures id in st.books && st.books[id].isbn.Some? && (st.books[id].isbn == body.isbn || !IsbnHeld(st, body.isbn)) ==>
      && r.1.Returned? && r.1.response.status == StatusOk && r.1.response.body.BookBody?
      && var saved := r.1.response.body.book;
         && SameContent(saved, body) && saved.id == Some(id)
         && r.0.books == st.books[id := saved] && r.0.nextId == st.nextId
    ensures Inv(st) ==> Inv(r.0)
  {
    match GetBookById(st, id)
    case None => (st, Raised(Custom(NotFoundBody(id))))
    case Some(current) =>
      if current.isbn.None? then
        (st, Fault)
      else if current.isbn != body.isbn && ExistsByIsbn(st, body.isbn) then
        (st, Raised(Custom(DuplicateIsbn)))
      else
        match UpdateBook(st, id, body)
        case (next, Some(saved)) =>
          assert next.books == st.books[id := saved];
          assert Inv(st) ==> UniqueIsbns(next) by {
            if Inv(st) {
              forall i, j | i in next.books && j in next.books && i != j
                ensures next.books[i].isbn != next.books[j].isbn
              {
                if i != id && j != id {
                  assert next.books[i] == st.books[i] && next.books[j] == st.books[j];
                } else if i == id {
                  assert next.books[j] == st.books[j];
                } else {
                  assert next.books[i] == st.books[i];
                }
              }
            }
          }
          (next, Returned(Response(StatusOk, BookBody(saved))))
        case (next, None) => (next, Returned(Response(StatusNotFound, NoBody)))
  }

  /** DELETE /books/{id}: an absent id raises the not-found error and changes
      nothing; a stored id is removed, every other record stays, and 204
      with no body is returned. */
  function DeleteEndpoint(st: Store, id: int): (r: (Store, Outcome))
    requires WellFormed(st)
    ensures id !in st.books ==> r == (st, Raised(Custom(NotFoundBody(id))))
    ensures id in st.books ==>
      && r.1 == Returned(Response(StatusNoContent, NoBody))
      && r.0.books.Keys == st.books.Keys - {id}
      && (forall j :: j in r.0.books ==> r.0.books[j] == st.books[j])
      && r.0.nextId == st.nextId
    ensures Inv(st) ==> Inv(r.0)
  {
    match GetBookById(st, id)
    case None => (st, Raised(Custom(NotFoundBody(id))))
    case Some(_) => (DeleteBook(st, id), Returned(Response(StatusNoContent, NoBody)))
  }

  /** GET /books/search: always 200 with the records matching every given
      filter (possibly none); the store is untouched. */
  function SearchEndpoint(st: Store, title: Option<string>, author: Option<string>): (r: (Store, Outcome))
    requires WellFormed(st)
    ensures r.0 == st
    ensures r.1.Returned? && r.1.response.status == StatusOk && r.1.response.body.ListBody?
    ensures forall b :: b in r.1.response.body.books <==>
      && Stored(st.books, b)
      && (title.Some? ==> b.title.Some? && Occurs(Lower(b.title.value), Lower(title.value)))
      && (author.Some? ==> b.author.Some? && Occurs(Lower(b.author.value), Lower(author.value)))
  {
    (st, Returned(Response(StatusOk, ListBody(SearchBooks(st, title, author)))))
  }

  /** One request against the store. Every endpoint keeps the invariant:
      ids match keys and no two stored records share an isbn. */
  function Step(st: Store, req: Request): (r: (Store, Outcome))
    requires Inv(st)
    ensures Inv(r.0)
    ensures req.GetAllRequest? || req.GetByIdRequest? || req.SearchRequest? ==> r.0 == st
    ensures !r.1.Raised? || !r.1.error.NotFound?
  {
    match req
    case CreateRequest(body) => CreateEndpoint(st, body)
    case GetAllRequest => GetAllEndpoint(st)
    case GetByIdRequest(id) => GetByIdEndpoint(st, id)
    case UpdateRequest(id, body) => UpdateEndpoint(st, id, body)
    case DeleteRequest(id) => DeleteEndpoint(st, id)
    case SearchRequest(title, author) => SearchEndpoint(st, title, author)
  }

  /** A sequence of requests handled one after another, with their outcomes. */
  function Run(st: Store, reqs: seq<Request>): (r: (Store, seq<Outcome>))
    requires Inv(st)
    ensures Inv(r.0)
    ensures |r.1| == |reqs|
    decreases |reqs|
  {
    if |reqs| == 0 then (st, [])
    else
      var (next, outcome) := Step(st, reqs[0]);
      var (last, rest) := Run(next, reqs[1..]);
      (last, [outcome] + rest)
  }

  /** The HTTP response for an outcome: a returned entity as it is, an
      exception through the advice with its body as a JSON map, and an
      unhandled fault as a bare 500. */
  function Respond(o: Outcome, fieldErrors: seq<FieldError>): (resp: Response)
    requires o.Raised? && o.error.Invalid? ==> Lists(fieldErrors, o.error.violations)
    ensures o.Returned? ==> resp == o.response
    ensures resp.body.ErrorBody? <==> o.Raised? || (o.Returned? && o.response.body.ErrorBody?)
    ensures o.Raised? && !o.error.NotFound? ==> resp.status == StatusBadRequest
    ensures resp.status == StatusNotFound <==>
      (o.Raised? && o.error.NotFound?) || (o.Returned? && o.response.status == StatusNotFound)
    ensures resp.status == StatusServerError <==>
      o.Fault? || (o.Returned? && o.response.status == StatusServerError)
    ensures o.Raised? && o.error.Invalid? ==>
      forall k :: k in resp.body.errors <==> exists v :: v in o.error.violations && v.field.Name() == k
    ensures o.Raised? && !o.error.Invalid? ==> resp.body.errors == o.error.errors
  {
    match o
    case Returned(response) => response
    case Raised(e) =>
      var (status, errors) := Handle(e, fieldErrors);
      Response(status, ErrorBody(errors))
    case Fault => Response(StatusServerError, NoBody)
  }

  /** The whole cycle for one request: the controller step, then the advice.
      `fieldErrors` is the framework's listing of the create body's
      violations, in an order the source does not fix. */
  function Serve(st: Store, req: Request, fieldErrors: seq<FieldError>): (r: (Store, Response))
    requires Inv(st)
    requires req.CreateRequest? ==> Lists(fieldErrors, Validate(req.body))
    ensures Inv(r.0)
    ensures r.1.status in {StatusOk, StatusNoContent, StatusBadRequest, StatusServerError}
  {
    var (next, outcome) := Step(st, req);
    assert outcome.Raised? && outcome.error.Invalid? ==> req.CreateRequest?;
    (next, Respond(outcome, fieldErrors))
  }
}
