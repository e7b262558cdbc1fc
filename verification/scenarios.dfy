/** Properties of whole request sequences: what a client observes across
    several calls to the `/books` endpoints. */
module Scenarios {
  import opened Wrappers
  import opened Text
  import opened Books
  import opened Repository
  import opened Errors
  import opened Controller

  /** A valid record created under a fresh isbn can be read back under the
      id the response carries, with the content that was sent. */
  lemma CreateThenGet(st: Store, body: Book)
    requires Inv(st) && IsValid(body) && !IsbnHeld(st, body.isbn)
    ensures var (next, created) := Serve(st, CreateRequest(body), []);
      && created.status == StatusOk && created.body.BookBody?
      && SameContent(created.body.book, body) && created.body.book.id.Some?
      && Serve(next, GetByIdRequest(created.body.book.id.value), []).1
         == Response(StatusOk, BookBody(created.body.book))
  {
    ValidateMessages(body);
  }

  /** Creating a second valid record with an isbn already stored is turned
      away with 400 and the duplicate-isbn body, and stores nothing. */
  lemma DuplicateCreateRejected(st: Store, first: Book, second: Book)
    requires Inv(st) && IsValid(first) && !IsbnHeld(st, first.isbn)
    requires IsValid(second) && second.isbn == first.isbn
    ensures var next := Serve(st, CreateRequest(first), []).0;
      Serve(next, CreateRequest(second), []) == (next, Response(StatusBadRequest, ErrorBody(DuplicateIsbn)))
  {
    var (next, created) := CreateEndpoint(st, first);
    var id := created.response.body.book.id.value;
    assert next.books[id].isbn == second.isbn;
    assert IsbnHeld(next, second.isbn);
  }

  /** After a delete answered with 204, reading the same id gives 400 with
      the not-found body: the `CustomException` path, never a 404. */
  lemma DeleteThenGetNotFound(st: Store, id: int)
    requires Inv(st) && id in st.books
    ensures var (next, deleted) := Serve(st, DeleteRequest(id), []);
      && deleted == Response(StatusNoContent, NoBody)
      && Serve(next, GetByIdRequest(id), []) == (next, Response(StatusBadRequest, ErrorBody(NotFoundBody(id))))
  {
  }

  /** Reading, updating or deleting an id that is not stored gives 400 with
      `{"error": "Book with id <id> not found"}` and leaves the store as it
      was; the message names the requested id and no other. */
  lemma AbsentIdIsBadRequest(st: Store, req: Request, fieldErrors: seq<FieldError>)
    requires Inv(st)
    requires req.GetByIdRequest? || req.UpdateRequest? || req.DeleteRequest?
    requires req.id !in st.books
    ensures Serve(st, req, fieldErrors)
            == (st, Response(StatusBadRequest, ErrorBody(map["error" := NotFoundMessage(req.id)])))
    ensures forall other :: NotFoundBody(other) == NotFoundBody(req.id) ==> other == req.id
  {
    forall other | NotFoundBody(other) == NotFoundBody(req.id)
      ensures other == req.id
    {
      assert NotFoundBody(other)["error"] == NotFoundMessage(other);
      NotFoundMessageInjective(other, req.id);
    }
  }

  /** A create body with a publication year after 2050 and a description of
      more than 1000 characters is rejected with 400 and a body naming both
      problems, with those exact messages, in whatever order the framework
      lists the field errors; nothing is stored. */
  lemma YearAndDescriptionReported(st: Store, body: Book, fieldErrors: seq<FieldError>)
    requires Inv(st) && Lists(fieldErrors, Validate(body))
    requires body.publicationYear > MaxYear
    requires body.description.Some? && |body.description.value| > MaxDescriptionLength
    ensures var (next, resp) := Serve(st, CreateRequest(body), fieldErrors);
      && next == st && resp.status == StatusBadRequest && resp.body.ErrorBody?
      && "publicationYear" in resp.body.errors && resp.body.errors["publicationYear"] == YearTooLate
      && "description" in resp.body.errors && resp.body.errors["description"] == DescriptionTooLong
  {
    ValidateMessages(body);
    ViolationsPerField(body);
    SingleViolationReported(Validate(body), fieldErrors, Violation(PublicationYear, YearTooLate));
    SingleViolationReported(Validate(body), fieldErrors, Violation(Description, DescriptionTooLong));
  }

  /** Validation precedes the duplicate check: an invalid create body is
      answered with its violations even when its isbn is already stored. */
  lemma ValidationBeforeDuplicateCheck(st: Store, body: Book, fieldErrors: seq<FieldError>)
    requires Inv(st) && Lists(fieldErrors, Validate(body))
    requires !IsValid(body) && IsbnHeld(st, body.isbn)
    ensures var (next, resp) := Serve(st, CreateRequest(body), fieldErrors);
      && next == st && resp.status == StatusBadRequest && resp.body.ErrorBody?
      && resp.body.errors != DuplicateIsbn
      && forall k :: k in resp.body.errors ==> Violation(FieldOf(k), resp.body.errors[k]) in Validate(body)
  {
    ViolationsPerField(body);
    FieldOfName(Isbn);
    assert Violation(Isbn, IsbnTaken) !in Validate(body);
    assert DuplicateIsbn["isbn"] == IsbnTaken;
  }

  /** An update may keep its own isbn: the record takes the new content and
      its id, and the response is 200. */
  lemma UpdateKeepingIsbn(st: Store, id: int, body: Book)
    requires Inv(st) && id in st.books && st.books[id].isbn.Some? && body.isbn == st.books[id].isbn
    ensures var (next, resp) := Serve(st, UpdateRequest(id, body), []);
      && resp.status == StatusOk && resp.body.BookBody?
      && next.books[id] == resp.body.book && SameContent(next.books[id], body)
      && next.books[id].id == Some(id)
  {
  }

  /** An update to an isbn another record holds is turned away with 400 and
      the duplicate-isbn body, and changes nothing. */
  lemma UpdateToTakenIsbnRejected(st: Store, id: int, other: int, body: Book)
    requires Inv(st) && id in st.books && other in st.books && id != other
    requires st.books[id].isbn.Some? && body.isbn == st.books[other].isbn
    ensures Serve(st, UpdateRequest(id, body), []) == (st, Response(StatusBadRequest, ErrorBody(DuplicateIsbn)))
  {
    assert IsbnHeld(st, body.isbn);
  }

  /** An update on a record whose stored isbn is null fails with 500 whatever
      the body: comparing against the null isbn throws. */
  lemma UpdateOnNullIsbnFaults(st: Store, id: int, body: Book)
    requires Inv(st) && id in st.books && st.books[id].isbn.None?
    ensures Serve(st, UpdateRequest(id, body), []) == (st, Response(StatusServerError, NoBody))
  {
  }

  /** A title search that no stored record matches succeeds with 200 and
      an empty list, not an error. */
  lemma SearchWithoutMatchIsEmpty(st: Store, q: string)
    requires Inv(st)
    requires forall id :: id in st.books ==>
      st.books[id].title.None? || !Occurs(Lower(st.books[id].title.value), Lower(q))
    ensures Serve(st, SearchRequest(Some(q), None), []) == (st, Response(StatusOk, ListBody([])))
  {
    var found := Serve(st, SearchRequest(Some(q), None), []).1.body.books;
    assert multiset(found) == multiset{};
  }

  /** Every stored record passes the field constraints. */
  predicate AllValid(st: Store) {
    forall id :: id in st.books ==> IsValid(st.books[id])
  }

  /** The update endpoint does not validate its body: a record breaking the
      field constraints can be written over a valid one. */
  lemma UpdateStoresInvalidRecord(st: Store, id: int, body: Book)
    requires Inv(st) && AllValid(st) && id in st.books
    requires body.isbn == st.books[id].isbn && !IsValid(body)
    ensures var next := Serve(st, UpdateRequest(id, body), []).0;
      id in next.books && !IsValid(next.books[id]) && !AllValid(next)
  {
    var next := Serve(st, UpdateRequest(id, body), []).0;
    assert SameContent(next.books[id], body);
  }

  /** Every request other than an update keeps every stored record valid. */
  lemma StepKeepsValid(st: Store, req: Request)
    requires Inv(st) && AllValid(st) && !req.UpdateRequest?
    ensures AllValid(Step(st, req).0)
  {
    var next := Step(st, req).0;
    if req.CreateRequest? {
      forall id | id in next.books
        ensures IsValid(next.books[id])
      {
        if id !in st.books {
          assert SameContent(next.books[id], req.body);
        }
      }
    }
  }

  /** A sequence of requests without updates, started on a store of valid
      records, leaves only valid records. */
  lemma {:induction false} RunWithoutUpdatesKeepsValid(st: Store, reqs: seq<Request>)
    requires Inv(st) && AllValid(st)
    requires forall i :: 0 <= i < |reqs| ==> !reqs[i].UpdateRequest?
    ensures AllValid(Run(st, reqs).0)
    decreases |reqs|
  {
    if |reqs| > 0 {
      StepKeepsValid(st, reqs[0]);
      var next := Step(st, reqs[0]).0;
      RunWithoutUpdatesKeepsValid(next, reqs[1..]);
    }
  }

  /** The empty store meets the invariant, so every sequence of requests
      from it keeps no two records with the same isbn. */
  lemma RunFromEmpty(reqs: seq<Request>)
    ensures var last := Run(EmptyStore, reqs).0;
      forall i, j :: i in last.books && j in last.books && i != j ==> last.books[i].isbn != last.books[j].isbn
  {
    assert Inv(EmptyStore);
  }
}
