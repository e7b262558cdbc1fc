# Online library catalogue — a Dafny model

This project models the core of a small REST catalogue of books. Clients
create, list, fetch, update, delete and search `Book` records under `/books`.
The model covers four parts:

- the field constraints on `Book`, evaluated the way Bean Validation evaluates
  them (every annotation independently, one violation per failing annotation);
- the store: a table of books keyed by an identity column, with a counter
  handing out fresh ids, plus the service operations and repository queries
  over it;
- each controller endpoint's decision logic, as a function
  `Store × Request → Store × Outcome`;
- the exception advice that turns a raised error into a status and a JSON map
  of strings.

Every request keeps the store invariant: ids match keys, and no two stored
records share an isbn.

Modules, one per file, follow the program's layers:

| file | module | models |
|---|---|---|
| `wrappers.dfy` | `Wrappers` | `Option`, standing in for Java's nullable references and `Optional` |
| `text.dfy` | `Text` | `String.trim()`, ASCII case folding, substring containment, `%d` formatting of a `long` with ASCII digits |
| `book.dfy` | `Books` | the `Book` entity, its annotation table `Rules`, and `Validate` |
| `repository.dfy` | `Repository` | the `books` table, `findAll`, the derived queries and `existsByIsbn` |
| `service.dfy` | `Service` | `BookService` |
| `errors.dfy` | `Errors` | `CustomException`, `NotFoundException`, validation failures, and `GlobalExceptionHandler` |
| `controller.dfy` | `Controller` | `BookController`'s endpoints, one request (`Step`), a run of requests (`Run`), and the full cycle (`Serve`) |
| `scenarios.dfy` | `Scenarios` | properties of request sequences as a client observes them |

All paths in the table below are relative to the repository root. The common
prefix `src/main/java/com/mylibrary/onlinelibraryapi/` is written out in full.

Where the code departs from what its tests and documentation expect, the model follows the code:

- Create answers 200 with the stored record, not 201.
- A missing id (get, update, delete) raises `CustomException`, so the client
  sees 400 with `{"error": "Book with id <id> not found"}`, not 404.
  `NotFoundException` and its 404 handler exist but nothing raises them.
  `Serve` proves no modelled response is 404.
- The update endpoint does not validate its body, so as far as the
  controller and service code go, an update can store a record that breaks
  the field constraints (`Scenarios.UpdateStoresInvalidRecord`). The
  persistence layer's own validation on save, on by default, would reject it
  with 500; see "## Left out".
- `publicationYear` is a primitive `int`. It can never be null, and a missing
  JSON value binds to 0, which fails the year lower bound.

## Model

| member | source | states |
|---|---|---|
| Text.Trim | src/main/java/com/mylibrary/onlinelibraryapi/model/Book.java:35 | `@NotBlank` trims with `String.trim()`: the trimmed text is empty exactly when every character is at or below U+0020, and otherwise starts and ends on a kept character; the result is a contiguous part of the input |
| Text.Contains | src/main/java/com/mylibrary/onlinelibraryapi/repository/BookRepository.java:16-21 | the containment scan used by the search queries agrees with "q occurs at some position of s" for every pair of strings |
| Text.DecimalRoundTrip | src/main/java/com/mylibrary/onlinelibraryapi/controller/BookController.java:48 | reading back the decimal digits `%d` writes for a non-negative id (under a locale with ASCII digits) gives the id |
| Text.LongToDecimalInjective | src/main/java/com/mylibrary/onlinelibraryapi/controller/BookController.java:48 | `%d` writes distinct ids as distinct strings, negative ids included |
| Books.MatchesIsbnPattern | src/main/java/com/mylibrary/onlinelibraryapi/model/Book.java:46 | the isbn regex accepts exactly 10 characters (9 digits, then a digit or `X`) or 13 characters starting `978`/`979` followed by that 10-character form |
| Books.BreaksEachRule | src/main/java/com/mylibrary/onlinelibraryapi/model/Book.java:34-56 | what each of the nine annotations rejects, in terms of the fields; null fails only `@NotBlank`, and `@Size`/`@Pattern` accept it |
| Books.NoBreakIffValid | src/main/java/com/mylibrary/onlinelibraryapi/model/Book.java:34-56 | a record breaks no annotation exactly when it meets the field-by-field meaning of a valid book |
| Books.Validate | src/main/java/com/mylibrary/onlinelibraryapi/model/Book.java:34-56 | no violations exactly when the record is valid, and every violation reported is one an annotation defines |
| Books.ValidateMessages | src/main/java/com/mylibrary/onlinelibraryapi/model/Book.java:35-55 | for each of the nine (field, message) pairs, it is reported exactly when its condition on the field holds, so several can be reported at once |
| Books.ValidationKinds | src/main/java/com/mylibrary/onlinelibraryapi/model/Book.java:34-56 | nothing outside the nine annotated (field, message) pairs is ever reported |
| Books.ViolationsPerField | src/main/java/com/mylibrary/onlinelibraryapi/model/Book.java:49-56 | the description can only carry its size message; the year carries at most one of its two bound messages, matching the side it is out on |
| Repository.FindAll | src/main/java/com/mylibrary/onlinelibraryapi/service/BookService.java:26-28 | lists exactly the stored records, each under its own key, in strictly ascending id order |
| Repository.FindByTitleContainingIgnoreCase | src/main/java/com/mylibrary/onlinelibraryapi/repository/BookRepository.java:16 | exactly the stored records with a title containing the query, case-insensitively (ASCII), as the derived query's `UPPER` comparison decides; a null title never matches |
| Repository.FindByAuthorContainingIgnoreCase | src/main/java/com/mylibrary/onlinelibraryapi/repository/BookRepository.java:18 | exactly the stored records with an author containing the query, case-insensitively (ASCII), as the derived query's `UPPER` comparison decides |
| Repository.FindByTitleAndAuthor | src/main/java/com/mylibrary/onlinelibraryapi/repository/BookRepository.java:20-21 | exactly the records both single-field searches return |
| Repository.ExistsByIsbn | src/main/java/com/mylibrary/onlinelibraryapi/repository/BookRepository.java:23 | true exactly when some stored record has that isbn, compared case-sensitively; a null argument asks for a stored null isbn |
| Service.CreateBook | src/main/java/com/mylibrary/onlinelibraryapi/service/BookService.java:18-20 | the saved record gets an id not yet stored, keeps every other field, and becomes the only new row; existing rows are untouched |
| Service.GetBookById | src/main/java/com/mylibrary/onlinelibraryapi/service/BookService.java:30-32 | found exactly when the id is stored, and then it is the one record `findAll` lists under that id |
| Service.UpdateBook | src/main/java/com/mylibrary/onlinelibraryapi/service/BookService.java:34-43 | empty and nothing changes when the id is absent; otherwise the five fields take the new values, the id stays, and no other row or the counter moves |
| Service.DeleteBook | src/main/java/com/mylibrary/onlinelibraryapi/service/BookService.java:45-47 | the id is no longer found, every other row is unchanged, and deleting an absent id changes nothing |
| Service.SearchBooks | src/main/java/com/mylibrary/onlinelibraryapi/service/BookService.java:49-59 | picks one of the four queries by which filters are present; the result is the stored records meeting every given filter, in id order |
| Errors.CollectFieldErrorsKeys | src/main/java/com/mylibrary/onlinelibraryapi/exception/GlobalExceptionHandler.java:19-24 | the validation body has a key for every field in the listing and for no other |
| Errors.CollectFieldErrorsKeepsLast | src/main/java/com/mylibrary/onlinelibraryapi/exception/GlobalExceptionHandler.java:19-24 | each key's message is the one from the last error the listing holds for that field, since a later put overwrites |
| Errors.Handle | src/main/java/com/mylibrary/onlinelibraryapi/exception/GlobalExceptionHandler.java:17-36 | validation failure gives 400 with one key per failing field, each carrying one of that field's own messages; `CustomException` gives 400 and `NotFoundException` 404, with the map passed through unchanged |
| Errors.SingleViolationReported | src/main/java/com/mylibrary/onlinelibraryapi/exception/GlobalExceptionHandler.java:19-24 | a field with a single violation is reported with its message whatever order the errors are listed in |
| Controller.NotFoundMessageInjective | src/main/java/com/mylibrary/onlinelibraryapi/controller/BookController.java:48 | the not-found message identifies the requested id: equal messages mean equal ids |
| Controller.CreateEndpoint | src/main/java/com/mylibrary/onlinelibraryapi/controller/BookController.java:29-35 | an invalid body raises its violations before the isbn check; a valid body with a stored isbn raises the duplicate error; otherwise it is stored under a fresh id and returned with 200. Only that last case changes the store, and it keeps the invariant |
| Controller.GetAllEndpoint | src/main/java/com/mylibrary/onlinelibraryapi/controller/BookController.java:38-41 | 200 with exactly the stored records; the store is untouched |
| Controller.GetByIdEndpoint | src/main/java/com/mylibrary/onlinelibraryapi/controller/BookController.java:44-54 | a stored id gives 200 with its record; an absent id raises the not-found error; the fallback 404 is never produced |
| Controller.UpdateEndpoint | src/main/java/com/mylibrary/onlinelibraryapi/controller/BookController.java:57-73 | absent id raises not-found; a stored null isbn faults; an isbn changed to one another record holds raises the duplicate error; otherwise the record takes the body's content and keeps its id, with 200. The invariant is kept |
| Controller.DeleteEndpoint | src/main/java/com/mylibrary/onlinelibraryapi/controller/BookController.java:76-85 | absent id raises not-found and changes nothing; otherwise only that row is removed and 204 with no body is returned |
| Controller.SearchEndpoint | src/main/java/com/mylibrary/onlinelibraryapi/controller/BookController.java:88-92 | 200 with exactly the stored records matching every given filter; the store is untouched |
| Controller.Step | src/main/java/com/mylibrary/onlinelibraryapi/controller/BookController.java:29-92 | every endpoint keeps the store invariant (ids match keys, isbns unique); the read-only endpoints leave the store as it is; no endpoint raises `NotFoundException` |
| Controller.Run | src/main/java/com/mylibrary/onlinelibraryapi/controller/BookController.java:29-92 | any sequence of requests keeps the store invariant and yields one outcome per request |
| Controller.Respond | src/main/java/com/mylibrary/onlinelibraryapi/exception/GlobalExceptionHandler.java:17-36 | the body is an error map exactly when an exception was raised (or a returned entity carried one); every raised error other than `NotFoundException` answers 400; 404 comes only from `NotFoundException` or a returned 404, and 500 only from an unhandled fault or a returned 500; a validation body's keys are exactly the failing fields, and a custom map passes through unchanged; a returned entity is sent unchanged |
| Controller.Serve | src/main/java/com/mylibrary/onlinelibraryapi/controller/BookController.java:29-92 | the full cycle keeps the invariant and only ever answers 200, 204, 400 or 500, never 404 |
| Scenarios.CreateThenGet | src/main/java/com/mylibrary/onlinelibraryapi/controller/BookController.java:29-54 | a valid record with a fresh isbn is created with 200 and can be read back under the returned id with the content that was sent |
| Scenarios.DuplicateCreateRejected | src/main/java/com/mylibrary/onlinelibraryapi/controller/BookController.java:30-33 | a second valid record with the same isbn gets 400 and `{"isbn": "A book with this ISBN already exists"}`, and nothing is stored |
| Scenarios.DeleteThenGetNotFound | src/main/java/com/mylibrary/onlinelibraryapi/controller/BookController.java:44-85 | after a 204 delete, reading the same id gives 400 with the not-found body |
| Scenarios.AbsentIdIsBadRequest | src/main/java/com/mylibrary/onlinelibraryapi/controller/BookController.java:46-81 | get, update and delete on an absent id all answer 400 with a message naming that id and no other, and leave the store alone |
| Scenarios.YearAndDescriptionReported | src/main/java/com/mylibrary/onlinelibraryapi/exception/GlobalExceptionHandler.java:19-24 | a year after 2050 together with an over-long description is reported under both keys with their exact messages, for every listing order |
| Scenarios.ValidationBeforeDuplicateCheck | src/main/java/com/mylibrary/onlinelibraryapi/controller/BookController.java:30-33 | an invalid body with a taken isbn gets its violations, never the duplicate-isbn body |
| Scenarios.UpdateKeepingIsbn | src/main/java/com/mylibrary/onlinelibraryapi/controller/BookController.java:66-72 | an update that keeps the record's own isbn skips the duplicate check and succeeds with 200 |
| Scenarios.UpdateToTakenIsbnRejected | src/main/java/com/mylibrary/onlinelibraryapi/controller/BookController.java:66-68 | an update to an isbn another record holds gets 400 with the duplicate body and changes nothing |
| Scenarios.UpdateOnNullIsbnFaults | src/main/java/com/mylibrary/onlinelibraryapi/controller/BookController.java:64-66 | updating a record whose stored isbn is null fails with 500 whatever the body |
| Scenarios.UpdateStoresInvalidRecord | src/main/java/com/mylibrary/onlinelibraryapi/controller/BookController.java:58 | without `@Valid`, an update can replace a valid record with one that breaks the field constraints |
| Scenarios.SearchWithoutMatchIsEmpty | src/main/java/com/mylibrary/onlinelibraryapi/controller/BookController.java:88-92 | a title search no stored record matches answers 200 with an empty list rather than an error |
| Scenarios.StepKeepsValid | src/main/java/com/mylibrary/onlinelibraryapi/controller/BookController.java:29-92 | every request except update keeps all stored records valid |
| Scenarios.RunWithoutUpdatesKeepsValid | src/main/java/com/mylibrary/onlinelibraryapi/controller/BookController.java:29-92 | a run with no update, started with only valid records, ends with only valid records |
| Scenarios.RunFromEmpty | src/main/java/com/mylibrary/onlinelibraryapi/model/Book.java:44 | from an empty table, no sequence of requests ever leaves two records with the same isbn |

## Left out

- The AI-insights endpoint (`GET /books/{id}/ai-insights`) is not modelled. It calls an external HTTP service with a configured key.
- Security configuration and application startup are not modelled. They hold no catalogue logic.
- HTTP routing and JSON (de)serialisation are not modelled. A request arrives as a `Request` value whose body has already been bound to a `Book`.
- The Java type of a path id is `Long`, but ids are unbounded integers here. The counter never comes near 2^63.
- A client-supplied `id` in a create body is not modelled. `Service.CreateBook` always assigns a fresh id; the persistence provider's merge path for a non-null id is outside the model.
- The `unique = true` column constraint is not checked separately. Uniqueness of the isbn column is the store invariant `Repository.UniqueIsbns`, which the controller's duplicate checks maintain on their own.
- Checks that the persistence layer runs when it saves are not modelled. These are the NOT NULL columns and the JPA provider re-running Bean Validation before every insert and update. That re-validation is the default behaviour: the validation mode is AUTO, and a validation provider is present because `@Valid` needs one. The model takes every save as succeeding, which is all the controller and service code themselves assume. So in the default deployment the update in `Scenarios.UpdateStoresInvalidRecord` answers 500 and stores nothing. Likewise the stored null isbn that `Scenarios.UpdateOnNullIsbnFaults` starts from cannot arise there; that lemma describes the controller code alone.
- Under concurrent requests, the check-then-save race on the isbn is not modelled. Requests are handled one at a time.
- The validation annotations on the parameter of `existsByIsbn` are not enforced, because the repository is not a validated bean. The model treats the query as a plain lookup.
- Text.Lower: folds ASCII letters only. The database's `UPPER` (in the derived `...ContainingIgnoreCase` queries) and `LOWER` (in the `@Query` of `findByTitleAndAuthor`) also fold other letters; for ASCII text the two foldings decide containment alike.
- Repository.FindByTitleAndAuthor: the query text is matched literally. In the hand-written `LIKE` pattern, `%` and `_` in the user's input act as wildcards in the database, so a query such as `a_c` matches more there than here.
- Repository.FindAll: the listing order is fixed as ascending id. The source's `findAll` does not promise an order.
- Service.SearchBooks: its result, like those of the three search queries it dispatches to, is listed in ascending id order. The source promises no order: the queries have no `ORDER BY` and each runs as its own SQL statement, not as a filter over `findAll`. Only the set of records listed is the source's promise.
- Text.LongToDecimal: assumes the default format locale writes ASCII digits. `String.format` localizes `%d`, so under a locale with other digits (such as `fa-IR`) the not-found message names the id in those digits. `Text.DecimalRoundTrip` reads back ASCII digits only; `Text.LongToDecimalInjective` and `Controller.NotFoundMessageInjective` hold under any locale.
- Books.ValidateMessages: `@Size` lengths are counted in characters, not in the UTF-16 code units Java counts. The same holds for `Books.Validate`. A title of 128 characters outside the Basic Multilingual Plane is 256 code units, which Java rejects as too long and the model accepts.
- Books.Validate: returns the set of violations. The order and multiplicity of the framework's error listing are left to the `fieldErrors` parameter of `Errors.Handle` and `Controller.Serve`, constrained only to list exactly those violations.
- Controller.Respond: an unhandled fault is a bare 500. The framework's default error body is not modelled.
