/** The error variants the controller raises and their translation to an
    HTTP status and a string-to-string JSON body
    (exception/GlobalExceptionHandler.java). `CustomException` and
    `NotFoundException` carry nothing but their map, so they are two variants
    of one datatype. */
module Errors {
  import opened Books

  const StatusOk := 200
  const StatusNoContent := 204
  const StatusBadRequest := 400
  const StatusNotFound := 404
  const StatusServerError := 500

  /** The exceptions the handler translates. */
  datatype ApiError =
    | Invalid(violations: set<Violation>)        // MethodArgumentNotValidException from @Valid
    | Custom(errors: map<string, string>)        // CustomException
    | NotFound(errors: map<string, string>)      // NotFoundException

  /** A binding-result field error: the property name and the message. */
  datatype FieldError = FieldError(field: string, message: string)

  /** The field error the framework reports for a violation. */
  function ToFieldError(v: Violation): FieldError {
    FieldError(v.field.Name(), v.message)
  }

  /** The field errors the framework reports for a set of violations. */
  function FieldErrorsOf(vs: set<Violation>): set<FieldError> {
    set v | v in vs :: ToFieldError(v)
  }

  /** The framework's listing `fieldErrors` holds exactly the violations `vs`. */
  predicate Lists(fieldErrors: seq<FieldError>, vs: set<Violation>) {
    && (forall fe :: fe in fieldErrors ==> fe in FieldErrorsOf(vs))
    && (forall fe :: fe in FieldErrorsOf(vs) ==> fe in fieldErrors)
  }

  /** Position `i` holds the last error of the listing for property `k`. */
  ghost predicate LastFor(fieldErrors: seq<FieldError>, k: string, i: int) {
    && 0 <= i < |fieldErrors|
    && fieldErrors[i].field == k
    && forall j :: i < j < |fieldErrors| ==> fieldErrors[j].field != k
  }

  /** The validation body: each field error of the listing is put into a
      fresh map in turn, keyed by property name. */
  function CollectFieldErrors(fieldErrors: seq<FieldError>): map<string, string> {
    if |fieldErrors| == 0 then map[]
    else
      var last := fieldErrors[|fieldErrors| - 1];
      CollectFieldErrors(fieldErrors[..|fieldErrors| - 1])[last.field := last.message]
  }

  /** Every field of the listing is a key of the body, and nothing else is. */
  lemma {:induction false} CollectFieldErrorsKeys(fieldErrors: seq<FieldError>)
    ensures forall k :: k in CollectFieldErrors(fieldErrors) <==> exists fe :: fe in fieldErrors && fe.field == k
  {
    if |fieldErrors| > 0 {
      var init := fieldErrors[..|fieldErrors| - 1];
      CollectFieldErrorsKeys(init);
      assert forall fe :: fe in fieldErrors <==> fe in init || fe == fieldErrors[|fieldErrors| - 1];
    }
  }

  /** A later put for the same field overwrites an earlier one: every key's
      value is the message of the LAST error the listing holds for it. */
  lemma {:induction false} CollectFieldErrorsKeepsLast(fieldErrors: seq<FieldError>)
    ensures forall k :: k in CollectFieldErrors(fieldErrors) ==>
      exists i :: LastFor(fieldErrors, k, i) && fieldErrors[i].message == CollectFieldErrors(fieldErrors)[k]
  {
    if |fieldErrors| > 0 {
      var init := fieldErrors[..|fieldErrors| - 1];
      var last := fieldErrors[|fieldErrors| - 1];
      var prior := CollectFieldErrors(init);
      var r := CollectFieldErrors(fieldErrors);
      assert r == prior[last.field := last.message];
      CollectFieldErrorsKeepsLast(init);
      forall k | k in r
        ensures exists i :: LastFor(fieldErrors, k, i) && fieldErrors[i].message == r[k]
      {
        if k == last.field {
          assert LastFor(fieldErrors, k, |fieldErrors| - 1);
        } else {
          assert k in prior && r[k] == prior[k];
          var i :| LastFor(init, k, i) && init[i].message == prior[k];
          assert LastFor(fieldErrors, k, i);
        }
      }
    }
  }

  /** The handler's response: status and body. A validation failure gives 400
      and one message per failed field, always one of that field's own
      violations; `CustomException` gives 400 and `NotFoundException` 404,
      each with its map as the body, no key added or removed. */
  function Handle(e: ApiError, fieldErrors: seq<FieldError>): (r: (int, map<string, string>))
    requires e.Invalid? ==> Lists(fieldErrors, e.violations)
    ensures e.Invalid? ==> && r.0 == StatusBadRequest
                           && (forall k :: k in r.1 <==> exists v :: v in e.violations && v.field.Name() == k)
                           && (forall k :: k in r.1 ==> Violation(FieldOf(k), r.1[k]) in e.violations)
    ensures e.Custom? ==> r.0 == StatusBadRequest && r.1 == e.errors
    ensures e.NotFound? ==> r.0 == StatusNotFound && r.1 == e.errors
  {
    match e
    case Invalid(vs) =>
      var body := CollectFieldErrors(fieldErrors);
      CollectFieldErrorsKeys(fieldErrors);
      CollectFieldErrorsKeepsLast(fieldErrors);
      assert forall k :: k in body <==> exists v :: v in vs && v.field.Name() == k by {
        forall k
          ensures k in body <==> exists v :: v in vs && v.field.Name() == k
        {
          if k in body {
            var fe :| fe in fieldErrors && fe.field == k;
            var v :| v in vs && ToFieldError(v) == fe;
          }
          if exists v :: v in vs && v.field.Name() == k {
            var v :| v in vs && v.field.Name() == k;
            assert ToFieldError(v) in fieldErrors;
          }
        }
      }
      assert forall k :: k in body ==> Violation(FieldOf(k), body[k]) in vs by {
        forall k | k in body
          ensures Violation(FieldOf(k), body[k]) in vs
        {
          var i :| LastFor(fieldErrors, k, i) && fieldErrors[i].message == body[k];
          assert fieldErrors[i] in fieldErrors;
          var v :| v in vs && ToFieldError(v) == fieldErrors[i];
          FieldOfName(v.field);
        }
      }
      (StatusBadRequest, body)
    case Custom(errors) => (StatusBadRequest, errors)
    case NotFound(errors) => (StatusNotFound, errors)
  }

  /** The field a property name belongs to (`Title` for any other string). */
  function FieldOf(name: string): Field {
    if name == "author" then Author
    else if name == "isbn" then Isbn
    else if name == "publicationYear" then PublicationYear
    else if name == "description" then Description
    else Title
  }

  /** `FieldOf` reads back what `Name` writes. */
  lemma FieldOfName(f: Field)
    ensures FieldOf(f.Name()) == f
  {
  }

  /** A field with exactly one violation is reported with that violation's
      message, whatever order the framework lists the errors in. */
  lemma SingleViolationReported(vs: set<Violation>, fieldErrors: seq<FieldError>, v: Violation)
    requires Lists(fieldErrors, vs)
    requires v in vs
    requires forall w :: w in vs && w.field == v.field ==> w == v
    ensures v.field.Name() in Handle(Invalid(vs), fieldErrors).1
    ensures Handle(Invalid(vs), fieldErrors).1[v.field.Name()] == v.message
  {
    var body := Handle(Invalid(vs), fieldErrors).1;
    var k := v.field.Name();
    assert k in body;
    FieldOfName(v.field);
    assert Violation(v.field, body[k]) in vs;
  }
}
