/** The `Book` entity and its field constraints (model/Book.java).

    Validation is modelled the way Bean Validation runs it: every annotation
    on every field is checked independently, each failing one contributes a
    (field, message) violation, and `@NotBlank` is the only constraint that
    rejects a null value. The annotations themselves are the table `Rules`. */
module Books {
  import opened Wrappers
  import opened Text

  /** Java's primitive `int`. */
  type Int32 = x: int | -0x8000_0000 <= x < 0x8000_0000

  /** A book record. Java references that may be null are `Option`s; the
      primitive `publicationYear` cannot be null. `id` is absent until the
      store assigns one. */
  datatype Book = Book(
    id: Option<int>,
    title: Option<string>,
    author: Option<string>,
    isbn: Option<string>,
    publicationYear: Int32,
    description: Option<string>)

  /** The two records agree on every field except `id`. */
  predicate SameContent(a: Book, b: Book) {
    && a.title == b.title
    && a.author == b.author
    && a.isbn == b.isbn
    && a.publicationYear == b.publicationYear
    && a.description == b.description
  }

  const TitleEmpty := "Title cannot be empty"
  const TitleTooLong := "Title cannot exceed 255 characters"
  const AuthorEmpty := "Author cannot be empty"
  const AuthorTooLong := "Author name cannot exceed 255 characters"
  const IsbnEmpty := "ISBN cannot be empty"
  const IsbnMalformed := "Invalid ISBN format"
  const YearTooEarly := "Publication year must be after 1450"
  const YearTooLate := "Publication year must be before 2050"
  const DescriptionTooLong := "Description cannot exceed 1000 characters"

  const MinYear := 1450
  const MaxYear := 2050
  const MaxNameLength := 255
  const MaxDescriptionLength := 1000

  /** The validated properties of `Book`. */
  datatype Field = Title | Author | Isbn | PublicationYear | Description {

    /** The Java property name, which keys the error body. */
    function Name(): string {
      match this
      case Title => "title"
      case Author => "author"
      case Isbn => "isbn"
      case PublicationYear => "publicationYear"
      case Description => "description"
    }
  }

  /** One failed constraint: the field and the annotation's message. */
  datatype Violation = Violation(field: Field, message: string)

  /** The constraint annotations used on `Book`. */
  datatype Constraint =
    | NotBlank(message: string)
    | MaxSize(max: nat, message: string)
    | IsbnPattern(message: string)
    | Min(bound: int, message: string)
    | Max(bound: int, message: string)

  /** One annotation on one field. */
  datatype Rule = Rule(field: Field, constraint: Constraint)

  /** The annotations of model/Book.java, in declaration order. */
  const Rules: seq<Rule> := [
    Rule(Title, NotBlank(TitleEmpty)),
    Rule(Title, MaxSize(MaxNameLength, TitleTooLong)),
    Rule(Author, NotBlank(AuthorEmpty)),
    Rule(Author, MaxSize(MaxNameLength, AuthorTooLong)),
    Rule(Isbn, NotBlank(IsbnEmpty)),
    Rule(Isbn, IsbnPattern(IsbnMalformed)),
    Rule(PublicationYear, Min(MinYear, YearTooEarly)),
    Rule(PublicationYear, Max(MaxYear, YearTooLate)),
    Rule(Description, MaxSize(MaxDescriptionLength, DescriptionTooLong))
  ]

  /** A field's value as the validator sees it. */
  datatype FieldValue = TextValue(text: Option<string>) | IntValue(n: int)

  function ValueOf(b: Book, field: Field): FieldValue {
    match field
    case Title => TextValue(b.title)
    case Author => TextValue(b.author)
    case Isbn => TextValue(b.isbn)
    case PublicationYear => IntValue(b.publicationYear)
    case Description => TextValue(b.description)
  }

  /** The ISBN check character: a decimal digit or `X`. */
  predicate IsCheckChar(c: char) {
    IsDigit(c) || c == 'X'
  }

  /** `\d{9}(\d|X)` spanning the whole string. */
  predicate MatchesIsbnBody(s: string) {
    |s| == 10 && AllDigits(s[..9]) && IsCheckChar(s[9])
  }

  /** The whole-string match of `^(97(8|9))?\d{9}(\d|X)$`: the optional
      group is tried first and skipped when the rest then fails. `\d` is the
      ASCII digit class. An accepted string is ten characters, or thirteen
      starting with 978 or 979, all digits except a final digit or `X`. */
  function MatchesIsbnPattern(s: string): (r: bool)
    ensures r ==> |s| == 10 || |s| == 13
    ensures r ==> AllDigits(s[..|s| - 1]) && IsCheckChar(s[|s| - 1])
    ensures r && |s| == 13 ==> s[..3] == "978" || s[..3] == "979"
    ensures |s| == 10 && AllDigits(s[..9]) && IsCheckChar(s[9]) ==> r
    ensures |s| == 13 && (s[..3] == "978" || s[..3] == "979") && AllDigits(s[..12]) && IsCheckChar(s[12]) ==> r
  {
    var withPrefix := |s| >= 3 && s[0] == '9' && s[1] == '7' && (s[2] == '8' || s[2] == '9')
                      && MatchesIsbnBody(s[3..]);
    assert withPrefix ==> s[..12] == s[..3] + s[3..][..9];
    assert |s| == 13 && (s[..3] == "978" || s[..3] == "979") ==> s[0] == '9' && s[1] == '7';
    withPrefix || MatchesIsbnBody(s)
  }

  /** Bean Validation semantics of one constraint on one value. Only
      `@NotBlank` rejects null; the size and pattern checks accept it. */
  predicate Satisfies(c: Constraint, v: FieldValue) {
    match v
    case IntValue(n) =>
      (match c
       case Min(bound, _) => n >= bound
       case Max(bound, _) => n <= bound
       case _ => true)
    case TextValue(t) =>
      (match c
       case NotBlank(_) => t.Some? && |Trim(t.value)| > 0
       case MaxSize(max, _) => t.None? || |t.value| <= max
       case IsbnPattern(_) => t.None? || MatchesIsbnPattern(t.value)
       case _ => true)
  }

  /** Reference meaning of a valid record, field by field. */
  predicate IsValid(b: Book) {
    && b.title.Some? && !IsBlank(b.title.value) && |b.title.value| <= MaxNameLength
    && b.author.Some? && !IsBlank(b.author.value) && |b.author.value| <= MaxNameLength
    && b.isbn.Some? && !IsBlank(b.isbn.value) && MatchesIsbnPattern(b.isbn.value)
    && MinYear <= b.publicationYear <= MaxYear
    && (b.description.Some? ==> |b.description.value| <= MaxDescriptionLength)
  }

  /** The violation a rule reports when it fails. */
  function ViolationOf(rule: Rule): Violation {
    Violation(rule.field, rule.constraint.message)
  }

  /** `b` breaks `rule`. */
  predicate Breaks(b: Book, rule: Rule) {
    !Satisfies(rule.constraint, ValueOf(b, rule.field))
  }

  /** What each annotation of `Rules` rejects, in terms of the record's fields. */
  lemma BreaksEachRule(b: Book)
    ensures Breaks(b, Rules[0]) <==> b.title.None? || IsBlank(b.title.value)
    ensures Breaks(b, Rules[1]) <==> b.title.Some? && |b.title.value| > MaxNameLength
    ensures Breaks(b, Rules[2]) <==> b.author.None? || IsBlank(b.author.value)
    ensures Breaks(b, Rules[3]) <==> b.author.Some? && |b.author.value| > MaxNameLength
    ensures Breaks(b, Rules[4]) <==> b.isbn.None? || IsBlank(b.isbn.value)
    ensures Breaks(b, Rules[5]) <==> b.isbn.Some? && !MatchesIsbnPattern(b.isbn.value)
    ensures Breaks(b, Rules[6]) <==> b.publicationYear < MinYear
    ensures Breaks(b, Rules[7]) <==> b.publicationYear > MaxYear
    ensures Breaks(b, Rules[8]) <==> b.description.Some? && |b.description.value| > MaxDescriptionLength
  {
  }

  /** A record breaks none of the rules exactly when it is valid. */
  lemma NoBreakIffValid(b: Book)
    ensures (forall i :: 0 <= i < |Rules| ==> !Breaks(b, Rules[i])) <==> IsValid(b)
  {
    BreaksEachRule(b);
    var each := !Breaks(b, Rules[0]) && !Breaks(b, Rules[1]) && !Breaks(b, Rules[2])
             && !Breaks(b, Rules[3]) && !Breaks(b, Rules[4]) && !Breaks(b, Rules[5])
             && !Breaks(b, Rules[6]) && !Breaks(b, Rules[7]) && !Breaks(b, Rules[8]);
    assert each <==> IsValid(b);
    if each {
      forall i | 0 <= i < |Rules|
        ensures !Breaks(b, Rules[i])
      {
        if i == 0 {} else if i == 1 {} else if i == 2 {} else if i == 3 {}
        else if i == 4 {} else if i == 5 {} else if i == 6 {} else if i == 7 {}
      }
    }
  }

  /** The nine rules report nine different violations. */
  lemma RuleViolationsDistinct()
    ensures forall i, j :: 0 <= i < j < |Rules| ==> ViolationOf(Rules[i]) != ViolationOf(Rules[j])
  {
    assert |TitleEmpty| != |TitleTooLong|;
    assert |AuthorEmpty| != |AuthorTooLong|;
    assert |IsbnEmpty| != |IsbnMalformed|;
    assert YearTooEarly[28] != YearTooLate[28];
  }

  /** Every annotation of `Rules` is checked against `b`, none short-circuits
      another, and each failure is reported. The result is empty exactly
      when the record is valid, and every reported violation is one of the
      nine annotated (field, message) pairs. */
  function Validate(b: Book): (r: set<Violation>)
    ensures r == {} <==> IsValid(b)
    ensures forall v :: v in r ==> exists rule :: rule in Rules && v == ViolationOf(rule)
  {
    var r := set rule | rule in Rules && Breaks(b, rule) :: ViolationOf(rule);
    NoBreakIffValid(b);
    forall i | 0 <= i < |Rules| && Breaks(b, Rules[i])
      ensures ViolationOf(Rules[i]) in r
    {
    }
    assert r != {} ==> exists i :: 0 <= i < |Rules| && Breaks(b, Rules[i]) by {
      if r != {} {
        var v :| v in r;
        var rule :| rule in Rules && Breaks(b, rule) && v == ViolationOf(rule);
      }
    }
    r
  }

  /** One fact per annotation: each message is reported exactly when its own
      field breaks its own constraint, independently of the other fields. */
  lemma ValidateMessages(b: Book)
    ensures Violation(Title, TitleEmpty) in Validate(b) <==> b.title.None? || IsBlank(b.title.value)
    ensures Violation(Title, TitleTooLong) in Validate(b) <==> b.title.Some? && |b.title.value| > MaxNameLength
    ensures Violation(Author, AuthorEmpty) in Validate(b) <==> b.author.None? || IsBlank(b.author.value)
    ensures Violation(Author, AuthorTooLong) in Validate(b) <==> b.author.Some? && |b.author.value| > MaxNameLength
    ensures Violation(Isbn, IsbnEmpty) in Validate(b) <==> b.isbn.None? || IsBlank(b.isbn.value)
    ensures Violation(Isbn, IsbnMalformed) in Validate(b) <==> b.isbn.Some? && !MatchesIsbnPattern(b.isbn.value)
    ensures Violation(PublicationYear, YearTooEarly) in Validate(b) <==> b.publicationYear < MinYear
    ensures Violation(PublicationYear, YearTooLate) in Validate(b) <==> b.publicationYear > MaxYear
    ensures Violation(Description, DescriptionTooLong) in Validate(b)
            <==> b.description.Some? && |b.description.value| > MaxDescriptionLength
  {
    BreaksEachRule(b);
    RuleViolationsDistinct();
    forall i | 0 <= i < |Rules|
      ensures ViolationOf(Rules[i]) in Validate(b) <==> Breaks(b, Rules[i])
    {
      if ViolationOf(Rules[i]) in Validate(b) {
        var rule :| rule in Rules && Breaks(b, rule) && ViolationOf(Rules[i]) == ViolationOf(rule);
        var j :| 0 <= j < |Rules| && Rules[j] == rule;
        assert i == j;
      }
    }
    assert ViolationOf(Rules[0]) == Violation(Title, TitleEmpty);
    assert ViolationOf(Rules[1]) == Violation(Title, TitleTooLong);
    assert ViolationOf(Rules[2]) == Violation(Author, AuthorEmpty);
    assert ViolationOf(Rules[3]) == Violation(Author, AuthorTooLong);
    assert ViolationOf(Rules[4]) == Violation(Isbn, IsbnEmpty);
    assert ViolationOf(Rules[5]) == Violation(Isbn, IsbnMalformed);
    assert ViolationOf(Rules[6]) == Violation(PublicationYear, YearTooEarly);
    assert ViolationOf(Rules[7]) == Violation(PublicationYear, YearTooLate);
    assert ViolationOf(Rules[8]) == Violation(Description, DescriptionTooLong);
  }

  /** The messages a field's violations can carry: the description and the
      isbn-free fields have only their own annotations' messages, and the two
      year bounds cannot fail together. */
  lemma ViolationsPerField(b: Book)
    ensures forall v :: v in Validate(b) && v.field == Description ==> v.message == DescriptionTooLong
    ensures forall v :: v in Validate(b) && v.field == PublicationYear ==>
      (v.message == YearTooEarly && b.publicationYear < MinYear) || (v.message == YearTooLate && b.publicationYear > MaxYear)
    ensures forall v :: v in Validate(b) && v.field == Title ==> v.message == TitleEmpty || v.message == TitleTooLong
    ensures forall v :: v in Validate(b) && v.field == Author ==> v.message == AuthorEmpty || v.message == AuthorTooLong
    ensures forall v :: v in Validate(b) && v.field == Isbn ==> v.message == IsbnEmpty || v.message == IsbnMalformed
  {
    ValidationKinds(b);
    ValidateMessages(b);
  }

  /** Every violation `Validate` reports is one of the nine the annotations
      define. */
  lemma ValidationKinds(b: Book)
    ensures forall v :: v in Validate(b) ==>
      v in {Violation(Title, TitleEmpty), Violation(Title, TitleTooLong),
            Violation(Author, AuthorEmpty), Violation(Author, AuthorTooLong),
            Violation(Isbn, IsbnEmpty), Violation(Isbn, IsbnMalformed),
            Violation(PublicationYear, YearTooEarly), Violation(PublicationYear, YearTooLate),
            Violation(Description, DescriptionTooLong)}
  {
    forall v | v in Validate(b)
      ensures v in {Violation(Title, TitleEmpty), Violation(Title, TitleTooLong),
                    Violation(Author, AuthorEmpty), Violation(Author, AuthorTooLong),
                    Violation(Isbn, IsbnEmpty), Violation(Isbn, IsbnMalformed),
                    Violation(PublicationYear, YearTooEarly), Violation(PublicationYear, YearTooLate),
                    Violation(Description, DescriptionTooLong)}
    {
      var rule :| rule in Rules && Breaks(b, rule) && v == ViolationOf(rule);
      var i :| 0 <= i < |Rules| && Rules[i] == rule;
    }
  }
}
