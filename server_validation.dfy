/** The server-side movie form validator: five field rules, every failing one
    adds its message, in a fixed order, and the form is valid exactly when no
    message was added. */
module ServerValidation {
  import opened Whitespace
  import opened JsValues

  /** The submitted movie record; a property that was not submitted is `Undefined`. */
  datatype FormData = FormData(
    title: JsValue,
    director: JsValue,
    year: JsValue,
    genre: JsValue,
    rating: JsValue)

  /** The messages the validator reports, one per rule. */
  datatype Message = TitleRequired | DirectorRequired | YearRequired | GenreRequired | RatingInvalid

  /** The exact text pushed onto `errors` for each message. */
  function Text(m: Message): string {
    match m
    case TitleRequired => "Title Required"
    case DirectorRequired => "Director Required"
    case YearRequired => "Year Required"
    case GenreRequired => "Genre Required"
    case RatingInvalid => "Rating Invalid"
  }

  /** The object `{isValid, errors}` the validator returns; `errors` holds the
      messages, each standing for its `Text`. */
  datatype ValidationResult = ValidationResult(isValid: bool, errors: seq<Message>)

  /** Distinct messages have distinct texts, so the messages determine the
      strings the validator reports. */
  lemma TextInjective(m1: Message, m2: Message)
    ensures Text(m1) == Text(m2) <==> m1 == m2
  {
    // the five texts already differ in their first letter
    if m1 != m2 {
      assert Text(m1)[0] != Text(m2)[0];
    }
  }

  /** Every message the validator can report, in the order its rules run. */
  const Messages: seq<Message> :=
    [TitleRequired, DirectorRequired, YearRequired, GenreRequired, RatingInvalid]

  // ---------------------------------------------------------------------------
  // Ordered selection of messages

  predicate Distinct<T(==)>(s: seq<T>) {
    forall i, j :: 0 <= i < j < |s| ==> s[i] != s[j]
  }

  /** The position of the first occurrence of `x` in `s`. */
  function IndexOf<T(==)>(s: seq<T>, x: T): (i: nat)
    requires x in s
    ensures i < |s| && s[i] == x && x !in s[..i]
  {
    if s[0] == x then 0 else 1 + IndexOf(s[1..], x)
  }

  /** The message `m` if its rule failed, nothing otherwise. */
  function Report<T>(failed: bool, m: T): seq<T> {
    if failed then [m] else []
  }

  /** The first `n` messages whose flag is set, in their original order. */
  function Select<T>(msgs: seq<T>, flags: seq<bool>, n: nat): (r: seq<T>)
    requires |msgs| == |flags| && n <= |msgs|
    ensures |r| <= n
  {
    if n == 0 then [] else Select(msgs, flags, n - 1) + Report(flags[n - 1], msgs[n - 1])
  }

  /** Among distinct messages, one is selected exactly when it is among the
      first `n` and its flag is set. */
  lemma {:induction false} SelectMember<T>(msgs: seq<T>, flags: seq<bool>, n: nat, i: nat)
    requires |msgs| == |flags| && n <= |msgs| && Distinct(msgs) && i < |msgs|
    ensures msgs[i] in Select(msgs, flags, n) <==> i < n && flags[i]
  {
    if n > 0 {
      SelectMember(msgs, flags, n - 1, i);
      assert i != n - 1 ==> msgs[i] != msgs[n - 1];
    }
  }

  /** Nothing is selected exactly when no flag among the first `n` is set. */
  lemma {:induction false} SelectEmpty<T>(msgs: seq<T>, flags: seq<bool>, n: nat)
    requires |msgs| == |flags| && n <= |msgs|
    ensures Select(msgs, flags, n) == [] <==> forall i :: 0 <= i < n ==> !flags[i]
  {
    if n > 0 {
      SelectEmpty(msgs, flags, n - 1);
    }
  }

  /** In a sequence without repeats, the position of `s[i]` is `i`. */
  lemma IndexOfDistinct<T>(s: seq<T>, i: nat)
    requires Distinct(s) && i < |s|
    ensures IndexOf(s, s[i]) == i
  {
  }

  /** Every element of `r` comes from the first `n` of `msgs`, and later in
      `r` means later in `msgs`. */
  predicate InOrder<T(==)>(msgs: seq<T>, r: seq<T>, n: nat) {
    (forall p :: 0 <= p < |r| ==> r[p] in msgs && IndexOf(msgs, r[p]) < n)
    && (forall p, q :: 0 <= p < q < |r| ==> IndexOf(msgs, r[p]) < IndexOf(msgs, r[q]))
  }

  /** Selection keeps the original order of the messages. */
  lemma {:induction false} SelectOrdered<T>(msgs: seq<T>, flags: seq<bool>, n: nat)
    requires |msgs| == |flags| && n <= |msgs| && Distinct(msgs)
    ensures InOrder(msgs, Select(msgs, flags, n), n)
  {
    if n > 0 {
      var rest := Select(msgs, flags, n - 1);
      SelectOrdered(msgs, flags, n - 1);
      IndexOfDistinct(msgs, n - 1);
      var r := Select(msgs, flags, n);
      assert r == rest + Report(flags[n - 1], msgs[n - 1]);
      forall p | 0 <= p < |r| ensures r[p] in msgs && IndexOf(msgs, r[p]) < n {
        if p < |rest| {
          assert r[p] == rest[p];
        }
      }
      forall p, q | 0 <= p < q < |r| ensures IndexOf(msgs, r[p]) < IndexOf(msgs, r[q]) {
        assert r[p] == rest[p];
        if q < |rest| {
          assert r[q] == rest[q];
        }
      }
    }
  }

  /** Selecting from five messages is five conditional appends, in order. */
  lemma SelectFive<T>(m: seq<T>, f: seq<bool>)
    requires |m| == 5 && |f| == 5
    ensures Select(m, f, 5)
      == Report(f[0], m[0]) + Report(f[1], m[1]) + Report(f[2], m[2]) + Report(f[3], m[3]) + Report(f[4], m[4])
  {
    assert Select(m, f, 1) == Report(f[0], m[0]);
    assert Select(m, f, 2) == Report(f[0], m[0]) + Report(f[1], m[1]);
    assert Select(m, f, 3) == Report(f[0], m[0]) + Report(f[1], m[1]) + Report(f[2], m[2]);
  }

  // ---------------------------------------------------------------------------
  // The rules, stated declaratively

  /** A required text field fails when it is falsy or holds only whitespace. */
  predicate Blank(v: JsValue) {
    !Truthy(v) || (v.Str? && AllWhitespace(v.s))
  }

  /** A truthy value that is not a string has no `trim` method. */
  predicate HasNoTrim(v: JsValue) {
    Truthy(v) && !v.Str?
  }

  /** Which of the five rules fail, aligned with `Messages`. */
  function Failed(d: FormData): seq<bool> {
    [Blank(d.title), Blank(d.director), Blank(d.year), Blank(d.genre), !Truthy(d.rating)]
  }

  /** What validating `d` yields: a TypeError when a text field cannot be
      trimmed, otherwise the messages of the failing rules and whether there
      are none. */
  function Validation(d: FormData): Completion<ValidationResult> {
    if HasNoTrim(d.title) || HasNoTrim(d.director) || HasNoTrim(d.year) || HasNoTrim(d.genre)
    then Throw(NotAFunction)
    else
      var errs := Select(Messages, Failed(d), |Messages|);
      Normal(ValidationResult(errs == [], errs))
  }

  /** When every text field can be trimmed, the report is the failing rules'
      messages concatenated in rule order. */
  lemma ValidationSpelledOut(d: FormData)
    requires !HasNoTrim(d.title) && !HasNoTrim(d.director)
    requires !HasNoTrim(d.year) && !HasNoTrim(d.genre)
    ensures var errs := Report(Blank(d.title), TitleRequired) + Report(Blank(d.director), DirectorRequired)
                        + Report(Blank(d.year), YearRequired) + Report(Blank(d.genre), GenreRequired)
                        + Report(!Truthy(d.rating), RatingInvalid);
            Validation(d) == Normal(ValidationResult(errs == [], errs))
  {
    SelectFive(Messages, Failed(d));
  }

  // ---------------------------------------------------------------------------
  // The validator as written

  /** The condition `!v || v.trim() === ""`, evaluated left to right: a falsy
      value never reaches the `trim` call. It holds exactly on a blank value and
      throws exactly on a value with no `trim` method; reading `trim` off
      `undefined` or `null` never happens. */
  function RequiredCheck(v: JsValue): (r: Completion<bool>)
    ensures r == if HasNoTrim(v) then Throw(NotAFunction) else Normal(Blank(v))
  {
    if !Truthy(v) then Normal(true)
    else
      match CallTrim(v)
      case Normal(t) => Normal(t == "")
      case Throw(e) => Throw(e)
  }

  /** `validateForm(data)`: run the five checks in order, pushing the message of
      each one that fails onto `errors`; a `trim` call that throws ends the
      validation with that error. */
  method ValidateForm(data: FormData) returns (result: Completion<ValidationResult>)
    ensures result == Validation(data)
    ensures result.Normal? ==> (result.value.isValid <==> result.value.errors == [])
  {
    var errors: seq<Message> := [];

    var titleMissing :- RequiredCheck(data.title);
    if titleMissing {
      errors := errors + [TitleRequired];
    }
    ghost var afterTitle := errors;
    assert afterTitle == Report(Blank(data.title), TitleRequired);

    var directorMissing :- RequiredCheck(data.director);
    if directorMissing {
      errors := errors + [DirectorRequired];
    }
    ghost var afterDirector := errors;
    assert afterDirector == afterTitle + Report(Blank(data.director), DirectorRequired);

    var yearMissing :- RequiredCheck(data.year);
    if yearMissing {
      errors := errors + [YearRequired];
    }
    ghost var afterYear := errors;
    assert afterYear == afterDirector + Report(Blank(data.year), YearRequired);

    var genreMissing :- RequiredCheck(data.genre);
    if genreMissing {
      errors := errors + [GenreRequired];
    }
    ghost var afterGenre := errors;
    assert afterGenre == afterYear + Report(Blank(data.genre), GenreRequired);

    if !Truthy(data.rating) {
      errors := errors + [RatingInvalid];
    }
    assert errors == afterGenre + Report(!Truthy(data.rating), RatingInvalid);
    ValidationSpelledOut(data);
    return Normal(ValidationResult(|errors| == 0, errors));
  }

  // ---------------------------------------------------------------------------
  // Properties of the validator

  /** Message `i` is reported exactly when rule `i` fails. */
  lemma MessageIffRuleFails(d: FormData, i: nat)
    requires Validation(d).Normal? && i < |Messages|
    ensures Messages[i] in Validation(d).value.errors <==> Failed(d)[i]
  {
    SelectMember(Messages, Failed(d), |Messages|, i);
  }

  /** "Title Required" is reported exactly when the title is missing or blank. */
  lemma TitleRule(d: FormData)
    requires Validation(d).Normal?
    ensures TitleRequired in Validation(d).value.errors <==> Blank(d.title)
  {
    MessageIffRuleFails(d, 0);
  }

  /** "Director Required" is reported exactly when the director is missing or blank. */
  lemma DirectorRule(d: FormData)
    requires Validation(d).Normal?
    ensures DirectorRequired in Validation(d).value.errors <==> Blank(d.director)
  {
    MessageIffRuleFails(d, 1);
  }

  /** "Year Required" is reported exactly when the year is missing or blank. */
  lemma YearRule(d: FormData)
    requires Validation(d).Normal?
    ensures YearRequired in Validation(d).value.errors <==> Blank(d.year)
  {
    MessageIffRuleFails(d, 2);
  }

  /** "Genre Required" is reported exactly when the genre is missing or blank. */
  lemma GenreRule(d: FormData)
    requires Validation(d).Normal?
    ensures GenreRequired in Validation(d).value.errors <==> Blank(d.genre)
  {
    MessageIffRuleFails(d, 3);
  }

  /** "Rating Invalid" is reported exactly when the rating is falsy; the rating
      is never trimmed, so any non-empty string passes. */
  lemma RatingRule(d: FormData)
    requires Validation(d).Normal?
    ensures RatingInvalid in Validation(d).value.errors <==> !Truthy(d.rating)
    ensures d.rating.Str? && d.rating.s != [] ==> RatingInvalid !in Validation(d).value.errors
  {
    MessageIffRuleFails(d, 4);
  }

  /** Every reported message is one of the five, each at most once, in rule
      order. */
  lemma ErrorsOrdered(d: FormData)
    requires Validation(d).Normal?
    ensures var errs := Validation(d).value.errors;
      |errs| <= 5
      && (forall e :: e in errs ==> e in Messages)
      && (forall p, q :: 0 <= p < q < |errs| ==> IndexOf(Messages, errs[p]) < IndexOf(Messages, errs[q]))
      && Distinct(errs)
  {
    SelectOrdered(Messages, Failed(d), |Messages|);
  }

  /** The form is valid exactly when every rule passes. */
  lemma ValidIffAllRulesPass(d: FormData)
    requires Validation(d).Normal?
    ensures Validation(d).value.isValid <==>
      !Blank(d.title) && !Blank(d.director) && !Blank(d.year) && !Blank(d.genre) && Truthy(d.rating)
  {
    var f := Failed(d);
    SelectEmpty(Messages, f, |Messages|);
    assert (forall i :: 0 <= i < 5 ==> !f[i]) <==> !f[0] && !f[1] && !f[2] && !f[3] && !f[4];
  }

  /** Text fields that are strings with a non-whitespace character and a truthy
      rating make a valid form with no messages. */
  lemma AllPresentIsValid(d: FormData)
    requires d.title.Str? && !AllWhitespace(d.title.s)
    requires d.director.Str? && !AllWhitespace(d.director.s)
    requires d.year.Str? && !AllWhitespace(d.year.s)
    requires d.genre.Str? && !AllWhitespace(d.genre.s)
    requires Truthy(d.rating)
    ensures Validation(d) == Normal(ValidationResult(true, []))
  {
    ValidIffAllRulesPass(d);
  }

  /** A form whose text fields are strings or absent never makes the validator
      throw. (A URL-encoded body without bracketed keys would be such a form,
      if that is what the caller passes.) */
  lemma StringFieldsNeverThrow(d: FormData)
    requires d.title.Str? || d.title.Undefined?
    requires d.director.Str? || d.director.Undefined?
    requires d.year.Str? || d.year.Undefined?
    requires d.genre.Str? || d.genre.Undefined?
    ensures Validation(d).Normal?
  {
  }

  /** A blank title and an empty genre, with the other fields present, give
      exactly the two messages in rule order. */
  lemma BlankTitleAndGenreExample()
    ensures Validation(FormData(Str(" \t"), Str("D"), Str("2020"), Str(""), Num(5.0)))
      == Normal(ValidationResult(false, [TitleRequired, GenreRequired]))
  {
    var d := FormData(Str(" \t"), Str("D"), Str("2020"), Str(""), Num(5.0));
    assert AllWhitespace(" \t") by {
      assert " \t"[0] == ' ' && " \t"[1] == '\t';
    }
    assert !AllWhitespace("D") by {
      assert "D"[0] == 'D';
    }
    assert !AllWhitespace("2020") by {
      assert "2020"[0] == '2';
    }
    ValidationSpelledOut(d);
    assert Report(true, TitleRequired) + Report(false, DirectorRequired) + Report(false, YearRequired)
      + Report(true, GenreRequired) + Report(false, RatingInvalid) == [TitleRequired, GenreRequired];
  }

  /** A whitespace-only rating is accepted, because the rating is not trimmed. */
  lemma WhitespaceRatingExample()
    ensures Validation(FormData(Str("Alien"), Str("Scott"), Str("1979"), Str("Horror"), Str(" ")))
      == Normal(ValidationResult(true, []))
  {
    var d := FormData(Str("Alien"), Str("Scott"), Str("1979"), Str("Horror"), Str(" "));
    assert "Alien"[0] == 'A' && "Scott"[0] == 'S' && "1979"[0] == '1' && "Horror"[0] == 'H';
    AllPresentIsValid(d);
  }

  /** A numeric year has no `trim` method: validation throws a TypeError. */
  lemma NumericYearExample()
    ensures Validation(FormData(Str("Alien"), Str("Scott"), Num(1979.0), Str("Horror"), Num(5.0)))
      == Throw(NotAFunction)
  {
  }
}
