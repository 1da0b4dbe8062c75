# FilmVault form validation in Dafny

FilmVault is a small movie catalogue web application. Before a movie is
stored, the server checks the submitted form with `validateForm(data)`: the
title, director, year and genre must each be present and hold something other
than whitespace, and the rating must be present. The function collects one
message per failing rule, in the fixed order title, director, year, genre,
rating, and returns `{ isValid, errors }`, where `isValid` holds exactly when
no message was collected.

This project models that function and proves what it promises.

- `whitespace.dfy` (module `Whitespace`): `String.prototype.trim` on the
  ECMAScript WhiteSpace and LineTerminator code points. It proves that trimming
  leaves the empty string exactly when the input is all whitespace.
- `js_values.dfy` (module `JsValues`): the JavaScript values a form field can
  hold, their truthiness, and the outcome of calling `.trim()` on each. A
  string is trimmed. Reading `trim` off `undefined` or `null` throws. On any
  other value `trim` is not a function, so the call throws. Evaluation
  completes either normally or by throwing a `TypeError`.
- `server_validation.dfy` (module `ServerValidation`): the validator. It has
  three parts.
  - `Validation` is a declarative specification. It selects the messages of
    the failing rules in rule order.
  - `ValidateForm` is the function as written: five checks in sequence, each
    appending to `errors`. Its contract says it equals `Validation`.
  - Lemmas state each rule, the ordering, and the validity condition about
    `Validation`.

The message strings are modelled as the enumeration `Message`. `Text` gives
each value's string, and `TextInjective` shows that distinct messages have
distinct texts. Membership and order of messages therefore say the same about
the strings.

## Model

| member | source | states |
|---|---|---|
| ServerValidation.ValidateForm | public/scripts/server-validation.js:1-32 | Running the five checks in order, appending a message for each failing one, gives exactly the specified result (the same TypeError when a text field cannot be trimmed); `isValid` holds iff `errors` is empty |
| JsValues.Truthy | public/scripts/server-validation.js:5-25 | `!v` is true exactly for `undefined`, `null`, `false`, `0` (and `-0`), `NaN` and `""`; every other value, a string of spaces or an object included, is truthy |
| JsValues.CallTrim | public/scripts/server-validation.js:5-20 | `v.trim()` completes exactly when `v` is a string; on `undefined` or `null` it throws because `trim` cannot be read, on any other value because `trim` is not a function; a completed result is empty iff the string is all whitespace |
| ServerValidation.RequiredCheck | public/scripts/server-validation.js:5-20 | The condition "`v` is falsy, or `v.trim()` is empty", evaluated left to right, is true iff the value is falsy or an all-whitespace string, and throws a TypeError iff the value is truthy and not a string, so a falsy value never reaches `trim` |
| ServerValidation.ValidationSpelledOut | public/scripts/server-validation.js:2-27 | When every text field can be trimmed, the errors are the title, director, year, genre and rating messages, each included iff its rule fails, concatenated in that order |
| ServerValidation.MessageIffRuleFails | public/scripts/server-validation.js:2-27 | The i-th message is among the errors iff the i-th rule fails |
| ServerValidation.TitleRule | public/scripts/server-validation.js:5-7 | "Title Required" is reported iff the title is missing, falsy or whitespace only; a title with a non-whitespace character gets no message |
| ServerValidation.DirectorRule | public/scripts/server-validation.js:10-12 | "Director Required" is reported iff the director is missing, falsy or whitespace only |
| ServerValidation.YearRule | public/scripts/server-validation.js:15-17 | "Year Required" is reported iff the year is missing, falsy or whitespace only |
| ServerValidation.GenreRule | public/scripts/server-validation.js:20-22 | "Genre Required" is reported iff the genre is missing, falsy or whitespace only |
| ServerValidation.RatingRule | public/scripts/server-validation.js:25-27 | "Rating Invalid" is reported iff the rating is falsy; the rating is not trimmed, so any non-empty string passes |
| ServerValidation.ErrorsOrdered | public/scripts/server-validation.js:2-27 | At most five errors, each one of the five messages, none repeated, in the order title, director, year, genre, rating |
| ServerValidation.ValidIffAllRulesPass | public/scripts/server-validation.js:28-30 | `isValid` holds iff all five rules pass |
| ServerValidation.AllPresentIsValid | public/scripts/server-validation.js:2-31 | Four text fields that are strings not made only of whitespace, with a truthy rating, give a valid result with no errors |
| ServerValidation.StringFieldsNeverThrow | public/scripts/server-validation.js:5-22 | When every text field is a string or absent, validation completes without throwing |
| ServerValidation.BlankTitleAndGenreExample | public/scripts/server-validation.js:5-22 | A blank title and an empty genre with the other fields present give exactly ["Title Required", "Genre Required"] and an invalid result |
| ServerValidation.WhitespaceRatingExample | public/scripts/server-validation.js:25-27 | A rating of a single space is accepted and the form is valid |
| ServerValidation.NumericYearExample | public/scripts/server-validation.js:15 | A numeric year has no `trim` method, so validation throws a TypeError |
| ServerValidation.TextInjective | public/scripts/server-validation.js:6-26 | The five message texts are pairwise distinct |
| ServerValidation.SelectMember | public/scripts/server-validation.js:2-27 | With distinct candidates, a candidate is collected iff its flag is set within the prefix examined |
| ServerValidation.SelectEmpty | public/scripts/server-validation.js:28-29 | Nothing is collected iff no flag in the examined prefix is set |
| ServerValidation.SelectOrdered | public/scripts/server-validation.js:2-27 | Collected messages keep the order of the candidate list and come from the examined prefix |
| ServerValidation.SelectFive | public/scripts/server-validation.js:2-27 | Selecting from five candidates is the concatenation of the five individual reports in order |
| Whitespace.TrimStart | public/scripts/server-validation.js:5 | Leading whitespace is removed: the result is a suffix of the input, what was cut off is all whitespace, and the result does not start with whitespace |
| Whitespace.TrimEnd | public/scripts/server-validation.js:5 | Trailing whitespace is removed: the result is a prefix of the input, what was cut off is all whitespace, and the result does not end with whitespace |
| Whitespace.MiddleAfterCuts | public/scripts/server-validation.js:5 | Cutting a whitespace prefix and then a whitespace suffix leaves a contiguous middle part of the string with only whitespace on either side |
| Whitespace.Trim | public/scripts/server-validation.js:5 | `trim()` returns a contiguous middle part of the string with only whitespace cut off before and after it, and neither end of the result is whitespace |
| Whitespace.TrimEmptyIff | public/scripts/server-validation.js:5 | `s.trim() === ""` iff every character of `s` is whitespace |
| Whitespace.TrimIdempotent | public/scripts/server-validation.js:5 | Trimming twice gives the same string as trimming once |

## Left out

- public/scripts/modal.js: the delete-confirmation dialog. It remembers which movie to delete and sends a `DELETE` request for it with `fetch`. It is DOM and network code and does not use the validator.
- public/scripts/client-validation.js: the in-browser validator. It works on DOM inputs, has its own rules, and is not part of this model.
- app.js: the Express server setup, body parsing and a single route that renders the home page. It does not call `validateForm`, so what the caller passes is not known here. The model therefore accepts any JavaScript value in each field. That the fields would be strings, arrays or nested objects from `express.urlencoded({ extended: true })` is only an assumption about a caller that is not part of this model.
- Poster lookup, sessions, authentication and the database are not part of this model.
- `validateForm(null)` or `validateForm(undefined)` throws when it reads `data.title`. The model takes a form record, so that call cannot be expressed.
- ServerValidation.ValidateForm: the TypeError is modelled without its message text, which in JavaScript names the offending field.
- Objects that define their own `trim` property, BigInt and Symbol values are not modelled. Every object counts as truthy and without `trim`.
- Numbers are modelled as reals, with NaN as a separate value. Floating-point rounding does not affect truthiness, which is the only thing the validator asks of a number.
- The input is only read: the form is an immutable datatype, so this holds by construction and is not a separate lemma.
- The result's `errors` is a sequence of `Message` values, and each value stands for its `Text` string.
