# Base REST resource controller, modelled in Dafny

`AbstractController` is the base class that a web backend's resource
controllers extend. A concrete controller supplies a model class and a
transformer. The base class then answers three kinds of GET request:

- one resource by its route id (`show`, through `select`);
- a page of resources (`index`, through `collect`);
- several resources named by a comma-separated `ids` query parameter
  (`showMutliple`, which `collect` switches to).

The `showScope` and `indexScope` variants first turn a path segment such as
`by-author` into the name of a query scope on the model (`byAuthor`,
through `getScope`). A model without that scope method fails before
anything else is looked at (src/AbstractController.php:83, 103). Otherwise:

- `showScope` runs the single-item path, looking the id up through the scope.
- `indexScope` runs the list path, paging through the scope. With a truthy
  `ids` it hands over to the id-list path like `index` does. That path looks
  the ids up with the model's plain `find`, without the scope
  (src/AbstractController.php:229-231, 283).

Each path checks the request in its own order and fails with its own error:

- single item: the HTTP method, then the id syntax (`validateId`: numeric
  with an integer value above zero), then whether the lookup found anything;
- list: the HTTP method, then the `ids` hand-over, then the page size
  against the ceiling;
- id list: the number of ids against the ceiling, then each id's syntax
  from left to right.

The ceiling is `static::LIMIT_MAX`, 1000 in the base class. A subclass may
redeclare it, so the model carries it as `Resource.limitMax`. The lemmas
are stated over that field, and the ones that name 1000 assume the base
class's value.

The model is pure. The files are:

- `wrappers.dfy`: `Option` and `Result`.
- `php_strings.dfy`: the PHP string functions the controller uses, over
  ASCII: `explode`, `str_replace` of one character, `ucwords` and `lcfirst`.
  `LowerAll` is the ASCII case folding inside `method_exists`'s
  case-insensitive comparison. `Implode` is a reference definition against
  which `explode` is proved by round trips.
- `php_numeric.dfy`: the decimal-numeral part of `is_numeric` and `intval`.
  It has a character-by-character scanner, and the scanner is proved
  against a rendering function.
- `controller.dfy`: these pieces become functions.
  - The request is a `Request` value.
  - The model class and the controller's overridable hooks are the
    uninterpreted functions of a `Resource` value:
    - the id policy;
    - `find`, `find` of a list and `paginate`;
    - the scoped `find` and `paginate`;
    - the set of declared method names.
  - The ceiling is also a field of `Resource`.
  - Each thrown exception is a `Fail(error)` response.
  - A rendered item or collection carries the `fields` selector handed to
    the transformer.
- `controller_properties.dfy`: lemmas that relate the pieces and state what
  the controller promises.

The source never calls a callback, never queries the model and never
renders after a check fails. The model states this as independence: the
response is the same for any two callbacks or lookups.

The `ids` short-circuit follows the code's test `if ($ids)`, which is PHP
truthiness, and not a plain "present and non-empty" test. So `ids=0` is
false and the request is paginated. `Controller.Truthy` models this.

## Model

| member | source | states |
|---|---|---|
| PhpNumeric.Parse | src/AbstractController.php:306 | a numeral is returned only if it is well formed and spells the whole input: a sign, digits, and an optional point with digits (the `is_numeric` test) |
| PhpNumeric.SplitSign | src/AbstractController.php:306 | the leading sign and the rest concatenate back to the input; without a sign the first character is neither '+' nor '-' |
| PhpNumeric.ScanWholeSound | src/AbstractController.php:306 | the integer-digit scanner returns only well-formed numerals that render to the text scanned so far plus the rest |
| PhpNumeric.ScanFractionSound | src/AbstractController.php:306 | the same for the fraction-digit scanner after the point |
| PhpNumeric.ScanFractionComplete | src/AbstractController.php:306 | a run of digits after the point is consumed entirely as fraction digits |
| PhpNumeric.ScanWholeDigits | src/AbstractController.php:306 | leading digits can be moved from the input into the integer part without changing the scan |
| PhpNumeric.SplitSignRender | src/AbstractController.php:306 | splitting the sign off a rendered numeral gives back its sign and its unsigned text |
| PhpNumeric.ScanUnsignedText | src/AbstractController.php:306 | scanning the unsigned text of a well-formed numeral gives back that numeral |
| PhpNumeric.ParseRender | src/AbstractController.php:306 | round trip: parsing the text of any well-formed numeral gives back that numeral |
| PhpNumeric.DigitsValuePositive | src/AbstractController.php:306 | the integer value of a digit string is positive iff some digit is not '0' |
| PhpNumeric.DigitStringIsNumeral | src/AbstractController.php:306 | a digit string is numeric iff it is non-empty, and then it is an unsigned integer numeral |
| ControllerProperties.DefaultValidateIdOfNumeral | src/AbstractController.php:302-307 | the default policy accepts a numeral iff it is not negative and its integer digits are not all zero ("1.5" accepted, "0.5" not) |
| Controller.DefaultValidateId | src/AbstractController.php:302-307 | an accepted id is numeric, not empty, and does not start with '-' |
| PhpNumeric.IsNumericIffNumeral | src/AbstractController.php:306 | `IsNumeric`: a string is numeric iff it is the text of some well-formed numeral |
| PhpNumeric.RenderFirstChar | src/AbstractController.php:306 | the text of a numeral is not empty and starts with '-' iff the numeral is negative |
| PhpNumeric.DigitsValueAppend | src/AbstractController.php:306 | reading `a + b` as digits gives the value of `a` shifted past the digits of `b`, plus the value of `b` |
| PhpNumeric.DigitsValueBound | src/AbstractController.php:306 | k digits are worth less than 10^k |
| PhpNumeric.ScaledValueSplit | src/AbstractController.php:306 | a numeral's digits read as one integer are its integer part shifted past the fraction digits, plus the fraction, which is below 10^(fraction length) |
| PhpNumeric.IntValueTruncates | src/AbstractController.php:306 | `IntValue` (the `intval` of the model): its magnitude is the largest integer not above the numeral's magnitude, and its sign is the numeral's (truncation toward zero) |
| ControllerProperties.DefaultValidateIdOfDigits | src/AbstractController.php:302-307 | on digit strings the policy accepts exactly those with a non-zero digit, so the empty string and every all-zero string are rejected |
| ControllerProperties.DefaultValidateIdAcceptsDigits | src/AbstractController.php:306 | "12" and "007" are accepted |
| ControllerProperties.DefaultValidateIdRejectsZeroAndEmpty | src/AbstractController.php:306 | "0" and "" are rejected |
| ControllerProperties.DefaultValidateIdAcceptsFraction | src/AbstractController.php:306 | "1.5" is accepted (its integer value is 1) |
| ControllerProperties.DefaultValidateIdRejectsZeroPart | src/AbstractController.php:306 | "0.5" is rejected (its integer value is 0) |
| ControllerProperties.DefaultValidateIdRejectionExamples | src/AbstractController.php:306 | "-3" and "abc" are rejected |
| Controller.Select | src/AbstractController.php:179-206 | an item is rendered iff the method is GET, the route id is accepted and the lookup finds something; the item rendered is exactly the one found, with `fields` unchanged; the only errors are MethodNotAllowed, InvalidSyntax and ItemNotFound; never a collection; a missing route id (`Controller.IdAccepted`) is rejected with InvalidSyntax like an invalid one |
| ControllerProperties.SelectGuardOrder | src/AbstractController.php:183-200 | a non-GET method fails with MethodNotAllowed whatever the id; then a rejected id fails with InvalidSyntax; then an empty lookup fails with ItemNotFound |
| ControllerProperties.SelectLookupConsultedOnlyForAcceptedId | src/AbstractController.php:183-195 | when the method or id check fails, the result does not depend on the lookup callback |
| Controller.Collect | src/AbstractController.php:217-252 | never a single item; the only errors are MethodNotAllowed, TooManyIds, InvalidSyntax and BigLimit; a rendered collection carries the request's `fields` |
| ControllerProperties.CollectIdsShortCircuit | src/AbstractController.php:227-232 | with truthy `ids` the list path is the id-list path, whatever the `limit` and the list callback |
| ControllerProperties.FalsyIdsPaginate | src/AbstractController.php:229-232 | `Controller.Truthy`: an `ids` that PHP reads as false (absent, "" or "0") leaves the request on the list path, exactly as if no ids were given |
| Controller.EffectiveLimit | src/AbstractController.php:235 | `$limit ?: 12`: never 0; a given non-zero limit is used as is, otherwise the page size is 12 |
| ControllerProperties.CollectCeiling | src/AbstractController.php:235-246 | under any ceiling: BigLimit iff the effective limit exceeds it; otherwise the callback gets the effective limit and the route id, and its records are rendered |
| ControllerProperties.CollectLimit | src/AbstractController.php:235-246 | with the base class's ceiling: BigLimit iff the given limit exceeds 1000; an absent or zero limit pages by 12; any other limit within 1000 is passed as given, with the route id |
| ControllerProperties.CollectPageSizeBounded | src/AbstractController.php:235-246 | a rendered page was requested with the effective limit, which is within the ceiling, and holds exactly what the callback returned |
| ControllerProperties.CollectMethodFirst | src/AbstractController.php:221-224 | a non-GET method fails with MethodNotAllowed before `ids` or `limit` is read |
| Controller.FirstInvalid | src/AbstractController.php:273-281 | the left-to-right scan finds the leftmost rejected id; it finds nothing iff every id is accepted |
| Controller.ShowMultiple | src/AbstractController.php:261-289 | the result is never a single item; the only errors are TooManyIds and InvalidSyntax; a collection carries the given `fields` |
| ControllerProperties.ShowMultipleTooManyIds | src/AbstractController.php:265-270 | TooManyIds iff the commas number at least the ceiling (more pieces than the ceiling), whatever the id policy and the bulk lookup |
| ControllerProperties.ShowMultipleInvalidPiece | src/AbstractController.php:273-281 | within the ceiling, InvalidSyntax iff some piece is rejected, and then the bulk lookup is not consulted |
| ControllerProperties.ShowMultipleRenders | src/AbstractController.php:265-287 | a collection is rendered iff the list is within the ceiling and every piece is accepted; the bulk lookup then gets the pieces in order, which join back to the parameter |
| ControllerProperties.ShowMultipleEmptyPiece | src/AbstractController.php:265-281 | "1,,2" splits into "1", "" and "2", and the empty piece fails it with InvalidSyntax under the base class's policy and ceiling |
| PhpStrings.Explode | src/AbstractController.php:265 | `explode` gives one more piece than there are delimiters, and no piece holds the delimiter |
| PhpStrings.ImplodeExplode | src/AbstractController.php:265 | joining the pieces of a split gives back the string |
| PhpStrings.ExplodePiece | src/AbstractController.php:265 | splitting a delimiter-free word followed by the delimiter yields that word first |
| PhpStrings.ExplodeImplode | src/AbstractController.php:265 | splitting a join of delimiter-free pieces gives back the pieces |
| PhpStrings.ReplaceChar | src/AbstractController.php:126 | `str_replace` of one character keeps the length and changes exactly the occurrences of that character |
| PhpStrings.RemoveChar | src/AbstractController.php:126 | removing a character leaves none of it, adds nothing, shortens the string by the number of its occurrences, and leaves a string without it unchanged |
| PhpStrings.RemoveCharAppend | src/AbstractController.php:126 | removal works piece by piece: a single character is dropped iff it is the one removed, and the removal from a concatenation is the concatenation of the removals, so every other character is kept in order |
| PhpStrings.UcWordsFrom | src/AbstractController.php:126 | keeps the length; a character is upper-cased exactly when it follows a word delimiter (or starts a word) |
| PhpStrings.UcWords | src/AbstractController.php:126 | `ucwords`: the first character and every character after a space, tab, CR, LF, vertical tab or form feed is upper-cased; nothing else changes |
| PhpStrings.LowerAll | src/AbstractController.php:131 | the case folding `method_exists` applies to both names: keeps the length and lower-cases every character |
| PhpStrings.LcFirst | src/AbstractController.php:128 | `lcfirst` keeps the length, lower-cases the first character and keeps all the others |
| Controller.SegmentAt | src/AbstractController.php:125 | `array_slice(..., offset, 1)[0]`: a non-negative offset counts from the start, a negative one from the end, clamped to the first segment; nothing when the slice is empty |
| Controller.GetScope | src/AbstractController.php:122-138 | the scope returned is the normalised segment at the offset and the model declares `"scope" + name`; otherwise ScopeMissing names that scope and no such method exists; a missing segment (`Controller.SegmentText`, the `[0]` of an empty slice) reads as "" |
| ControllerProperties.PipelineIsNormalize | src/AbstractController.php:126 | the replace, `ucwords` and space-removal pipeline equals a one-pass normalisation |
| ControllerProperties.NormalizeWordChar | src/AbstractController.php:126 | a character that is not a hyphen or delimiter is kept, upper-cased only at a word start, and the next one is inside the word |
| ControllerProperties.NormalizeInsideWord | src/AbstractController.php:126 | inside a word, plain characters pass through unchanged |
| ControllerProperties.NormalizeWord | src/AbstractController.php:126 | a word at a word start comes out capitalised |
| ControllerProperties.NormalizeHyphen | src/AbstractController.php:126 | a hyphen is dropped and starts a new word |
| ControllerProperties.NormalizeKebab | src/AbstractController.php:126 | hyphen-joined plain words normalise to their capitalised concatenation |
| ControllerProperties.ScopeNameOfKebab | src/AbstractController.php:125-128 | `Controller.ScopeName`: a hyphen-joined segment becomes its words capitalised and joined, with the first letter lowered |
| ControllerProperties.ScopeNameHasNoSeparators | src/AbstractController.php:126-128 | a scope name never contains a hyphen or a space |
| ControllerProperties.ByAuthorKebab | src/AbstractController.php:126 | "by-author" is the plain words "by" and "author" joined by a hyphen |
| ControllerProperties.ByAuthorPascal | src/AbstractController.php:126 | "by" and "author" capitalised and joined give "ByAuthor" |
| ControllerProperties.ScopeNameByAuthor | src/AbstractController.php:125-128 | "by-author" becomes "byAuthor" |
| ControllerProperties.HasMethodIgnoresCase | src/AbstractController.php:131 | a declared method matches every name that differs from it only in letter case, so `scopebyAuthor` finds `scopeByAuthor` |
| ControllerProperties.HasMethodIff | src/AbstractController.php:131 | `Controller.HasMethod`: `method_exists` holds iff some declared method has the same length and agrees letter by letter up to case |
| ControllerProperties.ScopeByAuthor | src/AbstractController.php:122-136 | with "by-author" second to last, the scope is "byAuthor" when `scopeByAuthor` is declared, and ScopeMissing("byAuthor") when nothing is |
| ControllerProperties.ShowRendersFoundItem | src/AbstractController.php:43-52 | `show` renders an item iff the model's `find` returns it for an accepted route id, with `fields` unchanged; an empty find fails with ItemNotFound |
| Controller.Show | src/AbstractController.php:43-52 | `show` never renders a collection; its only errors are MethodNotAllowed, InvalidSyntax and ItemNotFound; a rendered item is what `find` returns for the route id |
| Controller.Index | src/AbstractController.php:61-70 | `index` never renders a single item; its only errors are MethodNotAllowed, TooManyIds, InvalidSyntax and BigLimit; without ids a rendered page is `paginate` of the effective limit |
| ControllerProperties.IndexWithIds | src/AbstractController.php:61-70 | `index` with truthy `ids` is the id-list path |
| ControllerProperties.IndexPaginates | src/AbstractController.php:61-70 | without ids, `index` renders `paginate` of the effective limit, or fails with BigLimit above the ceiling |
| ControllerProperties.MissingScopeTakesPrecedence | src/AbstractController.php:80-111 | when the scope is missing, `showScope` and `indexScope` fail with ScopeMissing whatever the method, id, ids or limit |
| ControllerProperties.ScopedOperationsDelegate | src/AbstractController.php:80-111 | with the scope found, `showScope` renders exactly what the scoped find returns for an accepted id, and `indexScope` renders the scoped page of the effective limit; under a found scope a non-GET request fails with MethodNotAllowed, a rejected id (showScope) with InvalidSyntax, an empty scoped find with ItemNotFound, and a page above the ceiling without ids (indexScope) with BigLimit |
| Controller.ShowScope | src/AbstractController.php:80-91 | `showScope` never renders a collection; its errors are ScopeMissing and those of `select`; ScopeMissing arises exactly when the second-to-last segment names no declared scope; a rendered item is what the scoped find returns for the route id, under a found scope |
| Controller.IndexScope | src/AbstractController.php:100-111 | `indexScope` never renders a single item; its errors are ScopeMissing and those of `collect`; ScopeMissing arises exactly when the last segment names no declared scope; a rendered collection needs a found scope |
| ControllerProperties.IndexScopeWithIds | src/AbstractController.php:100-111 | with its scope found and truthy `ids`, `indexScope` is the unscoped id-list path (plain bulk `find`), whatever the scoped page does |

## Left out

- The framework's request, response and `Input` objects (src/AbstractController.php:202-204, 248-250, 285-287): the request is a value, and `response()->item`/`collection` are response constructors. The transformer is not modelled. Its `fields` argument is carried in the response.
- Eloquent `find`, `paginate` and scope calls (src/AbstractController.php:87, 107, 151, 166) are foreign library calls. They are uninterpreted functions of `Resource`. Nothing is assumed about what they return.
- Controller.DefaultValidateId: covers decimal numerals only (sign, digits, optional point and fraction). `is_numeric`'s leading and trailing whitespace and exponents such as "1e3" are not modelled. The integer value is exact decimal truncation (`PhpNumeric.IntValue`). PHP reads a numeral with a point, or a digit string whose value (leading zeros aside) does not fit a 64-bit integer, through a double first. So "0.99999999999999999" rounds to 1.0 and is accepted by the source but rejected here. A digit string whose value is beyond the largest double (about 1.8 × 10^308) overflows to INF, whose `intval` is 0, so the source rejects it. A large value that stays finite, such as 10^308, saturates to the largest integer and is accepted by both.
- ControllerProperties.DefaultValidateIdOfNumeral: states exact decimal truncation. The source differs for numerals that round up to the next integer as a double, such as "0.99999999999999999", and for numerals that overflow a double.
- ControllerProperties.DefaultValidateIdOfDigits: says every digit string with a non-zero digit is accepted. The source rejects digit strings whose value is beyond the largest double (about 1.8 × 10^308: some strings of 309 significant digits and every string of 310 or more), because the double overflows to INF and its `intval` is 0.
- Controller.Collect: `limit` is an optional integer. PHP string truthiness of the raw parameter ("00" is truthy) and the comparison of a non-numeric string with the ceiling are not modelled.
- Controller.IdAccepted: a missing route id is rejected before any id policy sees it. This is what the default policy answers for `null`. An overriding policy that would accept `null` is not modelled.
- Controller.SegmentText: when the slice is empty, the segment reads as PHP `null` coerced to "". The framework's handling of the undefined-index notice is not modelled.
- Controller.Truthy: `ids` is a string. The array form, a TODO in the source, is not modelled.
- Case mapping in `ucwords` and `lcfirst` is ASCII only. PHP's locale-dependent single-byte tables are not modelled. (`method_exists` folds names with ASCII-only lowering, which `LowerAll` matches.)
- The exception message text of the missing-scope error (src/AbstractController.php:133) is not modelled. The error carries the scope name only.
- The getters `transformer()` and `model()` (src/AbstractController.php:316-331) and the `Closure` parameter typing are not modelled. They hold no logic.
- The overridable hooks `find`, `paginate` and `validateId` are parameters of `Resource`. An override is modelled by supplying a different function.
