# Population endpoint validation, modelled in Dafny

This project models the request-validation front of the country-information
service's population endpoint,
`GET /countryinfo/v1/population/{code}?limit={start}-{end}`. It covers four pieces:

- `extractCountryCode` takes the fifth `/`-separated segment of the path and upper-cases it.
- `extractYearRange` parses the optional `limit` value, `YYYY-YYYY`, into a start and an end year.
- `PopulationHandler` runs its early returns in order. A missing code gives 400, then a bad
  limit gives 400. Only then does it call the population service.
- `handlePopulationError` turns a service error into 404 or 500, depending on whether the
  message contains `404 Not Found`.

The model also covers the library behaviour these functions depend on:

- Go's `strings.Split`, `strings.Contains` and `strings.ToUpper`, in the module `Strings`.
- Go's `strconv.Atoi`, in the module `Strconv`.

`Atoi` is modelled for a 64-bit `int`. It accepts an optional `+` or `-`, then one or more
ASCII digits. Leading zeros are allowed. The value must lie in [-2^63, 2^63-1].

Each operation is a pure function. Each comes with an independent description and a lemma
relating the two:

- `Split` is paired with `Join`. The pieces joined back give the input, and on separator-free
  pieces `Split` inverts `Join`.
- `Atoi` is paired with the decimal rendering `Show`. It reads back every 64-bit value.
  Every numeral it accepts is an optional sign, then zeros, then `Show` of the magnitude.
- `ExtractYearRange` is described by the strings it accepts and rejects, and the round trip
  `"s-e"` gives back `(s, e)`.
- `Contains` is checked against a reference definition based on substring occurrence.

The population service (`services.GetPopulationData`) is a function parameter. The
handler's result records every call made to it. That makes two facts statable: a rejected
request calls nothing, and an accepted one passes the parsed code and years on unchanged.

Modules: `Wrappers` (Option, Result), `Strings`, `Strconv`, `Models` (`PopulationRecord`,
`PopulationResponse`) and `Handlers`.

Two facts about the code that the model keeps as they are:

- `extractYearRange` returns either `-1` on both sides (no limit given) or two parsed years;
  it never returns a range bounded on one side only.
- `handlePopulationError` decides 404 by matching the text `404 Not Found` in the error
  message, case-sensitively; it does not look at any error type.

## Model

| member | source | states |
|---|---|---|
| Strings.Split | handlers/handlers.go:102 | `strings.Split` on one character: there is one more piece than there are separators, no piece holds the separator, and joining the pieces with it gives back the input |
| Strings.SplitJoin | handlers/handlers.go:102-103 | on separator-free pieces, `Split` inverts `Join`, so a string and its pieces determine each other |
| Strings.SplitAround | handlers/handlers.go:89 | splitting `a + sep + b` gives the pieces of `a` followed by the pieces of `b` |
| Strings.SplitSepFree | handlers/handlers.go:89 | a string without the separator splits into itself alone |
| Strings.Contains | handlers/handlers.go:118 | `strings.Contains` is true exactly when some window of the text equals the searched string |
| Strings.ToUpper | handlers/handlers.go:91 | upper-casing keeps the length, leaves no ASCII lower-case letter, moves a..z to A..Z and keeps every other character |
| Strings.ToUpperIdempotent | handlers/handlers.go:91 | upper-casing an upper-cased code changes nothing |
| Strconv.Atoi | handlers/handlers.go:107-108 | a value `Atoi` accepts is a 64-bit integer; it is negative only after a leading `-` and non-negative when the text has no `-`; the empty string is refused |
| Strconv.AtoiShow | handlers/handlers.go:107-108 | `Atoi` reads every non-negative 64-bit value back from its decimal numeral |
| Strconv.AtoiSignedShow | handlers/handlers.go:107-108 | a leading `-` or `+` is accepted and gives the signed value, down to -2^63 |
| Strconv.LeadingZeros | handlers/handlers.go:107-108 | leading zeros are accepted bare, after `+` and after `-`, and do not change the value; with `-` the range reaches -2^63 |
| Strconv.AtoiCanonical | handlers/handlers.go:107-108 | every accepted numeral is an optional sign, then zeros, then the shortest numeral of the magnitude returned |
| Handlers.ExtractCountryCode | handlers/handlers.go:88-94 | the code holds no `/` and no lower-case ASCII letter, and it is empty when the path has fewer than four `/` |
| Handlers.CountryCodeOfSegments | handlers/handlers.go:89-93 | for any path made of segments, the code is the fifth segment upper-cased when there are at least five and it is non-empty, otherwise `""` |
| Handlers.EmptyCountryCode | handlers/handlers.go:90-93 | the code is empty exactly when there are fewer than five segments or the fifth one is empty |
| Handlers.PopulationPathCode | handlers/handlers.go:88-94 | on a path shaped `/a/b/c/{code}` the result is `{code}` upper-cased, whatever follows behind another `/` |
| Handlers.ExtractYearRange | handlers/handlers.go:97-114 | an empty limit means no range, `(-1, -1)` without error; every error is `(-1, -1)` with "invalid year range format"; a non-empty limit without exactly one `-` is an error; an accepted pair is ordered and 64-bit, and non-negative when the limit was non-empty |
| Handlers.YearRangeAccepts | handlers/handlers.go:102-113 | two `Atoi`-valid pieces in order, joined by one `-`, are returned as they are, with no error |
| Handlers.YearRangeRejects | handlers/handlers.go:107-111 | two pieces joined by one `-` are an error when either fails `Atoi` or start > end |
| Handlers.YearRangeShape | handlers/handlers.go:102-113 | every accepted non-empty limit is two `-`-free `Atoi`-valid pieces around one `-`, read as start and end |
| Handlers.YearRangeRoundTrip | handlers/handlers.go:107-113 | for 0 <= s <= e < 2^63, parsing `"s-e"` gives exactly `(s, e)` with no error |
| Handlers.SentinelOnlyWhenEmpty | handlers/handlers.go:98-113 | on success, the bounds are `-1` exactly when the limit was empty, so the sentinel never collides with a real year |
| Handlers.DecidePopulation | handlers/handlers.go:58-75 | a rejection body starts with "400 Bad Request: "; going on means a non-empty, `/`-free, upper-case code and ordered years |
| Handlers.HandlePopulationError | handlers/handlers.go:117-124 | the status is 404 exactly when the message contains "404 Not Found", otherwise 500, and the message is the body |
| Handlers.PopulationHandler | handlers/handlers.go:58-85 | at most one service call is made; the status is 400 exactly when no call was made; the call carries the extracted code and the parsed years; the status is 200 exactly when the service succeeded, and then the body is its data; a failed call is answered by `HandlePopulationError` of the service's error message |
| Handlers.CodeCheckedBeforeLimit | handlers/handlers.go:60-67 | without a code the answer is the same 400 whatever the limit is, so the limit is not examined |
| Handlers.BadLimitRejected | handlers/handlers.go:70-74 | with a code, a bad limit is a 400 whose body names the format error |
| Handlers.BadRequestMakesNoCall | handlers/handlers.go:60-77 | a rejected request makes no service call, so no service can change its 400 response |
| Handlers.ServiceGetsParsedInputs | handlers/handlers.go:60-77 | the service is called exactly when both checks pass, once, with the parsed code and years unchanged |
| Handlers.WellFormedRequest | handlers/handlers.go:58-77 | a request on `/a/b/c/{code}` with limit `"s-e"` calls the service once, with the code upper-cased and `(s, e)` |
| Handlers.WrongPieceCountExamples | handlers/handlers.go:102-105 | `"2000"`, `"2000-2005-2010"` and `"-5-10"` are rejected |
| Handlers.NonNumeralExamples | handlers/handlers.go:107-110 | `"abc"`, `"20 0-2005"` and `"2005-"` are rejected |
| Handlers.BackwardsExample | handlers/handlers.go:109-110 | `"2005-2000"` is rejected |
| Handlers.EqualBoundsExample | handlers/handlers.go:109-113 | `"2005-2005"` is accepted as `(2005, 2005)` |
| Handlers.NotFoundExample | handlers/handlers.go:118-119 | a message ending in "404 Not Found" maps to 404 |
| Handlers.ServerErrorExamples | handlers/handlers.go:120-121 | "404 not found" (lower case) and "timeout" map to 500 |

## Left out

- `services.GetPopulationData` is not part of this model. Its year filtering, its mean
  computation and its ISO-2 to ISO-3 lookup are defined in no file here. The handler takes
  the service as a function parameter.
- Writing the response is I/O and is left out: headers, `json.NewEncoder`,
  `sendPopulationResponse` and the status line. A response is modelled as a status plus a
  body.
- `http.Error` appends a newline to the body. The model's text body leaves that newline out.
- Reading `limit` from the URL query is not modelled. That covers percent-decoding and
  taking the first of several values. `Query().Get` also turns a literal `+` into a space,
  so `?limit=+2000-2005` reaches `Atoi` as `" 2000"` and is rejected; the `+` sign the
  model accepts only arrives when the client writes it as `%2B`. The model starts from the
  string `Query().Get` returns.
- `InfoHandler` is not modelled. It only trims the path and passes it to two upstream calls.
- `StatusHandler` and its uptime are not modelled. The uptime reads the wall clock and is a
  float, and both API checks are stubs that return "OK".
- `services/services.go` is not modelled. It is network calls and JSON decoding.
  `FetchPopulationData` refers to types that do not exist.
- `config/urls.go` and `main/main.go` are not modelled. They hold only constants and
  server start-up.
- Strings.ToUpper: only ASCII letters are mapped. Go upper-cases every Unicode letter, and
  that mapping is not modelled.
- Strconv.Atoi: returns only whether parsing succeeded. Go's `NumError` also reports which
  error it was (syntax or range), and the handler ignores that.
- Go's `int` is taken to be 64 bits wide. On a 32-bit platform `Atoi` would accept a
  narrower range.
