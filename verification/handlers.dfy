/**
 The request-validation front of the population endpoint
 `GET /countryinfo/v1/population/{code}?limit={start}-{end}`: extracting the
 country code from the path, parsing the optional year range, deciding
 between a 400 response and a call to the population service, and mapping a
 service failure to 404 or 500.

 The population service itself lives outside this model; the handler takes
 it as a function parameter and its outcome records every call it makes.
 */
module Handlers {
  import opened Wrappers
  import opened Strings
  import opened Strconv
  import opened Models

  const StatusOK: int := 200
  const StatusBadRequest: int := 400
  const StatusNotFound: int := 404
  const StatusInternalServerError: int := 500

  /** Error text of every rejected `limit` value. */
  const RangeFormatError: string := "invalid year range format"

  /** Marker a service error message must carry to be reported as 404. */
  const NotFoundMarker: string := "404 Not Found"

  /** Prefix of every 400 response body. */
  const BadRequestPrefix: string := "400 Bad Request: "

  /** Body of the 400 response for a path without a country code. */
  const NoCodeMessage: string :=
    BadRequestPrefix + "No ISO code specified. \n"
    + "Example usage: .../countryinfo/population/no if you want to see the population for Norway. \n"
    + "You can also optionally add for example ?limit=2000-2005 "
    + "if you only want the data for a specific year gap."

  /**
   Go's `(startYear, endYear, err)` triple. `-1` on both sides with no error
   means "no range given"; every error return also carries `-1, -1`.
   */
  datatype YearRange = YearRange(start: int, end: int, err: Option<string>)

  const Unbounded: YearRange := YearRange(-1, -1, None)
  const Malformed: YearRange := YearRange(-1, -1, Some(RangeFormatError))

  /**
   `extractCountryCode`: the fifth `/`-separated segment of the path,
   upper-cased, or `""` when there is no such segment or it is empty.
   */
  function ExtractCountryCode(path: string): (code: string)
    ensures '/' !in code
    ensures forall i :: 0 <= i < |code| ==> !IsLowerAscii(code[i])
    ensures CountChar(path, '/') < 4 ==> code == ""
  {
    var parts := Split(path, '/');
    if |parts| >= 5 && parts[4] != "" then
      SepFreeAt(parts, '/');
      ToUpper(parts[4])
    else ""
  }

  /**
   `extractYearRange`: an empty value is the unbounded range; otherwise the
   value must split on `-` into exactly two Atoi-valid pieces with
   start <= end.
   */
  function ExtractYearRange(limit: string): (r: YearRange)
    ensures limit == "" ==> r == Unbounded
    ensures r.err.Some? ==> r == Malformed
    ensures limit != "" && CountChar(limit, '-') != 1 ==> r == Malformed
    ensures r.err.None? ==> r.start <= r.end && InInt64(r.start) && InInt64(r.end)
    ensures r.err.None? && limit != "" ==> 0 <= r.start
  {
    if limit == "" then Unbounded
    else
      var years := Split(limit, '-');
      if |years| != 2 then Malformed
      else
        var startYear := Atoi(years[0]);
        var endYear := Atoi(years[1]);
        if startYear.None? || endYear.None? || startYear.value > endYear.value then Malformed
        else YearRange(startYear.value, endYear.value, None)
  }

  /** What `PopulationHandler` does before any service call: reject, or go on with the parsed inputs. */
  datatype Decision = BadRequest(message: string) | Proceed(code: string, start: int, end: int)

  /** The early-return sequence of `PopulationHandler`: the code is checked first, the range second. */
  function DecidePopulation(path: string, limit: string): (d: Decision)
    ensures d.BadRequest? ==> |BadRequestPrefix| <= |d.message| && d.message[..|BadRequestPrefix|] == BadRequestPrefix
    ensures d.Proceed? ==> d.code != "" && '/' !in d.code && d.start <= d.end
    ensures d.Proceed? ==> forall i :: 0 <= i < |d.code| ==> !IsLowerAscii(d.code[i])
  {
    var code := ExtractCountryCode(path);
    if code == "" then BadRequest(NoCodeMessage)
    else
      var range := ExtractYearRange(limit);
      if range.err.Some? then BadRequest(BadRequestPrefix + range.err.value)
      else Proceed(code, range.start, range.end)
  }

  /** What reaches the client: an HTTP status and either plain text or the JSON population body. */
  datatype Body = Text(text: string) | Json(data: PopulationResponse)
  datatype Response = Response(status: int, body: Body)

  /** One call of the population service with the arguments it received. */
  datatype ServiceCall = ServiceCall(code: string, start: int, end: int)

  /** The response together with every service call made while producing it. */
  datatype Outcome = Outcome(response: Response, calls: seq<ServiceCall>)

  /** `services.GetPopulationData(code, startYear, endYear)`: a response or an error message. */
  type PopulationService = (string, int, int) -> Result<PopulationResponse, string>

  /** `handlePopulationError`: 404 exactly when the error text mentions "404 Not Found", 500 otherwise. */
  function HandlePopulationError(message: string): (resp: Response)
    ensures resp.body == Text(message)
    ensures resp.status == StatusNotFound <==> exists i :: OccursAt(message, NotFoundMarker, i)
    ensures resp.status == StatusNotFound || resp.status == StatusInternalServerError
  {
    if Contains(message, NotFoundMarker) then Response(StatusNotFound, Text(message))
    else Response(StatusInternalServerError, Text(message))
  }

  /** `PopulationHandler`: validate, then call the service at most once and report its result. */
  function PopulationHandler(path: string, limit: string, service: PopulationService): (o: Outcome)
    ensures |o.calls| <= 1
    ensures o.response.status in {StatusOK, StatusBadRequest, StatusNotFound, StatusInternalServerError}
    ensures o.response.status == StatusBadRequest <==> |o.calls| == 0
    ensures |o.calls| == 1 ==> o.calls[0].code == ExtractCountryCode(path) != ""
    ensures |o.calls| == 1 ==>
              o.calls[0].start == ExtractYearRange(limit).start && o.calls[0].end == ExtractYearRange(limit).end
    ensures |o.calls| == 1 && service(o.calls[0].code, o.calls[0].start, o.calls[0].end).Failure? ==>
              o.response == HandlePopulationError(service(o.calls[0].code, o.calls[0].start, o.calls[0].end).error)
    ensures o.response.status == StatusOK <==>
              |o.calls| == 1 && service(o.calls[0].code, o.calls[0].start, o.calls[0].end).Success?
    ensures o.response.status == StatusOK ==>
              o.response.body == Json(service(o.calls[0].code, o.calls[0].start, o.calls[0].end).value)
  {
    match DecidePopulation(path, limit)
    case BadRequest(message) => Outcome(Response(StatusBadRequest, Text(message)), [])
    case Proceed(code, start, end) =>
      var call := [ServiceCall(code, start, end)];
      match service(code, start, end)
      case Failure(message) => Outcome(HandlePopulationError(message), call)
      case Success(data) => Outcome(Response(StatusOK, Json(data)), call)
  }

  // ---------------------------------------------------------------------------
  // Country code

  /** The segments of a path determine the code: its fifth segment, upper-cased, when present and non-empty. */
  lemma CountryCodeOfSegments(segments: seq<string>)
    requires |segments| >= 1 && SepFree(segments, '/')
    ensures ExtractCountryCode(Join(segments, '/')) ==
              if |segments| >= 5 && segments[4] != "" then ToUpper(segments[4]) else ""
  {
    SplitJoin(segments, '/');
  }

  /** The code is empty exactly when the path has fewer than five segments or an empty fifth one. */
  lemma EmptyCountryCode(path: string)
    ensures ExtractCountryCode(path) == "" <==>
              |Split(path, '/')| < 5 || Split(path, '/')[4] == ""
  {
  }

  /** The endpoint's path up to the segment that carries the code. */
  const PopulationPrefix: string := "/countryinfo/v1/population"

  /** Splitting a segment followed by nothing, or by a `/` and more, starts with that segment. */
  lemma FirstSegment(code: string, rest: string)
    requires '/' !in code
    requires rest == "" || rest[0] == '/'
    ensures |Split(code + rest, '/')| >= 1 && Split(code + rest, '/')[0] == code
  {
    SplitSepFree(code, '/');
    if rest == "" {
      assert code + rest == code;
    } else {
      assert code + rest == code + ['/'] + rest[1..];
      SplitAround(code, rest[1..], '/');
    }
  }

  /** Appending `/` and a separator-free segment appends that segment to the split. */
  lemma SplitSnoc(a: string, p: string)
    requires '/' !in p
    ensures Split(a + "/" + p, '/') == Split(a, '/') + [p]
  {
    assert a + "/" + p == a + ['/'] + p;
    SplitAround(a, p, '/');
    SplitSepFree(p, '/');
  }

  /** The leading segments of `/p1/p2/p3`. */
  lemma ThreeSegments(p1: string, p2: string, p3: string)
    requires '/' !in p1 && '/' !in p2 && '/' !in p3
    ensures Split("/" + p1 + "/" + p2 + "/" + p3, '/') == ["", p1, p2, p3]
  {
    assert "/" + p1 == "" + "/" + p1;
    SplitSnoc("", p1);
    SplitSepFree("", '/');
    SplitSnoc("/" + p1, p2);
    SplitSnoc("/" + p1 + "/" + p2, p3);
  }

  /** After a prefix of four segments and a `/`, the fifth segment is `code`. */
  lemma FifthSegment(prefix: string, code: string, rest: string)
    requires |Split(prefix, '/')| == 4
    requires '/' !in code
    requires rest == "" || rest[0] == '/'
    ensures var parts := Split(prefix + ['/'] + (code + rest), '/');
            |parts| >= 5 && parts[4] == code
  {
    SplitAround(prefix, code + rest, '/');
    FirstSegment(code, rest);
  }

  /**
   On a path shaped like the endpoint's own, `/countryinfo/v1/population/{code}`,
   the code is the segment after the third name, upper-cased, whatever
   follows it behind another `/`.
   */
  lemma PopulationPathCode(p1: string, p2: string, p3: string, code: string, rest: string)
    requires '/' !in p1 && '/' !in p2 && '/' !in p3 && '/' !in code
    requires rest == "" || rest[0] == '/'
    ensures ExtractCountryCode("/" + p1 + "/" + p2 + "/" + p3 + "/" + code + rest) == ToUpper(code)
  {
    var prefix := "/" + p1 + "/" + p2 + "/" + p3;
    ThreeSegments(p1, p2, p3);
    FifthSegment(prefix, code, rest);
    assert "/" + p1 + "/" + p2 + "/" + p3 + "/" + code + rest == prefix + ['/'] + (code + rest);
  }

  // ---------------------------------------------------------------------------
  // Year range

  /** Two Atoi-valid pieces in order, joined by one `-`, are accepted as they are. */
  lemma YearRangeAccepts(a: string, b: string)
    requires '-' !in a && '-' !in b
    requires Atoi(a).Some? && Atoi(b).Some? && Atoi(a).value <= Atoi(b).value
    ensures ExtractYearRange(a + "-" + b) == YearRange(Atoi(a).value, Atoi(b).value, None)
  {
    SplitJoin([a, b], '-');
    assert Join([a, b], '-') == a + "-" + b;
  }

  /** Two pieces joined by one `-` are rejected when either fails Atoi or they are out of order. */
  lemma YearRangeRejects(a: string, b: string)
    requires '-' !in a && '-' !in b
    requires Atoi(a).None? || Atoi(b).None? || Atoi(a).value > Atoi(b).value
    ensures ExtractYearRange(a + "-" + b) == Malformed
  {
    SplitJoin([a, b], '-');
    assert Join([a, b], '-') == a + "-" + b;
  }

  /** Every accepted non-empty limit has the shape the two lemmas above describe. */
  lemma YearRangeShape(limit: string)
    requires limit != "" && ExtractYearRange(limit).err.None?
    ensures exists i :: 0 <= i < |limit| && limit[i] == '-' && '-' !in limit[..i] && '-' !in limit[i + 1..]
              && Atoi(limit[..i]) == Some(ExtractYearRange(limit).start)
              && Atoi(limit[i + 1..]) == Some(ExtractYearRange(limit).end)
  {
    var years := Split(limit, '-');
    var a, b := years[0], years[1];
    assert limit == a + ['-'] + b by {
      assert |years| == 2 && years[1..] == [b];
      assert Join(years[1..], '-') == b;
    }
    assert '-' !in a && '-' !in b by {
      SepFreeAt(years, '-');
    }
    var i := |a|;
    assert limit[..i] == a && limit[i + 1..] == b && limit[i] == '-';
  }

  /** Round trip: the decimal numerals of any ordered pair of non-negative 64-bit years parse back to the pair. */
  lemma YearRangeRoundTrip(s: nat, e: nat)
    requires s <= e <= MaxInt64
    ensures ExtractYearRange(Show(s) + "-" + Show(e)) == YearRange(s, e, None)
  {
    AtoiShow(s);
    AtoiShow(e);
    assert forall i :: 0 <= i < |Show(s)| ==> IsDigit(Show(s)[i]);
    assert forall i :: 0 <= i < |Show(e)| ==> IsDigit(Show(e)[i]);
    YearRangeAccepts(Show(s), Show(e));
  }

  /** A successful parse never produces the sentinel for a non-empty limit, and always for the empty one. */
  lemma SentinelOnlyWhenEmpty(limit: string)
    requires ExtractYearRange(limit).err.None?
    ensures limit == "" <==> ExtractYearRange(limit).start == -1
    ensures limit == "" <==> ExtractYearRange(limit).end == -1
  {
  }

  // ---------------------------------------------------------------------------
  // Handler

  /** Without a country code the answer is the same 400, whatever the limit says. */
  lemma CodeCheckedBeforeLimit(path: string, limit1: string, limit2: string)
    requires ExtractCountryCode(path) == ""
    ensures DecidePopulation(path, limit1) == DecidePopulation(path, limit2) == BadRequest(NoCodeMessage)
  {
  }

  /** With a country code, a bad limit is a 400 naming the format error. */
  lemma BadLimitRejected(path: string, limit: string)
    requires ExtractCountryCode(path) != ""
    requires ExtractYearRange(limit).err.Some?
    ensures DecidePopulation(path, limit) == BadRequest(BadRequestPrefix + RangeFormatError)
  {
  }

  /** A rejected request makes no service call, so no service can influence its response. */
  lemma BadRequestMakesNoCall(path: string, limit: string, service1: PopulationService, service2: PopulationService)
    requires DecidePopulation(path, limit).BadRequest?
    ensures PopulationHandler(path, limit, service1) == PopulationHandler(path, limit, service2)
    ensures PopulationHandler(path, limit, service1).calls == []
    ensures PopulationHandler(path, limit, service1).response
              == Response(StatusBadRequest, Text(DecidePopulation(path, limit).message))
  {
  }

  /**
   The service is reached exactly when both checks pass, and then once, with
   the parsed code and years unchanged.
   */
  lemma ServiceGetsParsedInputs(path: string, limit: string, service: PopulationService)
    ensures |PopulationHandler(path, limit, service).calls| == 1 <==>
              ExtractCountryCode(path) != "" && ExtractYearRange(limit).err.None?
    ensures |PopulationHandler(path, limit, service).calls| == 1 ==>
              PopulationHandler(path, limit, service).calls[0] ==
                ServiceCall(ExtractCountryCode(path), ExtractYearRange(limit).start, ExtractYearRange(limit).end)
  {
  }

  /**
   End to end: a well-formed request for a country reaches the service once,
   with the code upper-cased and the years as written, and nothing else.
   */
  lemma WellFormedRequest(p1: string, p2: string, p3: string, code: string, s: nat, e: nat,
                          service: PopulationService)
    requires '/' !in p1 && '/' !in p2 && '/' !in p3 && '/' !in code && code != ""
    requires s <= e <= MaxInt64
    ensures PopulationHandler("/" + p1 + "/" + p2 + "/" + p3 + "/" + code, Show(s) + "-" + Show(e), service).calls
              == [ServiceCall(ToUpper(code), s, e)]
  {
    PopulationPathCode(p1, p2, p3, code, "");
    assert "/" + p1 + "/" + p2 + "/" + p3 + "/" + code + "" == "/" + p1 + "/" + p2 + "/" + p3 + "/" + code;
    YearRangeRoundTrip(s, e);
  }

  // ---------------------------------------------------------------------------
  // Examples

  /** Limits without exactly one `-` are turned away, including a leading minus sign. */
  lemma WrongPieceCountExamples()
    ensures ExtractYearRange("2000") == Malformed
    ensures ExtractYearRange("2000-2005-2010") == Malformed
    ensures ExtractYearRange("-5-10") == Malformed
  {
  }

  /** Pieces that are not numerals are turned away. */
  lemma NonNumeralExamples()
    ensures ExtractYearRange("abc") == Malformed
    ensures ExtractYearRange("20 0-2005") == Malformed
    ensures ExtractYearRange("2005-") == Malformed
  {
    assert !AllDigits("20 0") by {
      assert !IsDigit("20 0"[2]);
    }
    YearRangeRejects("20 0", "2005");
    assert "20 0" + "-" + "2005" == "20 0-2005";
    YearRangeRejects("2005", "");
    assert "2005" + "-" + "" == "2005-";
  }

  /** A window given backwards is turned away. */
  lemma BackwardsExample()
    ensures ExtractYearRange("2005-2000") == Malformed
  {
    AtoiShow(2005);
    AtoiShow(2000);
    assert Show(2005) == "2005" && Show(2000) == "2000";
    YearRangeRejects("2005", "2000");
    assert "2005" + "-" + "2000" == "2005-2000";
  }

  /** Equal bounds are a valid one-year window. */
  lemma EqualBoundsExample()
    ensures ExtractYearRange("2005-2005") == YearRange(2005, 2005, None)
  {
    AtoiShow(2005);
    assert Show(2005) == "2005";
    YearRangeAccepts("2005", "2005");
    assert "2005" + "-" + "2005" == "2005-2005";
  }

  /** The 404 marker is matched anywhere in the message. */
  lemma NotFoundExample()
    ensures HandlePopulationError("upstream: 404 Not Found").status == StatusNotFound
  {
    assert OccursAt("upstream: 404 Not Found", NotFoundMarker, 10);
  }

  /** The marker is matched case-sensitively; anything else is a server error. */
  lemma ServerErrorExamples()
    ensures HandlePopulationError("404 not found").status == StatusInternalServerError
    ensures HandlePopulationError("timeout").status == StatusInternalServerError
  {
    assert "404 not found"[4] != NotFoundMarker[4];
  }
}
