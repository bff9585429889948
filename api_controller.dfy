/**
 * The REST controller: GET /health and POST /bfhl. A request body is a map
 * from keys to JSON values; exactly one of the five operation keys must be
 * present. The controller checks the key count, type-checks the value of
 * the key, runs the operation, and turns the outcome into a response: a
 * status code and a body map, either the success envelope
 * {is_success: true, official_email, data} or the error envelope
 * {is_success: false, official_email, error}.
 *
 * The official e-mail address is a parameter fixed at start-up. The AI
 * collaborator is a parameter too: a function from the question to the
 * answer it returns or the exception it throws.
 */
module ApiController {
  import opened Failures
  import opened JavaInts
  import opened JavaStrings
  import opened Json
  import MathOperations

  const VALID_KEYS: set<string> := {"fibonacci", "prime", "lcm", "hcf", "AI"}

  const OK := 200
  const BAD_REQUEST := 400
  const INTERNAL_SERVER_ERROR := 500
  const SERVICE_UNAVAILABLE := 503

  const NO_KEY := "No valid operation key provided. Expected one of: fibonacci, prime, lcm, hcf, AI"
  const MULTIPLE_KEYS := "Multiple operation keys provided. Only one key is allowed per request"
  const FIBONACCI_NOT_NUMBER := "Fibonacci input must be a number"
  const PRIME_NOT_ARRAY := "Prime input must be an array"
  const LCM_NOT_ARRAY := "LCM input must be an array"
  const HCF_NOT_ARRAY := "HCF input must be an array"
  const AI_NOT_STRING := "AI input must be a string"
  const INTERNAL_ERROR := "Internal server error"

  /**
   * The ClassCastException that Number::intValue or Number::longValue raises
   * in the service when a list element is not a Number. Its
   * JVM message names the two classes; what matters here is only that it
   * does not contain "unavailable".
   */
  const CAST_FAILURE := OtherException("cannot be cast to Number")

  /** The exceptions the AI collaborator is known to throw. */
  const BLANK_QUESTION := IllegalArgument("Question must be a non-empty string")
  const KEY_NOT_CONFIGURED := OtherException("GEMINI_API_KEY not configured")
  const AI_UNAVAILABLE := OtherException("AI service unavailable")

  /** An HTTP response: the status code and the body map. */
  datatype Response = Response(status: int, body: map<string, Json>)

  /** The body of a success response, with or without a data field. */
  predicate SuccessBody(officialEmail: string, body: map<string, Json>, withData: bool)
  {
    && body.Keys == (if withData then {"is_success", "official_email", "data"}
                     else {"is_success", "official_email"})
    && body["is_success"] == JBool(true)
    && body["official_email"] == JString(officialEmail)
  }

  /** The body of an error response. */
  predicate ErrorBody(officialEmail: string, body: map<string, Json>)
  {
    && body.Keys == {"is_success", "official_email", "error"}
    && body["is_success"] == JBool(false)
    && body["official_email"] == JString(officialEmail)
    && body["error"].JString?
  }

  /**
   * The uniform response shape of /bfhl: status 200 carries the success
   * envelope with data; every other status is 400, 500 or 503 and carries
   * the error envelope.
   */
  predicate IsEnvelope(officialEmail: string, r: Response)
  {
    if r.status == OK then SuccessBody(officialEmail, r.body, true)
    else
      && (r.status == BAD_REQUEST || r.status == INTERNAL_SERVER_ERROR || r.status == SERVICE_UNAVAILABLE)
      && ErrorBody(officialEmail, r.body)
  }

  /** health: always 200 with is_success true and the e-mail address, and no data. */
  function Health(officialEmail: string): (r: Response)
    ensures r.status == OK && SuccessBody(officialEmail, r.body, false)
  {
    Response(OK, map["is_success" := JBool(true), "official_email" := JString(officialEmail)])
  }

  /** createErrorResponse. */
  function ErrorResponse(officialEmail: string, message: string, status: int): (r: Response)
    ensures r.status == status && ErrorBody(officialEmail, r.body)
    ensures r.body["error"] == JString(message)
  {
    Response(status, map["is_success" := JBool(false),
                         "official_email" := JString(officialEmail),
                         "error" := JString(message)])
  }

  function SuccessResponse(officialEmail: string, data: Json): (r: Response)
    ensures r.status == OK && SuccessBody(officialEmail, r.body, true)
    ensures r.body["data"] == data
  {
    Response(OK, map["is_success" := JBool(true),
                     "official_email" := JString(officialEmail),
                     "data" := data])
  }

  /**
   * The two catch blocks of bfhl: an IllegalArgumentException gives 400 with
   * its own message; any other exception gives 503 with its message when
   * that mentions "unavailable", and 500 "Internal server error" otherwise.
   */
  function FailureResponse(officialEmail: string, f: Failure): (r: Response)
    ensures r.status != OK && IsEnvelope(officialEmail, r)
  {
    match f
    case IllegalArgument(message) => ErrorResponse(officialEmail, message, BAD_REQUEST)
    case OtherException(message) =>
      if ContainsSubstring(message, "unavailable") then
        ErrorResponse(officialEmail, message, SERVICE_UNAVAILABLE)
      else
        ErrorResponse(officialEmail, INTERNAL_ERROR, INTERNAL_SERVER_ERROR)
  }

  /** The response for an operation's outcome. */
  function OutcomeResponse(officialEmail: string, outcome: Result<Json>): (r: Response)
    ensures IsEnvelope(officialEmail, r)
    ensures r.status == OK <==> outcome.Ok?
    ensures outcome.Ok? ==> r.body["data"] == outcome.value
  {
    match outcome
    case Ok(data) => SuccessResponse(officialEmail, data)
    case Thrown(f) => FailureResponse(officialEmail, f)
  }

  /** How many of the five operation keys the request holds. */
  function KeyCount(request: map<string, Json>): (c: nat)
    ensures c <= |VALID_KEYS|
    ensures c == 0 <==> forall k :: k in VALID_KEYS ==> k !in request
  {
    var present := request.Keys * VALID_KEYS;
    assert VALID_KEYS == present + (VALID_KEYS - present);
    assert present == {} <==> forall k :: k in VALID_KEYS ==> k !in request;
    |present|
  }

  // The operations as the controller invokes them, their results as JSON.

  function RunFibonacci(count: int): (r: Result<Json>)
    ensures r.Ok? <==> Int32(count) >= 0
    ensures r.Thrown? ==> r.failure == IllegalArgument(MathOperations.NEGATIVE_COUNT)
    ensures r.Ok? ==> r.value.JArray? && |r.value.items| == Int32(count)
  {
    match MathOperations.Fibonacci(Int32(count))
    case Ok(terms) => Ok(NumberArray(terms))
    case Thrown(f) => Thrown(f)
  }

  function RunPrime(items: seq<Json>): (r: Result<Json>)
    ensures r.Ok? <==> forall i :: 0 <= i < |items| ==> items[i].JNumber?
    ensures r.Thrown? ==> r.failure == CAST_FAILURE
    ensures r.Ok? ==> r.value.JArray? && |r.value.items| <= |items|
  {
    match Numbers(items)
    case None => Thrown(CAST_FAILURE)
    case Some(xs) =>
      match MathOperations.FilterPrimes(Some(xs))
      case Ok(primes) => Ok(NumberArray(primes))
      case Thrown(f) => Thrown(f)
  }

  /**
   * calculateLCM and calculateHCF check for an empty list before the
   * elements are cast, so an empty list is reported as such.
   */
  function RunLcm(items: seq<Json>): (r: Result<Json>)
    ensures items == [] ==> r == Thrown(IllegalArgument(MathOperations.EMPTY_ARRAY))
    ensures items != [] && (exists i :: 0 <= i < |items| && !items[i].JNumber?) ==> r == Thrown(CAST_FAILURE)
    ensures r.Ok? ==> r.value.JNumber? && r.value.n > 0
  {
    if items == [] then Thrown(IllegalArgument(MathOperations.EMPTY_ARRAY))
    else
      match Numbers(items)
      case None => Thrown(CAST_FAILURE)
      case Some(xs) =>
        match MathOperations.CalculateLcm(Some(xs))
        case Ok(l) => Ok(JNumber(l))
        case Thrown(f) => Thrown(f)
  }

  function RunHcf(items: seq<Json>): (r: Result<Json>)
    ensures items == [] ==> r == Thrown(IllegalArgument(MathOperations.EMPTY_ARRAY))
    ensures items != [] && (exists i :: 0 <= i < |items| && !items[i].JNumber?) ==> r == Thrown(CAST_FAILURE)
    ensures r.Ok? ==> r.value.JNumber? && r.value.n > 0
  {
    if items == [] then Thrown(IllegalArgument(MathOperations.EMPTY_ARRAY))
    else
      match Numbers(items)
      case None => Thrown(CAST_FAILURE)
      case Some(xs) =>
        match MathOperations.CalculateHcf(Some(xs))
        case Ok(h) => Ok(JNumber(h))
        case Thrown(f) => Thrown(f)
  }

  function RunAI(question: string, queryAI: string -> Result<string>): (r: Result<Json>)
    ensures r.Ok? <==> queryAI(question).Ok?
    ensures r.Ok? ==> r.value == JString(queryAI(question).value)
    ensures r.Thrown? ==> r.failure == queryAI(question).failure
  {
    match queryAI(question)
    case Ok(answer) => Ok(JString(answer))
    case Thrown(f) => Thrown(f)
  }

  /**
   * bfhl: the key count first, then the chain of key tests in the order
   * fibonacci, prime, lcm, hcf, AI, each type-checking its value before the
   * operation runs.
   */
  function Bfhl(officialEmail: string, request: map<string, Json>, queryAI: string -> Result<string>): (r: Response)
    ensures IsEnvelope(officialEmail, r)
  {
    var keyCount := KeyCount(request);
    if keyCount == 0 then ErrorResponse(officialEmail, NO_KEY, BAD_REQUEST)
    else if keyCount > 1 then ErrorResponse(officialEmail, MULTIPLE_KEYS, BAD_REQUEST)
    else if "fibonacci" in request then
      match request["fibonacci"]
      case JNumber(count) => OutcomeResponse(officialEmail, RunFibonacci(count))
      case _ => ErrorResponse(officialEmail, FIBONACCI_NOT_NUMBER, BAD_REQUEST)
    else if "prime" in request then
      match request["prime"]
      case JArray(items) => OutcomeResponse(officialEmail, RunPrime(items))
      case _ => ErrorResponse(officialEmail, PRIME_NOT_ARRAY, BAD_REQUEST)
    else if "lcm" in request then
      match request["lcm"]
      case JArray(items) => OutcomeResponse(officialEmail, RunLcm(items))
      case _ => ErrorResponse(officialEmail, LCM_NOT_ARRAY, BAD_REQUEST)
    else if "hcf" in request then
      match request["hcf"]
      case JArray(items) => OutcomeResponse(officialEmail, RunHcf(items))
      case _ => ErrorResponse(officialEmail, HCF_NOT_ARRAY, BAD_REQUEST)
    else if "AI" in request then
      match request["AI"]
      case JString(question) => OutcomeResponse(officialEmail, RunAI(question, queryAI))
      case _ => ErrorResponse(officialEmail, AI_NOT_STRING, BAD_REQUEST)
    else
      // Unreachable with exactly one operation key; as in the source, data stays null.
      SuccessResponse(officialEmail, JNull)
  }
}

/**
 * Properties of the controller: the key rules, an order-free description of
 * the dispatch, the status each kind of failure gets, and the outcomes of
 * typical requests.
 */
module ApiControllerProperties {
  import opened Failures
  import opened JavaInts
  import opened JavaStrings
  import opened Json
  import opened ApiController
  import MathOperations

  /**
   * The operation a key names, run on its value, with a value of the wrong
   * JSON type reported as the IllegalArgumentException that message would be.
   * It does not depend on the order in which bfhl tests the keys.
   */
  function Operation(key: string, value: Json, queryAI: string -> Result<string>): (r: Result<Json>)
    requires key in VALID_KEYS
    ensures !WellTyped(key, value) ==> r == Thrown(IllegalArgument(TypeMessage(key)))
    ensures r.Ok? ==> WellTyped(key, value)
  {
    if key == "fibonacci" then
      (if value.JNumber? then RunFibonacci(value.n) else Thrown(IllegalArgument(FIBONACCI_NOT_NUMBER)))
    else if key == "prime" then
      (if value.JArray? then RunPrime(value.items) else Thrown(IllegalArgument(PRIME_NOT_ARRAY)))
    else if key == "lcm" then
      (if value.JArray? then RunLcm(value.items) else Thrown(IllegalArgument(LCM_NOT_ARRAY)))
    else if key == "hcf" then
      (if value.JArray? then RunHcf(value.items) else Thrown(IllegalArgument(HCF_NOT_ARRAY)))
    else
      (if value.JString? then RunAI(value.s, queryAI) else Thrown(IllegalArgument(AI_NOT_STRING)))
  }

  /** The message of the 400 response to a value of the wrong JSON type, per key. */
  function TypeMessage(key: string): string
  {
    if key == "fibonacci" then FIBONACCI_NOT_NUMBER
    else if key == "prime" then PRIME_NOT_ARRAY
    else if key == "lcm" then LCM_NOT_ARRAY
    else if key == "hcf" then HCF_NOT_ARRAY
    else AI_NOT_STRING
  }

  /** The JSON type each key's value must have: a number, an array or a string. */
  predicate WellTyped(key: string, value: Json)
  {
    if key == "fibonacci" then value.JNumber?
    else if key == "AI" then value.JString?
    else value.JArray?
  }

  /**
   * The mapping of the catch blocks for every failure: 400 exactly for an
   * IllegalArgumentException, 503 exactly for another exception whose
   * message contains "unavailable", and 500 otherwise; the 400 and 503
   * responses carry the exception's message, the 500 one "Internal server
   * error".
   */
  lemma FailureMapping(officialEmail: string, f: Failure)
    ensures var r := FailureResponse(officialEmail, f);
      && (r.status == BAD_REQUEST <==> f.IllegalArgument?)
      && (r.status == SERVICE_UNAVAILABLE <==>
            f.OtherException? && exists i :: 0 <= i <= |f.message| && "unavailable" <= f.message[i..])
      && (r.status == INTERNAL_SERVER_ERROR <==>
            f.OtherException? && !exists i :: 0 <= i <= |f.message| && "unavailable" <= f.message[i..])
      && (r.status != INTERNAL_SERVER_ERROR ==> r.body["error"] == JString(f.message))
      && (r.status == INTERNAL_SERVER_ERROR ==> r.body["error"] == JString(INTERNAL_ERROR))
  {
    ContainsSubstringAt(f.message, "unavailable");
  }

  /** Without any of the five keys the request is refused with 400. */
  lemma NoKeyRefused(officialEmail: string, request: map<string, Json>, queryAI: string -> Result<string>)
    requires forall k :: k in VALID_KEYS ==> k !in request
    ensures Bfhl(officialEmail, request, queryAI) == ErrorResponse(officialEmail, NO_KEY, BAD_REQUEST)
  {
    assert request.Keys * VALID_KEYS == {};
  }

  /** Two different operation keys are refused with 400, whatever the AI would answer. */
  lemma MultipleKeysRefused(officialEmail: string, request: map<string, Json>, queryAI: string -> Result<string>,
                            k1: string, k2: string)
    requires k1 in VALID_KEYS && k2 in VALID_KEYS && k1 != k2
    requires k1 in request && k2 in request
    ensures Bfhl(officialEmail, request, queryAI) == ErrorResponse(officialEmail, MULTIPLE_KEYS, BAD_REQUEST)
  {
    var present := request.Keys * VALID_KEYS;
    var rest := present - {k1, k2};
    assert present == rest + {k1, k2};
    assert rest * {k1, k2} == {};
    assert |{k1, k2}| == 2;
  }

  /**
   * With exactly one operation key the response is the outcome of that
   * operation on its value; a value of the wrong type is the 400 response of
   * the matching IllegalArgumentException.
   */
  lemma SingleKeyDispatch(officialEmail: string, request: map<string, Json>, queryAI: string -> Result<string>,
                          key: string)
    requires key in VALID_KEYS && request.Keys * VALID_KEYS == {key}
    ensures Bfhl(officialEmail, request, queryAI) ==
      OutcomeResponse(officialEmail, Operation(key, request[key], queryAI))
  {
    assert key in request;
    forall k | k in VALID_KEYS && k != key
      ensures k !in request
    {
      assert k !in request.Keys * VALID_KEYS;
    }
  }

  /**
   * With exactly one operation key, a value of the wrong JSON type is a 400
   * carrying that key's own message.
   */
  lemma WrongTypeRefused(officialEmail: string, request: map<string, Json>, queryAI: string -> Result<string>,
                         key: string)
    requires key in VALID_KEYS && request.Keys * VALID_KEYS == {key}
    requires key in request && !WellTyped(key, request[key])
    ensures Bfhl(officialEmail, request, queryAI) == ErrorResponse(officialEmail, TypeMessage(key), BAD_REQUEST)
  {
    SingleKeyDispatch(officialEmail, request, queryAI, key);
  }

  /** Keys other than the five operation keys play no part in the response. */
  lemma UnrecognisedKeysIgnored(officialEmail: string, request: map<string, Json>, queryAI: string -> Result<string>,
                                key: string, value: Json)
    requires key !in VALID_KEYS
    ensures Bfhl(officialEmail, request[key := value], queryAI) == Bfhl(officialEmail, request, queryAI)
  {
    var extended := request[key := value];
    var present := request.Keys * VALID_KEYS;
    assert extended.Keys * VALID_KEYS == present;
    if |present| == 1 {
      var k :| k in present;
      assert present == {k} by {
        var rest := present - {k};
        assert present == rest + {k};
      }
      SingleKeyDispatch(officialEmail, request, queryAI, k);
      SingleKeyDispatch(officialEmail, extended, queryAI, k);
      assert extended[k] == request[k];
    } else {
      assert KeyCount(extended) == KeyCount(request);
    }
  }

  /**
   * A request succeeds exactly when it holds one operation key and that
   * operation succeeds, and then data is the operation's result.
   */
  lemma SuccessExactly(officialEmail: string, request: map<string, Json>, queryAI: string -> Result<string>)
    ensures Bfhl(officialEmail, request, queryAI).status == OK <==>
      exists key :: key in VALID_KEYS && request.Keys * VALID_KEYS == {key} &&
        Operation(key, request[key], queryAI).Ok?
    ensures forall key ::
      (key in VALID_KEYS && request.Keys * VALID_KEYS == {key} && Operation(key, request[key], queryAI).Ok?) ==>
      Bfhl(officialEmail, request, queryAI).body["data"] == Operation(key, request[key], queryAI).value
  {
    var r := Bfhl(officialEmail, request, queryAI);
    var present := request.Keys * VALID_KEYS;
    if |present| == 1 {
      var key :| key in present;
      assert present == {key} by {
        var rest := present - {key};
        assert present == rest + {key};
      }
      SingleKeyDispatch(officialEmail, request, queryAI, key);
    } else if |present| == 0 {
      assert forall key :: present != {key};
    } else {
      assert forall key :: present != {key};
    }
    forall key | key in VALID_KEYS && present == {key} && Operation(key, request[key], queryAI).Ok?
      ensures r.body["data"] == Operation(key, request[key], queryAI).value
    {
      SingleKeyDispatch(officialEmail, request, queryAI, key);
    }
  }

  /** A list of numbers reads back as those numbers. */
  lemma NumbersOfNumberArray(xs: seq<int>)
    ensures Numbers(NumberArray(xs).items) == Some(xs)
  {
    var r := Numbers(NumberArray(xs).items);
    assert r.Some?;
    assert |r.value| == |NumberArray(r.value).items| == |xs|;
    forall i | 0 <= i < |xs|
      ensures r.value[i] == xs[i]
    {
      assert NumberArray(r.value).items[i] == NumberArray(xs).items[i];
    }
    assert r.value == xs;
  }

  /**
   * fibonacci: the count is narrowed with intValue; a negative count is the
   * service's 400 error, otherwise data is the list of that many terms.
   */
  lemma FibonacciRequest(count: int, queryAI: string -> Result<string>)
    ensures Int32(count) < 0 ==>
      Operation("fibonacci", JNumber(count), queryAI) == Thrown(IllegalArgument(MathOperations.NEGATIVE_COUNT))
    ensures Int32(count) >= 0 ==>
      Operation("fibonacci", JNumber(count), queryAI) ==
        Ok(NumberArray(MathOperations.Fibonacci(Int32(count)).value))
    ensures 0 <= count < TWO_31 ==> Int32(count) == count
  {
    MathOperations.FibonacciShape(Int32(count));
    if 0 <= count < TWO_31 {
      Int32InRange(count);
    }
  }

  /** prime: a list of numbers gives the primes the service keeps, as a list. */
  lemma PrimeRequest(xs: seq<int>, queryAI: string -> Result<string>)
    ensures MathOperations.FilterPrimes(Some(xs)).Ok?
    ensures Operation("prime", NumberArray(xs), queryAI) ==
      Ok(NumberArray(MathOperations.FilterPrimes(Some(xs)).value))
  {
    NumbersOfNumberArray(xs);
  }

  /**
   * lcm and hcf: an empty list is the service's 400 "non-empty" error, a
   * list holding a non-positive `long` its 400 "positive" error, and
   * otherwise data is the least common multiple, or the greatest common
   * divisor, of the `long` values.
   */
  lemma LcmRequest(xs: seq<int>, queryAI: string -> Result<string>)
    ensures xs == [] ==>
      Operation("lcm", NumberArray(xs), queryAI) == Thrown(IllegalArgument(MathOperations.EMPTY_ARRAY))
    ensures xs != [] && !MathOperations.AllPositive(MathOperations.Int64s(xs)) ==>
      Operation("lcm", NumberArray(xs), queryAI) == Thrown(IllegalArgument(MathOperations.NOT_POSITIVE))
    ensures xs != [] && MathOperations.AllPositive(MathOperations.Int64s(xs)) ==>
      var r := Operation("lcm", NumberArray(xs), queryAI);
      r.Ok? && r.value.JNumber? && MathOperations.IsLeastCommonMultiple(MathOperations.Int64s(xs), r.value.n)
  {
    NumbersOfNumberArray(xs);
    MathOperations.CalculateLcmCorrect(Some(xs));
  }

  lemma HcfRequest(xs: seq<int>, queryAI: string -> Result<string>)
    ensures xs == [] ==>
      Operation("hcf", NumberArray(xs), queryAI) == Thrown(IllegalArgument(MathOperations.EMPTY_ARRAY))
    ensures xs != [] && !MathOperations.AllPositive(MathOperations.Int64s(xs)) ==>
      Operation("hcf", NumberArray(xs), queryAI) == Thrown(IllegalArgument(MathOperations.NOT_POSITIVE))
    ensures xs != [] && MathOperations.AllPositive(MathOperations.Int64s(xs)) ==>
      var r := Operation("hcf", NumberArray(xs), queryAI);
      r.Ok? && r.value.JNumber? && MathOperations.IsGreatestCommonDivisor(MathOperations.Int64s(xs), r.value.n)
  {
    NumbersOfNumberArray(xs);
    MathOperations.CalculateHcfCorrect(Some(xs));
  }

  /** The collaborator's blank-question error is a 400 with its message. */
  lemma BlankQuestionStatus(officialEmail: string)
    ensures FailureResponse(officialEmail, BLANK_QUESTION) ==
      ErrorResponse(officialEmail, "Question must be a non-empty string", BAD_REQUEST)
  {
  }

  /** A missing API key is a 500 "Internal server error": its message lacks "unavailable". */
  lemma KeyNotConfiguredStatus(officialEmail: string)
    ensures FailureResponse(officialEmail, KEY_NOT_CONFIGURED) ==
      ErrorResponse(officialEmail, INTERNAL_ERROR, INTERNAL_SERVER_ERROR)
  {
    assert !ContainsSubstring(KEY_NOT_CONFIGURED.message, "unavailable") by {
      MissingCharacter(KEY_NOT_CONFIGURED.message, "unavailable", 3);
    }
  }

  /** A failed cast is a 500 "Internal server error". */
  lemma CastFailureStatus(officialEmail: string)
    ensures FailureResponse(officialEmail, CAST_FAILURE) ==
      ErrorResponse(officialEmail, INTERNAL_ERROR, INTERNAL_SERVER_ERROR)
  {
    assert !ContainsSubstring(CAST_FAILURE.message, "unavailable") by {
      MissingCharacter(CAST_FAILURE.message, "unavailable", 5);
    }
  }

  /** An unavailable AI service is a 503 with its message. */
  lemma UnavailableStatus(officialEmail: string)
    ensures FailureResponse(officialEmail, AI_UNAVAILABLE) ==
      ErrorResponse(officialEmail, "AI service unavailable", SERVICE_UNAVAILABLE)
  {
    assert ContainsSubstring(AI_UNAVAILABLE.message, "unavailable") by {
      assert AI_UNAVAILABLE.message == "AI service " + "unavailable" + "";
      ContainsInfix("AI service ", "unavailable", "");
    }
  }

  /**
   * A non-empty list with an element that is not a number makes the cast to
   * Number fail, and the request ends in 500 "Internal server error".
   */
  lemma NonNumberElement(officialEmail: string, key: string, items: seq<Json>, queryAI: string -> Result<string>, i: int)
    requires key == "prime" || key == "lcm" || key == "hcf"
    requires 0 <= i < |items| && !items[i].JNumber?
    ensures OutcomeResponse(officialEmail, Operation(key, JArray(items), queryAI)) ==
      ErrorResponse(officialEmail, INTERNAL_ERROR, INTERNAL_SERVER_ERROR)
  {
    assert Operation(key, JArray(items), queryAI) == Thrown(CAST_FAILURE) by {
      if key == "prime" {
        assert RunPrime(items) == Thrown(CAST_FAILURE);
      } else if key == "lcm" {
        assert RunLcm(items) == Thrown(CAST_FAILURE);
      } else {
        assert RunHcf(items) == Thrown(CAST_FAILURE);
      }
    }
    CastFailureStatus(officialEmail);
  }

  /**
   * AI: the answer becomes data, and a failure of the collaborator becomes
   * the response for that failure.
   */
  lemma AIRequest(officialEmail: string, question: string, queryAI: string -> Result<string>)
    ensures queryAI(question).Ok? ==>
      Operation("AI", JString(question), queryAI) == Ok(JString(queryAI(question).value))
    ensures queryAI(question).Thrown? ==>
      OutcomeResponse(officialEmail, Operation("AI", JString(question), queryAI)) ==
        FailureResponse(officialEmail, queryAI(question).failure)
  {
  }

  // Requests and the responses they receive.

  lemma FibonacciSevenRequest(officialEmail: string, queryAI: string -> Result<string>)
    ensures Bfhl(officialEmail, map["fibonacci" := JNumber(7)], queryAI) ==
      SuccessResponse(officialEmail, NumberArray([0, 1, 1, 2, 3, 5, 8]))
  {
    var request := map["fibonacci" := JNumber(7)];
    assert request.Keys * VALID_KEYS == {"fibonacci"};
    SingleKeyDispatch(officialEmail, request, queryAI, "fibonacci");
    Int32InRange(7);
    MathOperations.FibonacciOfSeven();
  }

  lemma FibonacciNegativeRequest(officialEmail: string, queryAI: string -> Result<string>)
    ensures Bfhl(officialEmail, map["fibonacci" := JNumber(-5)], queryAI) ==
      ErrorResponse(officialEmail, MathOperations.NEGATIVE_COUNT, BAD_REQUEST)
  {
    var request := map["fibonacci" := JNumber(-5)];
    assert request.Keys * VALID_KEYS == {"fibonacci"};
    SingleKeyDispatch(officialEmail, request, queryAI, "fibonacci");
    Int32InRange(-5);
    MathOperations.FibonacciShape(-5);
  }

  lemma PrimeListRequest(officialEmail: string, queryAI: string -> Result<string>)
    ensures Bfhl(officialEmail, map["prime" := NumberArray([2, 4, 7, 9, 11])], queryAI) ==
      SuccessResponse(officialEmail, NumberArray([2, 7, 11]))
  {
    var request := map["prime" := NumberArray([2, 4, 7, 9, 11])];
    assert request.Keys * VALID_KEYS == {"prime"};
    SingleKeyDispatch(officialEmail, request, queryAI, "prime");
    PrimeRequest([2, 4, 7, 9, 11], queryAI);
    MathOperations.FilterPrimesExample();
  }

  lemma PrimeNotArrayRequest(officialEmail: string, queryAI: string -> Result<string>)
    ensures Bfhl(officialEmail, map["prime" := JString("not an array")], queryAI) ==
      ErrorResponse(officialEmail, PRIME_NOT_ARRAY, BAD_REQUEST)
  {
    var request := map["prime" := JString("not an array")];
    assert request.Keys * VALID_KEYS == {"prime"};
    SingleKeyDispatch(officialEmail, request, queryAI, "prime");
  }

  lemma LcmListRequest(officialEmail: string, queryAI: string -> Result<string>)
    ensures Bfhl(officialEmail, map["lcm" := NumberArray([12, 18, 24])], queryAI) ==
      SuccessResponse(officialEmail, JNumber(72))
  {
    var request := map["lcm" := NumberArray([12, 18, 24])];
    assert request.Keys * VALID_KEYS == {"lcm"};
    SingleKeyDispatch(officialEmail, request, queryAI, "lcm");
    NumbersOfNumberArray([12, 18, 24]);
    MathOperations.LcmExample();
  }

  lemma HcfListRequest(officialEmail: string, queryAI: string -> Result<string>)
    ensures Bfhl(officialEmail, map["hcf" := NumberArray([24, 36, 60])], queryAI) ==
      SuccessResponse(officialEmail, JNumber(12))
  {
    var request := map["hcf" := NumberArray([24, 36, 60])];
    assert request.Keys * VALID_KEYS == {"hcf"};
    SingleKeyDispatch(officialEmail, request, queryAI, "hcf");
    NumbersOfNumberArray([24, 36, 60]);
    MathOperations.HcfExample();
  }

  lemma TwoKeysRequest(officialEmail: string, queryAI: string -> Result<string>)
    ensures Bfhl(officialEmail, map["fibonacci" := JNumber(5), "prime" := NumberArray([1, 2, 3])], queryAI) ==
      ErrorResponse(officialEmail, MULTIPLE_KEYS, BAD_REQUEST)
  {
    MultipleKeysRefused(officialEmail, map["fibonacci" := JNumber(5), "prime" := NumberArray([1, 2, 3])],
                        queryAI, "fibonacci", "prime");
  }
}
