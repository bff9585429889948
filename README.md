# ChitkaraBajaj qualifier service: a verified model

The service is a small Spring Boot REST API. It has two endpoints:

- `GET /health` answers that the service is up.
- `POST /bfhl` takes a JSON object holding exactly one of five operation keys. It runs that operation and answers with a uniform envelope.

The five operations are:

- `fibonacci`: the first *n* Fibonacci numbers.
- `prime`: the primes of a list, in order.
- `lcm` and `hcf`: the least common multiple and the highest common factor of a list of positive integers.
- `AI`: a short answer of a few words to a question from an external AI service.

The model covers the arithmetic service (`MathOperationsService`) and the controller (`ApiController`). Its modules:

- `Failures`: the two kinds of exception the controller distinguishes, and the `Result`/`Option` wrappers.
- `JavaInts`: Java's `intValue`/`longValue` narrowing and `long` wrap-around, written out as two's-complement truncation.
- `Divisibility`: divisibility and the arithmetic facts the proofs need.
- `MathOperations`: the Fibonacci generator, the trial-division primality test and the positivity check of calculateLCM/calculateHCF as methods with loops; the prime filter, Euclid's gcd, lcm and the `reduce` folds as functions. Each comes with lemmas: the Fibonacci recurrence and exactness up to 93 terms, primality, order-preserving filtering, and least/greatest common multiple and divisor.
- `JavaStrings`: `String.contains`.
- `Json`: the JSON values a request carries.
- `ApiController`: `health`, `createErrorResponse` and `bfhl` as pure functions from the request map to a status and a body map.
- `ApiControllerProperties`: the key rules, an order-free description of the dispatch, the status of every failure kind, and the request/response pairs of the project's own tests.

The official e-mail address is a parameter. The AI collaborator is a parameter `queryAI: string -> Result<string>`: for each question it gives the answer or the exception it throws.

## Model

| member | source | states |
|---|---|---|
| MathOperations.Fibonacci | src/main/java/com/chitkara/qualifier/MathOperationsService.java:21-43 | what generateFibonacci returns or throws: it throws IllegalArgument "Input must be a non-negative integer" exactly for a negative count, and otherwise gives n terms, each within the `long` range; the values are stated by FibonacciWrapped and FibonacciRecurrence |
| MathOperations.GenerateFibonacci | src/main/java/com/chitkara/qualifier/MathOperationsService.java:21-43 | a negative count throws IllegalArgument "Input must be a non-negative integer"; otherwise the result is the list of the first n terms 0, 1, … each the wrapping `long` sum of the two before |
| MathOperations.FibLong | src/main/java/com/chitkara/qualifier/MathOperationsService.java:38 | every term fits in a `long` |
| MathOperations.FibLongWrapsFib | src/main/java/com/chitkara/qualifier/MathOperationsService.java:34-40 | term i is the i-th Fibonacci number truncated to 64 bits, so the wrapping loop agrees with the mathematical sequence |
| MathOperations.FibonacciWrapped | src/main/java/com/chitkara/qualifier/MathOperationsService.java:26-42 | for n >= 0 the list has n terms and term i is the i-th Fibonacci number truncated to a `long` |
| MathOperations.FibonacciShape | src/main/java/com/chitkara/qualifier/MathOperationsService.java:22-35 | n < 0 is the error; n >= 0 gives exactly n terms; n = 0 gives [], n = 1 gives [0], n = 2 gives [0, 1] |
| MathOperations.FibonacciExtend | src/main/java/com/chitkara/qualifier/MathOperationsService.java:37-40 | each loop step appends the wrapping `long` sum of the last two terms to the list for one term fewer |
| MathOperations.FibonacciRecurrence | src/main/java/com/chitkara/qualifier/MathOperationsService.java:34-40 | for n >= 2 the list starts 0, 1 and every later term is the wrapping `long` sum of the two before it |
| MathOperations.FibonacciExact | src/main/java/com/chitkara/qualifier/MathOperationsService.java:37-40 | up to 93 terms nothing wraps: term i is exactly the i-th Fibonacci number |
| MathOperations.FibonacciWrapsAt94 | src/main/java/com/chitkara/qualifier/MathOperationsService.java:38 | from 94 terms on, term 93 has wrapped around to -6246583658587674878 |
| MathOperations.FibonacciOfSeven | src/test/java/com/chitkara/qualifier/QualifierApplicationTests.java:62-76 | 7 terms are [0, 1, 1, 2, 3, 5, 8] |
| MathOperations.IsPrime | src/main/java/com/chitkara/qualifier/MathOperationsService.java:64-73 | true exactly when num >= 2 and no d with 2 <= d < num divides num |
| MathOperations.NoDivisorUpToSquareRoot | src/main/java/com/chitkara/qualifier/MathOperationsService.java:69-72 | a number with no divisor in [2, i) where i * i exceeds it has no proper divisor at all, so trial division may stop at the square root |
| MathOperations.OddStep | src/main/java/com/chitkara/qualifier/MathOperationsService.java:67-71 | for an odd number, once an odd candidate i is ruled out so is i + 1, which is why the loop steps by 2 |
| MathOperations.KeepPrimes | src/main/java/com/chitkara/qualifier/MathOperationsService.java:55-58 | the filter keeps no more elements than its input and keeps only primes; KeepPrimesCorrect gives the full characterisation |
| MathOperations.FilterPrimes | src/main/java/com/chitkara/qualifier/MathOperationsService.java:50-59 | it throws IllegalArgument "Input must be an array" exactly for a null list, and otherwise returns at most as many elements as the input, all prime; FilterPrimesCorrect gives order and multiplicity |
| MathOperations.KeepPrimesCorrect | src/main/java/com/chitkara/qualifier/MathOperationsService.java:55-58 | the filter result is a subsequence of its input, and each prime occurs in it as often as in the input while non-primes do not occur |
| MathOperations.FilterPrimesCorrect | src/main/java/com/chitkara/qualifier/MathOperationsService.java:50-59 | null input throws IllegalArgument "Input must be an array"; otherwise the result is the int values that are prime, in input order, every occurrence kept, all at least 2 |
| MathOperations.FilterPrimesExample | src/test/java/com/chitkara/qualifier/QualifierApplicationTests.java:124-138 | [2, 4, 7, 9, 11] filters to [2, 7, 11] |
| MathOperations.Gcd | src/main/java/com/chitkara/qualifier/MathOperationsService.java:137-139 | Euclid's gcd terminates, and is positive exactly when an argument is positive |
| MathOperations.GcdDivides | src/main/java/com/chitkara/qualifier/MathOperationsService.java:137-139 | gcd(a, b) divides a and b |
| MathOperations.GcdGreatest | src/main/java/com/chitkara/qualifier/MathOperationsService.java:137-139 | every common divisor of a and b divides gcd(a, b) and is at most gcd(a, b) |
| MathOperations.Lcm | src/main/java/com/chitkara/qualifier/MathOperationsService.java:104-106 | lcm of two positive numbers is positive |
| MathOperations.LcmCommonMultiple | src/main/java/com/chitkara/qualifier/MathOperationsService.java:104-106 | lcm(a, b) is a multiple of a and of b, and gcd(a, b) * lcm(a, b) == a * b |
| MathOperations.LcmLeast | src/main/java/com/chitkara/qualifier/MathOperationsService.java:104-106 | lcm(a, b) divides every common multiple of a and b |
| MathOperations.ValidatePositive | src/main/java/com/chitkara/qualifier/MathOperationsService.java:89-94 | the validation loop passes exactly when every `long` value is positive (the same loop is at lines 122-127 of calculateHCF) |
| MathOperations.LcmOf | src/main/java/com/chitkara/qualifier/MathOperationsService.java:96-98 | the lcm fold of positive numbers is positive |
| MathOperations.HcfOf | src/main/java/com/chitkara/qualifier/MathOperationsService.java:129-131 | the gcd fold of positive numbers is positive |
| MathOperations.LcmOfIsLeast | src/main/java/com/chitkara/qualifier/MathOperationsService.java:96-106 | the lcm fold is a common multiple of all elements and divides every other common multiple |
| MathOperations.HcfOfIsGreatest | src/main/java/com/chitkara/qualifier/MathOperationsService.java:129-139 | the gcd fold divides all elements, and every common divisor divides it and is at most it |
| MathOperations.CalculateLcm | src/main/java/com/chitkara/qualifier/MathOperationsService.java:80-99 | it succeeds exactly for a non-empty list whose `long` values are all positive, its result is then positive, and every failure is an IllegalArgumentException; CalculateLcmCorrect gives the messages and the least-common-multiple property |
| MathOperations.CalculateHcf | src/main/java/com/chitkara/qualifier/MathOperationsService.java:113-132 | it succeeds exactly for a non-empty list whose `long` values are all positive, its result is then positive, and every failure is an IllegalArgumentException; CalculateHcfCorrect gives the messages and the greatest-common-divisor property |
| MathOperations.CalculateLcmCorrect | src/main/java/com/chitkara/qualifier/MathOperationsService.java:80-99 | null or empty input throws "Input must be a non-empty array"; a non-positive `long` element throws "All elements must be positive integers"; otherwise the result is the least common multiple |
| MathOperations.CalculateHcfCorrect | src/main/java/com/chitkara/qualifier/MathOperationsService.java:113-132 | the same two errors; otherwise the result is the greatest common divisor |
| MathOperations.LcmOfOrderIrrelevant | src/main/java/com/chitkara/qualifier/MathOperationsService.java:96-98 | the lcm depends only on which values occur, not on their order or repetition |
| MathOperations.HcfOfOrderIrrelevant | src/main/java/com/chitkara/qualifier/MathOperationsService.java:129-131 | the hcf depends only on which values occur, not on their order or repetition |
| MathOperations.LcmExample | src/test/java/com/chitkara/qualifier/QualifierApplicationTests.java:172-185 | lcm of [12, 18, 24] is 72 |
| MathOperations.HcfExample | src/test/java/com/chitkara/qualifier/QualifierApplicationTests.java:203-216 | hcf of [24, 36, 60] is 12 |
| JavaInts.Int32 | src/main/java/com/chitkara/qualifier/ApiController.java:78 | intValue yields a 32-bit value |
| JavaInts.Int32InRange | src/main/java/com/chitkara/qualifier/ApiController.java:78 | intValue leaves a value that fits in 32 bits unchanged |
| JavaInts.Int64 | src/main/java/com/chitkara/qualifier/MathOperationsService.java:38 | a `long` result lies in the 64-bit range |
| JavaInts.Int64InRange | src/main/java/com/chitkara/qualifier/MathOperationsService.java:86 | longValue leaves a value that fits in 64 bits unchanged |
| JavaInts.Int64Add | src/main/java/com/chitkara/qualifier/MathOperationsService.java:38 | adding two wrapped `long`s and wrapping gives the wrap of the exact sum |
| JavaStrings.ContainsSubstringAt | src/main/java/com/chitkara/qualifier/ApiController.java:129 | String.contains holds exactly when the pattern starts at some position of the string |
| JavaStrings.MissingCharacter | src/main/java/com/chitkara/qualifier/ApiController.java:129 | a string lacking a character of the pattern does not contain it |
| JavaStrings.ContainsInfix | src/main/java/com/chitkara/qualifier/ApiController.java:129 | a message with "unavailable" inside it contains "unavailable" |
| Json.Numbers | src/main/java/com/chitkara/qualifier/MathOperationsService.java:56 | the list reads as numbers exactly when every element is a number (otherwise `Number::intValue`, or `Number::longValue` at lines 86 and 119, fails on it), and then reads back to the same list |
| ApiController.Health | src/main/java/com/chitkara/qualifier/ApiController.java:35-41 | status 200, is_success true and the e-mail address, and no data field |
| ApiController.ErrorResponse | src/main/java/com/chitkara/qualifier/ApiController.java:138-144 | the given status, and a body of exactly is_success false, the e-mail address and the error message |
| ApiController.SuccessResponse | src/main/java/com/chitkara/qualifier/ApiController.java:117-123 | status 200, and a body of exactly is_success true, the e-mail address and data |
| ApiController.FailureResponse | src/main/java/com/chitkara/qualifier/ApiController.java:125-132 | a failed operation never gets 200; it gets 400, 500 or 503 with the error envelope |
| ApiController.OutcomeResponse | src/main/java/com/chitkara/qualifier/ApiController.java:117-132 | the response is 200 exactly when the operation succeeded, data is then the operation's result, and the response is always a well-formed envelope |
| ApiController.KeyCount | src/main/java/com/chitkara/qualifier/ApiController.java:51-54 | the count of recognised keys is at most five, and it is zero exactly when the request holds none of the five keys |
| ApiController.RunFibonacci | src/main/java/com/chitkara/qualifier/ApiController.java:73-79 | the count is narrowed by intValue; the call succeeds exactly when the narrowed count is non-negative, with a list of that many terms, and otherwise fails with the service's "non-negative" IllegalArgumentException |
| ApiController.RunPrime | src/main/java/com/chitkara/qualifier/ApiController.java:81-88 | the call succeeds exactly when every element is a number, and the result has at most as many elements as the input; otherwise it fails with the ClassCastException |
| ApiController.RunLcm | src/main/java/com/chitkara/qualifier/ApiController.java:90-97 | an empty list fails with "Input must be a non-empty array" before any element is cast, a non-empty list holding a non-number fails with the ClassCastException, and a success is a positive number |
| ApiController.RunHcf | src/main/java/com/chitkara/qualifier/ApiController.java:99-106 | an empty list fails with "Input must be a non-empty array" before any element is cast, a non-empty list holding a non-number fails with the ClassCastException, and a success is a positive number |
| ApiController.RunAI | src/main/java/com/chitkara/qualifier/ApiController.java:108-115 | the call succeeds exactly when the AI collaborator answers, the answer becomes the string data, and otherwise the collaborator's exception is passed on unchanged |
| ApiController.Bfhl | src/main/java/com/chitkara/qualifier/ApiController.java:47-133 | every response is either 200 with the success envelope or 400/500/503 with the error envelope |
| ApiControllerProperties.Operation | src/main/java/com/chitkara/qualifier/ApiController.java:73-115 | the operation a key names, independent of the if-chain's order: a value of the wrong JSON type fails with an IllegalArgumentException carrying the key's own message ("Fibonacci input must be a number", "Prime/LCM/HCF input must be an array", "AI input must be a string"), and a success implies the value had the right type |
| ApiControllerProperties.FailureMapping | src/main/java/com/chitkara/qualifier/ApiController.java:125-132 | for every failure: 400 exactly for an IllegalArgumentException; 503 exactly for another exception whose message contains "unavailable"; 500 exactly for the rest; 400 and 503 carry the exception's message, 500 carries "Internal server error" |
| ApiControllerProperties.NoKeyRefused | src/main/java/com/chitkara/qualifier/ApiController.java:51-61 | a request without any operation key gets 400 "No valid operation key provided…" |
| ApiControllerProperties.MultipleKeysRefused | src/main/java/com/chitkara/qualifier/ApiController.java:51-68 | two different operation keys get 400 "Multiple operation keys provided…", whatever the AI would answer |
| ApiControllerProperties.SingleKeyDispatch | src/main/java/com/chitkara/qualifier/ApiController.java:70-132 | with exactly one operation key, the response is the outcome of that operation on its value; a wrongly typed value is the 400 of its message |
| ApiControllerProperties.WrongTypeRefused | src/main/java/com/chitkara/qualifier/ApiController.java:73-111 | with exactly one operation key whose value has the wrong JSON type, the response is 400 with that key's message |
| ApiControllerProperties.UnrecognisedKeysIgnored | src/main/java/com/chitkara/qualifier/ApiController.java:51-54 | adding a key outside the five never changes the response |
| ApiControllerProperties.SuccessExactly | src/main/java/com/chitkara/qualifier/ApiController.java:47-133 | the response is 200 exactly when there is one operation key and its operation succeeds, and then data is that operation's result |
| ApiControllerProperties.FibonacciRequest | src/main/java/com/chitkara/qualifier/ApiController.java:73-79 | the count is narrowed by intValue; a negative one is the service's 400, otherwise data is the list of that many terms |
| ApiControllerProperties.PrimeRequest | src/main/java/com/chitkara/qualifier/ApiController.java:81-88 | a list of numbers yields the service's filtered primes as data |
| ApiControllerProperties.LcmRequest | src/main/java/com/chitkara/qualifier/ApiController.java:90-97 | an empty list or a non-positive element is the service's 400; otherwise data is the least common multiple |
| ApiControllerProperties.HcfRequest | src/main/java/com/chitkara/qualifier/ApiController.java:99-106 | an empty list or a non-positive element is the service's 400; otherwise data is the greatest common divisor |
| ApiControllerProperties.NonNumberElement | src/main/java/com/chitkara/qualifier/MathOperationsService.java:55-56 | a list element that is not a number makes `Number::intValue` (or `longValue` at lines 85-86 and 118-119) throw a ClassCastException, and the request ends in 500 "Internal server error" |
| ApiControllerProperties.AIRequest | src/main/java/com/chitkara/qualifier/ApiController.java:108-115 | the AI answer becomes data; an AI exception becomes the response for that exception |
| ApiControllerProperties.BlankQuestionStatus | src/main/java/com/chitkara/qualifier/ApiController.java:125-126 | the AI service's blank-question IllegalArgumentException is a 400 with its message |
| ApiControllerProperties.KeyNotConfiguredStatus | src/main/java/com/chitkara/qualifier/ApiController.java:127-131 | "GEMINI_API_KEY not configured" lacks "unavailable", so it is a 500 "Internal server error" |
| ApiControllerProperties.CastFailureStatus | src/main/java/com/chitkara/qualifier/ApiController.java:127-131 | a failed cast is a 500 "Internal server error" |
| ApiControllerProperties.UnavailableStatus | src/main/java/com/chitkara/qualifier/ApiController.java:127-131 | "AI service unavailable" is a 503 carrying that message |
| ApiControllerProperties.FibonacciSevenRequest | src/test/java/com/chitkara/qualifier/QualifierApplicationTests.java:62-76 | {"fibonacci": 7} gets 200 with data [0, 1, 1, 2, 3, 5, 8] |
| ApiControllerProperties.FibonacciNegativeRequest | src/test/java/com/chitkara/qualifier/QualifierApplicationTests.java:107-120 | {"fibonacci": -5} gets 400 "Input must be a non-negative integer" |
| ApiControllerProperties.PrimeListRequest | src/test/java/com/chitkara/qualifier/QualifierApplicationTests.java:124-138 | {"prime": [2, 4, 7, 9, 11]} gets 200 with data [2, 7, 11] |
| ApiControllerProperties.PrimeNotArrayRequest | src/test/java/com/chitkara/qualifier/QualifierApplicationTests.java:264-276 | {"prime": "not an array"} gets 400 "Prime input must be an array" |
| ApiControllerProperties.LcmListRequest | src/test/java/com/chitkara/qualifier/QualifierApplicationTests.java:172-185 | {"lcm": [12, 18, 24]} gets 200 with data 72 |
| ApiControllerProperties.HcfListRequest | src/test/java/com/chitkara/qualifier/QualifierApplicationTests.java:203-216 | {"hcf": [24, 36, 60]} gets 200 with data 12 |
| ApiControllerProperties.TwoKeysRequest | src/test/java/com/chitkara/qualifier/QualifierApplicationTests.java:248-262 | {"fibonacci": 5, "prime": [1, 2, 3]} gets 400 "Multiple operation keys provided…" |

## Left out

- `AIService.queryAI` (an HTTPS call to the Gemini API and Jackson JSON-path extraction) is network I/O. It is the parameter `queryAI`. Its three known exceptions are named constants: the blank question (AIService.java:32-34), the missing API key (AIService.java:36-38) and the unavailable service.
- The Spring plumbing is not part of this model: `QualifierApplication`, request-body parsing, CORS, `@Value` injection, and serialising the `ResponseEntity`. The official e-mail address is a parameter.
- JSON numbers are integers. A fractional JSON number, and the truncation of a `double` by `intValue`/`longValue`, are not modelled. Integral values keep Java's 32/64-bit narrowing.
- MathOperations.IsPrime: the `i <= Math.sqrt(num)` bound is modelled as `i * i <= num`. The two agree for every 32-bit `num`; the floating-point square root itself is not modelled.
- MathOperations.Lcm: does not model 64-bit overflow of `a * b`, or of the lcm fold, because the result is stated over unbounded integers. Java would wrap once the product exceeds 2^63 - 1.
- MathOperations.Lcm: requires positive arguments. Absent overflow, these are the only ones calculateLCM passes to the private `lcm`. Once the fold wraps, Java passes 0 or negative values. For [4294967296, 4294967296, 3], lcm(2^32, 2^32) wraps to 0, and Java answers 200 with data 0 where the model gives 12884901888.
- MathOperations.Gcd: takes non-negative arguments. Absent overflow in the lcm fold, these are the only ones calculateHCF and lcm pass to it. For [2147483648, 4294967296, 3] the wrapped accumulator is -4294967296, and gcd then receives a negative argument. Java's `%` on negative `long`s is not modelled.
- ApiController.CAST_FAILURE: the ClassCastException message is abbreviated to "cannot be cast to Number". The JVM's message names both classes. The model relies only on the fact that the message does not contain "unavailable".
- A `null` list element makes `Number::intValue` throw a NullPointerException with a null message. The catch block's `getMessage().contains` then throws again, and Spring answers with its own 500 page. The model treats a null element like any other non-number (500 "Internal server error" in the service's envelope).
- The `AIService` catch-all that rewraps every other failure as "AI service unavailable" is part of the collaborator. It falls under the `queryAI` parameter.
- Heap exhaustion is not modelled. generateFibonacci boxes n `Long`s into an ArrayList, and for a large count the JVM throws an OutOfMemoryError. That is an `Error`, not an `Exception`, so the catch at ApiController.java:127 misses it and Spring answers with its own 500 page. The model answers 200 with n terms.
