/**
 * The four numeric operations of the service (MathOperationsService):
 * the Fibonacci sequence, the prime filter, and the LCM and HCF of a list.
 * Each operation validates its input and reports bad input by throwing an
 * IllegalArgumentException, modelled as Thrown(IllegalArgument(message)).
 * Lists arrive as Java `Number`s and are truncated with intValue (primes) or
 * longValue (LCM, HCF); the numbers themselves are modelled as integers.
 */
module MathOperations {
  import opened Failures
  import opened JavaInts
  import opened Divisibility

  const NEGATIVE_COUNT := "Input must be a non-negative integer"
  const NULL_ARRAY := "Input must be an array"
  const EMPTY_ARRAY := "Input must be a non-empty array"
  const NOT_POSITIVE := "All elements must be positive integers"

  // ---------------------------------------------------------------------
  // Fibonacci
  // ---------------------------------------------------------------------

  /** The Fibonacci numbers, F(0) = 0, F(1) = 1, F(k) = F(k-1) + F(k-2). */
  function Fib(i: nat): nat
  {
    if i < 2 then i else Fib(i - 1) + Fib(i - 2)
  }

  /**
   * Term i as generateFibonacci computes it: 0, 1, and then the sum of the
   * two terms before, added as Java `long`s, which wrap around.
   */
  function FibLong(i: nat): (r: int)
    ensures -TWO_63 <= r < TWO_63
  {
    if i < 2 then i else Int64(FibLong(i - 1) + FibLong(i - 2))
  }

  /**
   * What generateFibonacci(n) returns or throws: for a non-negative count,
   * the first n terms.
   */
  function Fibonacci(n: int): (r: Result<seq<int>>)
    ensures r.Thrown? <==> n < 0
    ensures r.Thrown? ==> r.failure == IllegalArgument(NEGATIVE_COUNT)
    ensures r.Ok? ==> |r.value| == n && forall i :: 0 <= i < n ==> -TWO_63 <= r.value[i] < TWO_63
  {
    if n < 0 then Thrown(IllegalArgument(NEGATIVE_COUNT))
    else Ok(seq(n, i requires 0 <= i < n => FibLong(i)))
  }

  /** One step of the recurrence, computed in wrapping `long` arithmetic. */
  lemma FibStep(i: nat)
    requires i >= 2
    ensures Int64(Int64(Fib(i - 1)) + Int64(Fib(i - 2))) == Int64(Fib(i))
  {
    Int64Add(Fib(i - 1), Fib(i - 2));
  }

  /** Each term is the Fibonacci number truncated to a `long`. */
  lemma {:induction false} FibLongWrapsFib(i: nat)
    ensures FibLong(i) == Int64(Fib(i))
  {
    if i < 2 {
      Int64InRange(i);
    } else {
      FibLongWrapsFib(i - 1);
      FibLongWrapsFib(i - 2);
      FibStep(i);
    }
  }

  /**
   * generateFibonacci: builds the list term by term, each new term the
   * wrapping `long` sum of the two before it.
   */
  method GenerateFibonacci(n: int) returns (r: Result<seq<int>>)
    ensures r == Fibonacci(n)
  {
    if n < 0 {
      return Thrown(IllegalArgument(NEGATIVE_COUNT));
    }
    FibonacciShape(n);
    FibonacciShape(2);
    var fibonacci: seq<int> := [];
    if n == 0 {
      return Ok(fibonacci);
    }
    if n == 1 {
      fibonacci := fibonacci + [0];
      assert fibonacci == [0];
      return Ok(fibonacci);
    }
    fibonacci := fibonacci + [0];
    fibonacci := fibonacci + [1];
    assert fibonacci == [0, 1];
    var i := 2;
    while i < n
      invariant 2 <= i <= n
      invariant fibonacci == Fibonacci(i).value
    {
      FibonacciExtend(i);
      var next := Int64(fibonacci[i - 1] + fibonacci[i - 2]);
      fibonacci := fibonacci + [next];
      i := i + 1;
    }
    return Ok(fibonacci);
  }

  /**
   * The outcome for the smallest counts: the error for a negative count;
   * otherwise exactly n terms, n = 0 giving [], n = 1 giving [0] and
   * n = 2 giving [0, 1].
   */
  lemma FibonacciShape(n: int)
    ensures n < 0 ==> Fibonacci(n) == Thrown(IllegalArgument(NEGATIVE_COUNT))
    ensures n >= 0 ==> Fibonacci(n).Ok? && |Fibonacci(n).value| == n
    ensures n == 0 ==> Fibonacci(n) == Ok([])
    ensures n == 1 ==> Fibonacci(n) == Ok([0])
    ensures n == 2 ==> Fibonacci(n) == Ok([0, 1])
  {
    if n == 0 {
      assert Fibonacci(n).value == [];
    } else if n == 1 {
      assert Fibonacci(n).value == [0];
    } else if n == 2 {
      assert Fibonacci(n).value == [0, 1];
    }
  }

  /**
   * The list for n + 1 extends the list for n by the wrapping `long` sum
   * of its last two terms.
   */
  lemma FibonacciExtend(n: int)
    requires n >= 2
    ensures Fibonacci(n + 1).Ok? && Fibonacci(n).Ok?
    ensures Fibonacci(n + 1).value ==
      Fibonacci(n).value + [Int64(Fibonacci(n).value[n - 1] + Fibonacci(n).value[n - 2])]
  {
    var s, t := Fibonacci(n).value, Fibonacci(n + 1).value;
    assert t[n] == Int64(s[n - 1] + s[n - 2]);
    Append(s, t, Int64(s[n - 1] + s[n - 2]));
  }

  /** A sequence one longer than s that agrees with s and ends in v is s + [v]. */
  lemma Append<T>(s: seq<T>, t: seq<T>, v: T)
    requires |t| == |s| + 1 && t[|s|] == v
    requires forall i :: 0 <= i < |s| ==> t[i] == s[i]
    ensures t == s + [v]
  {
  }

  /**
   * The recurrence generateFibonacci follows: the list starts 0, 1 and
   * each later term is the wrapping `long` sum of the two before it.
   */
  lemma FibonacciRecurrence(n: int)
    requires n >= 2
    ensures Fibonacci(n).Ok?
    ensures Fibonacci(n).value[0] == 0 && Fibonacci(n).value[1] == 1
    ensures forall i :: 2 <= i < n ==>
      Fibonacci(n).value[i] == Int64(Fibonacci(n).value[i - 1] + Fibonacci(n).value[i - 2])
  {
  }

  /**
   * Against the mathematical sequence: term i of the list is the i-th
   * Fibonacci number truncated to a `long`.
   */
  lemma FibonacciWrapped(n: int)
    requires n >= 0
    ensures Fibonacci(n).Ok? && |Fibonacci(n).value| == n
    ensures forall i :: 0 <= i < n ==> Fibonacci(n).value[i] == Int64(Fib(i))
  {
    forall i | 0 <= i < n
      ensures Fibonacci(n).value[i] == Int64(Fib(i))
    {
      FibLongWrapsFib(i);
    }
  }

  lemma {:induction false} FibMonotone(i: nat, j: nat)
    requires i <= j
    ensures Fib(i) <= Fib(j)
    decreases j - i
  {
    if i < j {
      FibMonotone(i, j - 1);
    }
  }

  // Exact values of Fib, each pair obtained by unfolding from the pair before.
  lemma Fib10()
    ensures Fib(10) == 55 && Fib(11) == 89
  {
  }

  lemma Fib20()
    ensures Fib(20) == 6765 && Fib(21) == 10946
  {
    Fib10();
  }

  lemma Fib30()
    ensures Fib(30) == 832040 && Fib(31) == 1346269
  {
    Fib20();
  }

  lemma Fib40()
    ensures Fib(40) == 102334155 && Fib(41) == 165580141
  {
    Fib30();
  }

  lemma Fib50()
    ensures Fib(50) == 12586269025 && Fib(51) == 20365011074
  {
    Fib40();
  }

  lemma Fib60()
    ensures Fib(60) == 1548008755920 && Fib(61) == 2504730781961
  {
    Fib50();
  }

  lemma Fib70()
    ensures Fib(70) == 190392490709135 && Fib(71) == 308061521170129
  {
    Fib60();
  }

  lemma Fib80()
    ensures Fib(80) == 23416728348467685 && Fib(81) == 37889062373143906
  {
    Fib70();
  }

  lemma Fib90()
    ensures Fib(90) == 2880067194370816120 && Fib(91) == 4660046610375530309
  {
    Fib80();
  }

  lemma Fib92()
    ensures Fib(92) == 7540113804746346429 && Fib(93) == 12200160415121876738
  {
    Fib90();
  }

  /**
   * Up to n = 93 no term overflows a `long`, so the list is exactly the
   * first n Fibonacci numbers.
   */
  lemma FibonacciExact(n: int)
    requires 0 <= n <= 93
    ensures Fibonacci(n).Ok?
    ensures forall i :: 0 <= i < n ==> Fibonacci(n).value[i] == Fib(i)
  {
    forall i | 0 <= i < n
      ensures Fibonacci(n).value[i] == Fib(i)
    {
      Fib92();
      FibMonotone(i, 92);
      FibLongWrapsFib(i);
      Int64InRange(Fib(i));
    }
  }

  /** From n = 94 on the 94th term wraps around to a negative `long`. */
  lemma FibonacciWrapsAt94(n: int)
    requires n >= 94
    ensures Fibonacci(n).Ok?
    ensures Fibonacci(n).value[93] == -6246583658587674878
  {
    FibonacciWrapped(n);
    Fib92();
  }

  /** The list for {"fibonacci": 7}. */
  lemma FibonacciOfSeven()
    ensures Fibonacci(7) == Ok([0, 1, 1, 2, 3, 5, 8])
  {
    FibonacciExact(7);
    assert Fibonacci(7).value == [0, 1, 1, 2, 3, 5, 8];
  }

  // ---------------------------------------------------------------------
  // Primes
  // ---------------------------------------------------------------------

  /** num is prime: at least 2, and no number strictly between 1 and num divides it. */
  predicate Prime(num: int)
  {
    num >= 2 && forall d :: 2 <= d < num ==> !Divides(d, num)
  }

  /** An even number divides only even numbers. */
  lemma EvenDivisor(d: int, num: int)
    requires d % 2 == 0 && Divides(d, num)
    ensures num % 2 == 0
  {
    DividesCofactor(d, num);
    DividesCofactor(2, d);
    assert num == 2 * ((d / 2) * (num / d));
    DividesProduct(2, (d / 2) * (num / d));
  }

  /**
   * Trial division may stop at the square root: a number with no divisor
   * below i, where i * i exceeds it, is prime.
   */
  lemma NoDivisorUpToSquareRoot(num: int, i: int)
    requires num >= 2 && i >= 2 && i * i > num
    requires forall d :: 2 <= d < i ==> !Divides(d, num)
    ensures Prime(num)
  {
    forall d | 2 <= d < num
      ensures !Divides(d, num)
    {
      if d >= i {
        NoDivisorAbove(num, d, i);
      }
    }
  }

  /** A divisor d >= i of num < i * i would leave a cofactor below i. */
  lemma NoDivisorAbove(num: int, d: int, i: int)
    requires 2 <= i <= d < num && num < i * i
    requires forall c :: 2 <= c < i ==> !Divides(c, num)
    ensures !Divides(d, num)
  {
    if Divides(d, num) {
      var e := num / d;
      DividesCofactor(d, num);
      CofactorBelow(num, d, e, i);
      assert e * d == num;
      DividesProduct(e, d);
    }
  }

  /**
   * For odd num, once i has been ruled out as a divisor so has i + 1, so
   * trial division can step over the even candidates.
   */
  lemma OddStep(num: int, i: int)
    requires num % 2 == 1 && i >= 3 && i % 2 == 1 && !Divides(i, num)
    requires forall d :: 2 <= d < i ==> !Divides(d, num)
    ensures forall d :: 2 <= d < i + 2 ==> !Divides(d, num)
  {
    if Divides(i + 1, num) {
      EvenDivisor(i + 1, num);
    }
  }

  /** The cofactor of a divisor d >= i of num < i * i lies in [2, i). */
  lemma CofactorBelow(num: int, d: int, e: int, i: int)
    requires 2 <= i <= d < num && num == d * e && num < i * i
    ensures 2 <= e < i
  {
    if e < 2 {
      if e <= 0 {
        MulNegativeOrZero(d, e);
      }
    } else if e >= i {
      MulGrows(i, d, e);
    }
  }

  lemma MulNegativeOrZero(d: int, e: int)
    requires d > 0 && e <= 0
    ensures d * e <= 0
  {
  }

  lemma MulGrows(i: int, d: int, e: int)
    requires 0 <= i <= d && i <= e
    ensures i * i <= d * e
  {
    assert i * i <= d * i;
    assert d * i <= d * e;
  }

  /**
   * isPrime: numbers below 2 are not prime, 2 is, other even numbers are
   * not, and an odd number is tested against the odd divisors from 3 while
   * their square does not exceed it.
   */
  method IsPrime(num: int) returns (b: bool)
    ensures b == Prime(num)
  {
    if num < 2 {
      return false;
    }
    if num == 2 {
      return true;
    }
    if num % 2 == 0 {
      DividesSelf(2);
      assert Divides(2, num);
      return false;
    }
    var i := 3;
    while i * i <= num
      invariant 3 <= i && i % 2 == 1
      invariant forall d :: 2 <= d < i ==> !Divides(d, num)
    {
      if num % i == 0 {
        MulAtLeast(i, i);
        assert Divides(i, num) && i < num;
        return false;
      }
      OddStep(num, i);
      i := i + 2;
    }
    NoDivisorUpToSquareRoot(num, i);
    return true;
  }

  /** Number::intValue applied to every element. */
  function Int32s(xs: seq<int>): seq<int>
  {
    seq(|xs|, i requires 0 <= i < |xs| => Int32(xs[i]))
  }

  /** The elements of xs that are prime, in their original order. */
  function KeepPrimes(xs: seq<int>): (r: seq<int>)
    ensures |r| <= |xs|
    ensures forall k :: 0 <= k < |r| ==> Prime(r[k])
  {
    if xs == [] then []
    else (if Prime(xs[0]) then [xs[0]] else []) + KeepPrimes(xs[1..])
  }

  /** filterPrimes: a null list is rejected; otherwise the primes among the int values. */
  function FilterPrimes(numbers: Option<seq<int>>): (r: Result<seq<int>>)
    ensures r.Thrown? <==> numbers.None?
    ensures r.Thrown? ==> r.failure == IllegalArgument(NULL_ARRAY)
    ensures r.Ok? ==> |r.value| <= |numbers.value| && forall k :: 0 <= k < |r.value| ==> Prime(r.value[k])
  {
    match numbers
    case None => Thrown(IllegalArgument(NULL_ARRAY))
    case Some(xs) => Ok(KeepPrimes(Int32s(xs)))
  }

  /** r can be obtained from s by deleting elements, without reordering. */
  ghost predicate SubsequenceOf(r: seq<int>, s: seq<int>)
    decreases |s|
  {
    r == [] ||
    (s != [] &&
     ((r[0] == s[0] && SubsequenceOf(r[1..], s[1..])) || SubsequenceOf(r, s[1..])))
  }

  /**
   * KeepPrimes keeps the original order and drops exactly the non-primes:
   * every prime occurs as often in the result as in the input, and nothing
   * else occurs in it.
   */
  lemma {:induction false} KeepPrimesCorrect(xs: seq<int>)
    ensures SubsequenceOf(KeepPrimes(xs), xs)
    ensures forall v :: multiset(KeepPrimes(xs))[v] == if Prime(v) then multiset(xs)[v] else 0
  {
    if xs != [] {
      KeepPrimesCorrect(xs[1..]);
      assert xs == [xs[0]] + xs[1..];
      var rest := KeepPrimes(xs[1..]);
      if Prime(xs[0]) {
        assert KeepPrimes(xs) == [xs[0]] + rest;
        assert KeepPrimes(xs)[1..] == rest;
      } else {
        assert KeepPrimes(xs) == rest;
        SubsequenceOfTail(rest, xs);
      }
    }
  }

  lemma SubsequenceOfTail(r: seq<int>, s: seq<int>)
    requires s != [] && SubsequenceOf(r, s[1..])
    ensures SubsequenceOf(r, s)
  {
  }

  /**
   * filterPrimes: a null list throws; otherwise the result is the
   * subsequence of the int values that are prime, in their original order,
   * every prime occurrence kept and no value below 2 included.
   */
  lemma FilterPrimesCorrect(numbers: Option<seq<int>>)
    ensures numbers.None? ==> FilterPrimes(numbers) == Thrown(IllegalArgument(NULL_ARRAY))
    ensures numbers.Some? ==> FilterPrimes(numbers).Ok?
    ensures numbers.Some? ==>
      var ys, r := Int32s(numbers.value), FilterPrimes(numbers).value;
      && SubsequenceOf(r, ys)
      && (forall v :: multiset(r)[v] == if Prime(v) then multiset(ys)[v] else 0)
      && (forall k :: 0 <= k < |r| ==> r[k] >= 2)
  {
    if numbers.Some? {
      var ys, r := Int32s(numbers.value), FilterPrimes(numbers).value;
      KeepPrimesCorrect(ys);
      forall k | 0 <= k < |r|
        ensures r[k] >= 2
      {
        assert multiset(r)[r[k]] > 0;
      }
    }
  }

  /** The list for {"prime": [2, 4, 7, 9, 11]}. */
  lemma FilterPrimesExample()
    ensures FilterPrimes(Some([2, 4, 7, 9, 11])) == Ok([2, 7, 11])
  {
    var xs := [2, 4, 7, 9, 11];
    assert Int32s(xs) == xs;
    DividesProduct(2, 2);
    DividesProduct(3, 3);
    assert !Prime(4) && !Prime(9);
    NoDivisorUpToSquareRoot(7, 3);
    NoDivisorUpToSquareRoot(11, 4);
    assert KeepPrimes(xs) == [2, 7, 11];
  }

  // ---------------------------------------------------------------------
  // GCD and LCM
  // ---------------------------------------------------------------------

  /** gcd: Euclid's algorithm, gcd(a, 0) = a and gcd(a, b) = gcd(b, a % b). */
  function Gcd(a: nat, b: nat): (g: nat)
    ensures g > 0 <==> a > 0 || b > 0
    decreases b
  {
    if b == 0 then a else Gcd(b, a % b)
  }

  /** Coefficients x, y with a * x + b * y == Gcd(a, b) (extended Euclid). */
  ghost function Bezout(a: nat, b: nat): (c: (int, int))
    ensures a * c.0 + b * c.1 == Gcd(a, b)
    decreases b
  {
    if b == 0 then (1, 0)
    else
      var c' := Bezout(b, a % b);
      var q, x, y := a / b, c'.0, c'.1;
      assert a % b == a - q * b;
      calc {
        a * y + b * (x - q * y);
        b * x + (a - q * b) * y;
        b * x + (a % b) * y;
      }
      (y, x - q * y)
  }

  /** gcd(a, b) divides both a and b. */
  lemma {:induction false} GcdDivides(a: nat, b: nat)
    requires a > 0 || b > 0
    ensures Divides(Gcd(a, b), a) && Divides(Gcd(a, b), b)
    decreases b
  {
    if b == 0 {
      DividesSelf(a);
    } else {
      GcdDivides(b, a % b);
      var g := Gcd(b, a % b);
      assert a == b * (a / b) + (a % b);
      DividesLinear(g, b, a % b, a / b, 1);
    }
  }

  /**
   * gcd(a, b) is the greatest common divisor: every common divisor of a
   * and b divides it, and so is no larger than it.
   */
  lemma GcdGreatest(a: nat, b: nat, d: int)
    requires a > 0 || b > 0
    requires Divides(d, a) && Divides(d, b)
    ensures Divides(d, Gcd(a, b)) && d <= Gcd(a, b)
  {
    var c := Bezout(a, b);
    DividesLinear(d, a, b, c.0, c.1);
    DividesBound(d, Gcd(a, b));
  }

  /** lcm: |a * b| / gcd(a, b), for the positive arguments it is called with. */
  function Lcm(a: int, b: int): (l: int)
    requires a > 0 && b > 0
    ensures l > 0
  {
    var g := Gcd(a, b);
    GcdDivides(a, b);
    DividesCofactor(g, a);
    assert a * b == g * ((a / g) * b);
    DivOfMultiple(g, (a / g) * b);
    MulAtLeast(a / g, b);
    var p := a * b;
    (if p < 0 then -p else p) / g
  }

  /** lcm(a, b) is a multiple of a and of b, and gcd(a, b) * lcm(a, b) == a * b. */
  lemma LcmCommonMultiple(a: int, b: int)
    requires a > 0 && b > 0
    ensures Divides(a, Lcm(a, b)) && Divides(b, Lcm(a, b))
    ensures Gcd(a, b) * Lcm(a, b) == a * b
  {
    var g := Gcd(a, b);
    GcdDivides(a, b);
    DividesCofactor(g, a);
    DividesCofactor(g, b);
    var k, j := a / g, b / g;
    assert a * b == g * (k * b);
    DivOfMultiple(g, k * b);
    assert Lcm(a, b) == k * b;
    DividesProduct(b, k);
    assert k * b == a * j;
    DividesProduct(a, j);
  }

  /** lcm(a, b) divides every common multiple of a and b. */
  lemma LcmLeast(a: int, b: int, m: int)
    requires a > 0 && b > 0
    requires Divides(a, m) && Divides(b, m)
    ensures Divides(Lcm(a, b), m)
  {
    var g, l := Gcd(a, b), Lcm(a, b);
    LcmCommonMultiple(a, b);
    var c := Bezout(a, b);
    DividesCofactor(a, m);
    DividesCofactor(b, m);
    var s, t := m / a, m / b;
    BezoutScaled(a, b, c.0, c.1, s, t, g, l, m);
    MulCancel(g, m, l * (t * c.0 + s * c.1));
    DividesProduct(l, t * c.0 + s * c.1);
  }

  /** Multiplying Bezout's identity by a common multiple m of a and b. */
  lemma BezoutScaled(a: int, b: int, x: int, y: int, s: int, t: int, g: int, l: int, m: int)
    requires g == a * x + b * y && m == a * s && m == b * t && a * b == g * l
    ensures g * m == g * (l * (t * x + s * y))
  {
    calc {
      g * m;
      (a * x + b * y) * m;
      a * x * m + b * y * m;
      a * x * (b * t) + b * y * (a * s);
      (a * b) * (t * x + s * y);
      (g * l) * (t * x + s * y);
      g * (l * (t * x + s * y));
    }
  }

  // ---------------------------------------------------------------------
  // calculateLCM and calculateHCF
  // ---------------------------------------------------------------------

  /** Number::longValue applied to every element. */
  function Int64s(xs: seq<int>): seq<int>
  {
    seq(|xs|, i requires 0 <= i < |xs| => Int64(xs[i]))
  }

  predicate AllPositive(xs: seq<int>)
  {
    forall i :: 0 <= i < |xs| ==> xs[i] > 0
  }

  /**
   * The validation loop of calculateLCM and calculateHCF: it scans the
   * `long` values in order and stops at the first one that is not positive.
   */
  method ValidatePositive(longNumbers: seq<int>) returns (ok: bool)
    ensures ok <==> AllPositive(longNumbers)
  {
    var i := 0;
    while i < |longNumbers|
      invariant 0 <= i <= |longNumbers|
      invariant forall j :: 0 <= j < i ==> longNumbers[j] > 0
    {
      if longNumbers[i] <= 0 {
        return false;
      }
      i := i + 1;
    }
    return true;
  }

  /** Stream.reduce(lcm): the left fold of lcm from the first element. */
  function LcmOf(xs: seq<int>): (l: int)
    requires |xs| > 0 && AllPositive(xs)
    ensures l > 0
    decreases |xs|
  {
    if |xs| == 1 then xs[0] else Lcm(LcmOf(xs[..|xs| - 1]), xs[|xs| - 1])
  }

  /** Stream.reduce(gcd): the left fold of gcd from the first element. */
  function HcfOf(xs: seq<int>): (h: int)
    requires |xs| > 0 && AllPositive(xs)
    ensures h > 0
    decreases |xs|
  {
    if |xs| == 1 then xs[0] else Gcd(HcfOf(xs[..|xs| - 1]), xs[|xs| - 1])
  }

  /** l is the least common multiple of xs: a positive common multiple dividing all others. */
  ghost predicate IsLeastCommonMultiple(xs: seq<int>, l: int)
  {
    l > 0 && CommonMultiple(xs, l) && forall m :: CommonMultiple(xs, m) ==> Divides(l, m)
  }

  /** h is the greatest common divisor of xs: a common divisor that every other one divides. */
  ghost predicate IsGreatestCommonDivisor(xs: seq<int>, h: int)
  {
    CommonDivisor(xs, h) && forall d :: CommonDivisor(xs, d) ==> Divides(d, h) && d <= h
  }

  /** The left fold of lcm yields the least common multiple of all the elements. */
  lemma {:induction false} LcmOfIsLeast(xs: seq<int>)
    requires |xs| > 0 && AllPositive(xs)
    ensures IsLeastCommonMultiple(xs, LcmOf(xs))
    decreases |xs|
  {
    var n := |xs|;
    if n == 1 {
      DividesSelf(xs[0]);
    } else {
      var p, x := xs[..n - 1], xs[n - 1];
      LcmOfIsLeast(p);
      var lp := LcmOf(p);
      LcmCommonMultiple(lp, x);
      forall i | 0 <= i < n
        ensures Divides(xs[i], LcmOf(xs))
      {
        if i < n - 1 {
          assert xs[i] == p[i];
          DividesTransitive(xs[i], lp, LcmOf(xs));
        }
      }
      forall m | CommonMultiple(xs, m)
        ensures Divides(LcmOf(xs), m)
      {
        assert CommonMultiple(p, m) by {
          forall i | 0 <= i < n - 1
            ensures Divides(p[i], m)
          {
            assert p[i] == xs[i];
          }
        }
        LcmLeast(lp, x, m);
      }
    }
  }

  /** The left fold of gcd yields the greatest common divisor of all the elements. */
  lemma {:induction false} HcfOfIsGreatest(xs: seq<int>)
    requires |xs| > 0 && AllPositive(xs)
    ensures IsGreatestCommonDivisor(xs, HcfOf(xs))
    decreases |xs|
  {
    var n := |xs|;
    if n == 1 {
      DividesSelf(xs[0]);
      forall d | CommonDivisor(xs, d)
        ensures Divides(d, HcfOf(xs)) && d <= HcfOf(xs)
      {
        DividesBound(d, xs[0]);
      }
    } else {
      var p, x := xs[..n - 1], xs[n - 1];
      HcfOfIsGreatest(p);
      var hp := HcfOf(p);
      GcdDivides(hp, x);
      forall i | 0 <= i < n
        ensures Divides(HcfOf(xs), xs[i])
      {
        if i < n - 1 {
          assert xs[i] == p[i];
          DividesTransitive(HcfOf(xs), hp, xs[i]);
        }
      }
      forall d | CommonDivisor(xs, d)
        ensures Divides(d, HcfOf(xs)) && d <= HcfOf(xs)
      {
        assert CommonDivisor(p, d) by {
          forall i | 0 <= i < n - 1
            ensures Divides(d, p[i])
          {
            assert p[i] == xs[i];
          }
        }
        GcdGreatest(hp, x, d);
      }
    }
  }

  /** calculateLCM: rejects a null or empty list, then any element whose long value is not positive. */
  function CalculateLcm(numbers: Option<seq<int>>): (r: Result<int>)
    ensures r.Ok? <==> numbers.Some? && numbers.value != [] && AllPositive(Int64s(numbers.value))
    ensures r.Ok? ==> r.value > 0
    ensures r.Thrown? ==> r.failure.IllegalArgument?
  {
    if numbers.None? || |numbers.value| == 0 then Thrown(IllegalArgument(EMPTY_ARRAY))
    else
      var longs := Int64s(numbers.value);
      if !AllPositive(longs) then Thrown(IllegalArgument(NOT_POSITIVE))
      else Ok(LcmOf(longs))
  }

  /** calculateHCF: the same validation as calculateLCM, then the fold of gcd. */
  function CalculateHcf(numbers: Option<seq<int>>): (r: Result<int>)
    ensures r.Ok? <==> numbers.Some? && numbers.value != [] && AllPositive(Int64s(numbers.value))
    ensures r.Ok? ==> r.value > 0
    ensures r.Thrown? ==> r.failure.IllegalArgument?
  {
    if numbers.None? || |numbers.value| == 0 then Thrown(IllegalArgument(EMPTY_ARRAY))
    else
      var longs := Int64s(numbers.value);
      if !AllPositive(longs) then Thrown(IllegalArgument(NOT_POSITIVE))
      else Ok(HcfOf(longs))
  }

  /**
   * calculateLCM fails on a null or empty list, and on a list with an
   * element whose long value is not positive; otherwise it returns the
   * least common multiple of the long values.
   */
  lemma CalculateLcmCorrect(numbers: Option<seq<int>>)
    ensures numbers.None? || numbers.value == [] ==>
      CalculateLcm(numbers) == Thrown(IllegalArgument(EMPTY_ARRAY))
    ensures numbers.Some? && numbers.value != [] && !AllPositive(Int64s(numbers.value)) ==>
      CalculateLcm(numbers) == Thrown(IllegalArgument(NOT_POSITIVE))
    ensures numbers.Some? && numbers.value != [] && AllPositive(Int64s(numbers.value)) ==>
      CalculateLcm(numbers).Ok? &&
      IsLeastCommonMultiple(Int64s(numbers.value), CalculateLcm(numbers).value)
  {
    if numbers.Some? && numbers.value != [] && AllPositive(Int64s(numbers.value)) {
      LcmOfIsLeast(Int64s(numbers.value));
    }
  }

  /**
   * calculateHCF fails as calculateLCM does; otherwise it returns the
   * greatest common divisor of the long values.
   */
  lemma CalculateHcfCorrect(numbers: Option<seq<int>>)
    ensures numbers.None? || numbers.value == [] ==>
      CalculateHcf(numbers) == Thrown(IllegalArgument(EMPTY_ARRAY))
    ensures numbers.Some? && numbers.value != [] && !AllPositive(Int64s(numbers.value)) ==>
      CalculateHcf(numbers) == Thrown(IllegalArgument(NOT_POSITIVE))
    ensures numbers.Some? && numbers.value != [] && AllPositive(Int64s(numbers.value)) ==>
      CalculateHcf(numbers).Ok? &&
      IsGreatestCommonDivisor(Int64s(numbers.value), CalculateHcf(numbers).value)
  {
    if numbers.Some? && numbers.value != [] && AllPositive(Int64s(numbers.value)) {
      HcfOfIsGreatest(Int64s(numbers.value));
    }
  }

  /** Reordering the list, or repeating its elements, does not change the LCM. */
  lemma LcmOfOrderIrrelevant(xs: seq<int>, ys: seq<int>)
    requires |xs| > 0 && AllPositive(xs) && |ys| > 0 && AllPositive(ys)
    requires forall v :: v in xs <==> v in ys
    ensures LcmOf(xs) == LcmOf(ys)
  {
    LcmOfIsLeast(xs);
    LcmOfIsLeast(ys);
    assert CommonMultiple(ys, LcmOf(xs)) by {
      forall i | 0 <= i < |ys|
        ensures Divides(ys[i], LcmOf(xs))
      {
        assert ys[i] in xs;
      }
    }
    assert CommonMultiple(xs, LcmOf(ys)) by {
      forall i | 0 <= i < |xs|
        ensures Divides(xs[i], LcmOf(ys))
      {
        assert xs[i] in ys;
      }
    }
    DividesAntisymmetric(LcmOf(xs), LcmOf(ys));
  }

  /** Reordering the list, or repeating its elements, does not change the HCF. */
  lemma HcfOfOrderIrrelevant(xs: seq<int>, ys: seq<int>)
    requires |xs| > 0 && AllPositive(xs) && |ys| > 0 && AllPositive(ys)
    requires forall v :: v in xs <==> v in ys
    ensures HcfOf(xs) == HcfOf(ys)
  {
    HcfOfIsGreatest(xs);
    HcfOfIsGreatest(ys);
    assert CommonDivisor(ys, HcfOf(xs)) by {
      forall i | 0 <= i < |ys|
        ensures Divides(HcfOf(xs), ys[i])
      {
        assert ys[i] in xs;
      }
    }
    assert CommonDivisor(xs, HcfOf(ys)) by {
      forall i | 0 <= i < |xs|
        ensures Divides(HcfOf(ys), xs[i])
      {
        assert xs[i] in ys;
      }
    }
    DividesAntisymmetric(HcfOf(xs), HcfOf(ys));
  }

  /** The result for {"lcm": [12, 18, 24]}. */
  lemma LcmExample()
    ensures CalculateLcm(Some([12, 18, 24])) == Ok(72)
  {
    var xs := [12, 18, 24];
    assert Int64s(xs) == xs;
    assert Gcd(12, 18) == 6 && Gcd(36, 24) == 12;
    assert Lcm(12, 18) == 36;
    assert Lcm(36, 24) == 72;
    assert xs[..2] == [12, 18] && xs[..2][..1] == [12];
    assert LcmOf(xs[..2]) == 36;
  }

  /** The result for {"hcf": [24, 36, 60]}. */
  lemma HcfExample()
    ensures CalculateHcf(Some([24, 36, 60])) == Ok(12)
  {
    var xs := [24, 36, 60];
    assert Int64s(xs) == xs;
    assert Gcd(24, 36) == 12 && Gcd(12, 60) == 12;
    assert xs[..2] == [24, 36] && xs[..2][..1] == [24];
    assert HcfOf(xs[..2]) == 12;
  }
}
