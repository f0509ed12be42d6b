/** The Fibonacci workload deployed as a function image (the heavy and the
    light image ship the same `loop_function.py`): `fibonacci_nums(n)`
    builds the text of the first Fibonacci numbers, and `handler` reads `n`
    from the invocation parameters. */
module LoopFunction {
  import opened Basics
  import opened Strings

  function Fib(k: nat): nat {
    if k < 2 then k else Fib(k - 1) + Fib(k - 2)
  }

  /** The text the loop appends for the terms `2..m`: `",F(2),F(3),…,F(m)"`. */
  function Terms(m: int): (t: string)
    ensures forall i :: 0 <= i < |t| ==> IsDigit(t[i]) || t[i] == ','
    decreases m
  {
    if m < 2 then "" else Terms(m - 1) + "," + Decimal(Fib(m))
  }

  /** What `fibonacci_nums(n)` returns: digits, commas and one space,
      starting with "0", and exactly "0" when `n <= 0`. */
  function FibSequence(n: int): (s: string)
    ensures |s| > 0 && s[0] == '0'
    ensures forall i :: 0 <= i < |s| ==> IsDigit(s[i]) || s[i] == ',' || s[i] == ' '
    ensures s == "0" <==> n <= 0
  {
    if n <= 0 then "0" else "0, 1" + Terms(n)
  }

  /** `fibonacci_nums`: the loop of the source, proved to build `FibSequence(n)`. */
  method FibonacciNums(n: int) returns (sequence: string)
    ensures sequence == FibSequence(n)
  {
    if n <= 0 {
      sequence := "0";
      return;
    }
    sequence := "0, 1";
    assert sequence == FibSequence(1);
    var count := 2;
    var n1: nat := 0;
    var n2: nat := 1;
    while count <= n
      invariant 2 <= count <= n + 1
      invariant n1 == Fib(count - 2) && n2 == Fib(count - 1)
      invariant sequence == FibSequence(count - 1)
      decreases n - count
    {
      FibSequenceGrows(count - 1);
      var nextValue := n2 + n1;
      sequence := sequence + "," + Decimal(nextValue);
      n1 := n2;
      n2 := nextValue;
      count := count + 1;
    }
  }

  /** A non-positive `n` gives exactly "0". */
  lemma FibSequenceNonPositive(n: int)
    requires n <= 0
    ensures FibSequence(n) == "0"
  {
  }

  /** For `n >= 1` the text begins with "0, 1", and for `n == 1` it is
      exactly that. */
  lemma FibSequenceStart(n: int)
    requires n >= 1
    ensures FibSequence(n)[..4] == "0, 1"
    ensures n == 1 ==> FibSequence(n) == "0, 1"
  {
  }

  /** Each further `n` appends one term: `","` and the decimal digits of
      `F(n)`; so the terms appear in order `2..n`. */
  lemma {:induction false} FibSequenceGrows(n: int)
    requires n >= 1
    ensures FibSequence(n + 1) == FibSequence(n) + "," + Decimal(Fib(n + 1))
  {
    assert Terms(n + 1) == Terms(n) + "," + Decimal(Fib(n + 1));
    assert "0, 1" + (Terms(n) + "," + Decimal(Fib(n + 1))) == ("0, 1" + Terms(n)) + "," + Decimal(Fib(n + 1));
  }

  /** The text for `n` is a prefix of the text for any larger `m`. */
  lemma {:induction false} FibSequencePrefix(n: int, m: int)
    requires 1 <= n <= m
    ensures |FibSequence(n)| <= |FibSequence(m)|
    ensures FibSequence(m)[..|FibSequence(n)|] == FibSequence(n)
    decreases m - n
  {
    if n < m {
      FibSequencePrefix(n, m - 1);
      FibSequenceGrows(m - 1);
      var a := FibSequence(m - 1);
      var b := FibSequence(m);
      assert b[..|a|] == a;
      assert b[..|FibSequence(n)|] == a[..|FibSequence(n)|];
    }
  }

  // ---------------------------------------------------------------------------
  // handler

  /** A value in the invocation's parameter dict. */
  datatype Param = PStr(text: string) | PInt(number: int)

  /** The exceptions `handler` can raise. */
  datatype PyError = KeyError | ValueError

  /** `int(n)`: an int is kept, a string is parsed. */
  function ToInt(p: Param): (r: Result<int, PyError>)
    ensures p.PInt? ==> r == Ok(p.number)
    ensures p.PStr? ==> (r.Ok? <==> IsIntLiteral(p.text))
    ensures p.PStr? && r.Ok? ==> r.value == SignOf(p.text) * DigitsValue(Unsigned(p.text))
    ensures r.Err? ==> r.error == ValueError
  {
    match p
    case PInt(k) => Ok(k)
    case PStr(t) =>
      match ParseInt(t)
      case Some(k) => Ok(k)
      case None => Err(ValueError)
  }

  /** `''.join(s)`: the concatenation of the pieces. */
  function Join(pieces: seq<string>): string {
    if pieces == [] then "" else pieces[0] + Join(pieces[1..])
  }

  /** Iterating a string yields its characters as one-character strings. */
  function Chars(s: string): (r: seq<string>)
    ensures |r| == |s|
  {
    if s == [] then [] else [[s[0]]] + Chars(s[1..])
  }

  /** `''.join` of a string gives the string back. */
  lemma {:induction false} JoinChars(s: string)
    ensures Join(Chars(s)) == s
  {
    if s != [] {
      JoinChars(s[1..]);
      assert Chars(s)[1..] == Chars(s[1..]);
      assert [s[0]] + s[1..] == s;
    }
  }

  /** What `handler(params, context)` returns or raises. */
  function HandlerResult(params: map<string, Param>): Result<string, PyError> {
    if "n" !in params then Err(KeyError)
    else
      match ToInt(params["n"])
      case Ok(k) => Ok(Join(Chars(FibSequence(k))))
      case Err(e) => Err(e)
  }

  /** `handler`: KeyError without "n", ValueError when it is not an
      integer, and otherwise the text of `fibonacci_nums(int(n))`. */
  method Handler(params: map<string, Param>) returns (r: Result<string, PyError>)
    ensures r == HandlerResult(params)
    ensures "n" !in params ==> r == Err(KeyError)
    ensures "n" in params && ToInt(params["n"]).Ok? ==> r == Ok(FibSequence(ToInt(params["n"]).value))
  {
    if "n" !in params {
      return Err(KeyError);
    }
    var parsed := ToInt(params["n"]);
    if parsed.Err? {
      return Err(parsed.error);
    }
    var text := FibonacciNums(parsed.value);
    JoinChars(text);
    r := Ok(Join(Chars(text)));
  }

  /** The command-line form: a decimal `n` gives the text for `n`. */
  lemma HandlerDecimal(n: nat)
    ensures HandlerResult(map["n" := PStr(Decimal(n))]) == Ok(FibSequence(n))
  {
    ParseDecimal(n);
    JoinChars(FibSequence(n));
  }

  /** A negative decimal `n` gives "0", the text for every `n <= 0`. */
  lemma HandlerNegative(n: nat)
    ensures HandlerResult(map["n" := PStr("-" + Decimal(n))]) == Ok("0")
  {
    ParseNegativeDecimal(n);
    JoinChars("0");
  }
}
