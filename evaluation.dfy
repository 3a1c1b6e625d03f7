/** evaluatePostfix (ScientificCalculator.java:171-235): the postfix string is split into tokens
    and evaluated left to right with a stack of values (top = last entry). Run is the loop written
    as a recursive function over the tokens; EvaluatePostfix is the loop itself, proved to compute
    the same result. Values are exact reals; the java.lang.Math functions are a parameter. */
module Evaluation {
  import opened Failures
  import opened Symbols
  import opened Text
  import opened Numerals

  /** Math.sin, cos, tan, log10, log, sqrt, pow and toRadians. Nothing is required of them:
      every property below holds whatever functions are supplied. */
  datatype MathLib = MathLib(
    sin: real -> real,
    cos: real -> real,
    tan: real -> real,
    log10: real -> real,
    ln: real -> real,
    sqrt: real -> real,
    pow: (real, real) -> real,
    toRadians: real -> real)

  /** The operator switch (lines 185-201): a op b, where b was on top of the stack. */
  function Binary(op: char, a: real, b: real, lib: MathLib): (r: Result<real>)
    requires IsOperator(op)
    ensures r.Err? <==> op == '/' && b == 0.0
    ensures r.Err? ==> r.error == DivisionByZero
  {
    match op
    case '+' => Ok(a + b)
    case '-' => Ok(a - b)
    case '*' => Ok(a * b)
    case '/' => if b == 0.0 then Err(DivisionByZero) else Ok(a / b)
    case _ => Ok(lib.pow(a, b))
  }

  /** The '*' case of the operator switch (lines 191-193): the product of the two operands. */
  lemma BinaryProduct(a: real, b: real, lib: MathLib)
    ensures Binary('*', a, b, lib) == Ok(a * b)
  {
  }

  /** The function switch (lines 206-228); the three trigonometric functions take degrees. */
  function Unary(f: char, a: real, lib: MathLib): (r: Result<real>)
    requires IsFunction(f)
    ensures r.Err? <==> ((f == 'g' || f == 'l') && a <= 0.0) || (f == 'q' && a < 0.0)
    ensures r.Err? ==> r.error == (if f == 'q' then NegativeSquareRoot else NonPositiveLogarithm)
  {
    match f
    case 's' => Ok(lib.sin(lib.toRadians(a)))
    case 'c' => Ok(lib.cos(lib.toRadians(a)))
    case 't' => Ok(lib.tan(lib.toRadians(a)))
    case 'g' => if a <= 0.0 then Err(NonPositiveLogarithm) else Ok(lib.log10(a))
    case 'l' => if a <= 0.0 then Err(NonPositiveLogarithm) else Ok(lib.ln(a))
    case _ => if a < 0.0 then Err(NegativeSquareRoot) else Ok(lib.sqrt(a))
  }

  /** How the loop classifies a token by its first character (lines 175-176, 179, 202, 229). */
  datatype Kind = Empty | Numeral | Operator(op: char) | Function(f: char) | Unknown

  function Classify(token: string): (k: Kind)
    ensures k.Empty? <==> token == []
    ensures k.Numeral? ==> IsDigit(token[0]) || token[0] == '-' || token[0] == '.'
    ensures k.Operator? ==> IsOperator(k.op) && k.op == token[0]
    ensures k.Function? ==> IsFunction(k.f) && k.f == token[0]
  {
    if token == [] then Empty
    else
      var c := token[0];
      if IsDigit(c) || (|token| > 1 && (c == '-' || c == '.')) then Numeral
      else if IsOperator(c) then Operator(c)
      else if IsFunction(c) then Function(c)
      else Unknown
  }

  /** How many entries a successful token adds to the stack. */
  function Effect(token: string): int {
    match Classify(token)
    case Numeral => 1
    case Operator(_) => -1
    case _ => 0
  }

  /** One pass of the loop body on one token. */
  function ApplyToken(token: string, stack: seq<real>, lib: MathLib): (r: Result<seq<real>>)
    ensures r.Err? ==> !r.error.InvalidCharacter? && !r.error.MismatchedParentheses?
    ensures r.Err? && (r.error.InvalidToken? || r.error.Malformed?) ==> r.error.token == token
    ensures Classify(token).Empty? ==> r == Err(Malformed(token))
    ensures Classify(token).Unknown? ==> r == Err(InvalidToken(token))
    ensures Classify(token).Numeral? ==>
              r == (match ParseDouble(token) case None => Err(Malformed(token)) case Some(v) => Ok(stack + [v]))
    ensures Classify(token).Operator? && |stack| < 2 ==> r == Err(InvalidExpression)
    ensures Classify(token).Function? && |stack| < 1 ==> r == Err(InvalidExpression)
    ensures r.Ok? ==> |r.value| == |stack| + Effect(token)
    ensures r.Ok? && Classify(token).Operator? ==>
              r.value[..|stack| - 2] == stack[..|stack| - 2] &&
              Ok(r.value[|stack| - 2]) == Binary(Classify(token).op, stack[|stack| - 2], stack[|stack| - 1], lib)
    ensures r.Ok? && Classify(token).Function? ==>
              r.value[..|stack| - 1] == stack[..|stack| - 1] &&
              Ok(r.value[|stack| - 1]) == Unary(Classify(token).f, stack[|stack| - 1], lib)
  {
    match Classify(token)
    case Empty => Err(Malformed(token))
    case Numeral =>
      (match ParseDouble(token) case None => Err(Malformed(token)) case Some(v) => Ok(stack + [v]))
    case Operator(op) =>
      if |stack| < 2 then Err(InvalidExpression)
      else
        var b := stack[|stack| - 1];
        var a := stack[|stack| - 2];
        (match Binary(op, a, b, lib) case Err(e) => Err(e) case Ok(v) => Ok(stack[..|stack| - 2] + [v]))
    case Function(f) =>
      if |stack| < 1 then Err(InvalidExpression)
      else
        var a := stack[|stack| - 1];
        (match Unary(f, a, lib) case Err(e) => Err(e) case Ok(v) => Ok(stack[..|stack| - 1] + [v]))
    case Unknown => Err(InvalidToken(token))
  }

  /** The loop over the tokens: the stack after all of them, or the first error. Its errors are
      the evaluator's own, and a token it names is one of the tokens. */
  function Run(tokens: seq<string>, stack: seq<real>, lib: MathLib): (r: Result<seq<real>>)
    ensures r.Err? ==> !r.error.InvalidCharacter? && !r.error.MismatchedParentheses?
    ensures r.Err? && (r.error.InvalidToken? || r.error.Malformed?) ==> r.error.token in tokens
  {
    if tokens == [] then Ok(stack)
    else
      match ApplyToken(tokens[0], stack, lib)
      case Err(e) => Err(e)
      case Ok(next) => Run(tokens[1..], next, lib)
  }

  /** The check after the loop (line 233): exactly one value must be left. */
  function Finish(stack: seq<real>): (r: Result<real>)
    ensures r.Ok? <==> |stack| == 1
    ensures r.Ok? ==> r.value == stack[0]
    ensures r.Err? ==> r.error == InvalidExpression
  {
    if |stack| != 1 then Err(InvalidExpression) else Ok(stack[0])
  }

  /** evaluatePostfix: it never fails with the converter's errors, and a token it names is one
      of the tokens of the postfix string. */
  function Evaluate(postfix: string, lib: MathLib): (r: Result<real>)
    ensures r.Err? ==> !r.error.InvalidCharacter? && !r.error.MismatchedParentheses?
    ensures r.Err? && (r.error.InvalidToken? || r.error.Malformed?) ==> r.error.token in Tokens(postfix)
  {
    match Run(Tokens(postfix), [], lib)
    case Err(e) => Err(e)
    case Ok(stack) => Finish(stack)
  }

  /** The total stack effect of a sequence of tokens. */
  function NetEffect(tokens: seq<string>): int {
    if tokens == [] then 0 else Effect(tokens[0]) + NetEffect(tokens[1..])
  }

  /** Running a sequence of tokens changes the depth of the stack by its net effect: every numeral
      pushes one value, every operator replaces two by one, every function replaces one by one. */
  lemma {:induction false} RunDepth(tokens: seq<string>, stack: seq<real>, lib: MathLib)
    requires Run(tokens, stack, lib).Ok?
    ensures |Run(tokens, stack, lib).value| == |stack| + NetEffect(tokens)
  {
    if tokens != [] {
      var next := ApplyToken(tokens[0], stack, lib).value;
      RunDepth(tokens[1..], next, lib);
    }
  }

  /** Hence a postfix string evaluates only if it has exactly one more numeral than operators. */
  lemma EvaluateBalance(postfix: string, lib: MathLib)
    requires Evaluate(postfix, lib).Ok?
    ensures NetEffect(Tokens(postfix)) == 1
  {
    RunDepth(Tokens(postfix), [], lib);
  }

  /** The loop is sequential: running two sequences of tokens is running the first, then the
      second on the stack the first leaves. */
  lemma {:induction false} RunAppend(a: seq<string>, b: seq<string>, stack: seq<real>, lib: MathLib)
    ensures Run(a + b, stack, lib) ==
              match Run(a, stack, lib) case Err(e) => Err(e) case Ok(mid) => Run(b, mid, lib)
  {
    if a == [] {
      assert a + b == b;
    } else {
      assert (a + b)[1..] == a[1..] + b;
      match ApplyToken(a[0], stack, lib)
      case Err(_) =>
      case Ok(next) => RunAppend(a[1..], b, next, lib);
    }
  }

  /** A token the evaluator cannot classify stops it with InvalidToken, whatever follows. */
  lemma UnknownTokenFails(tokens: seq<string>, k: nat, lib: MathLib)
    requires k < |tokens| && Classify(tokens[k]).Unknown?
    requires Run(tokens[..k], [], lib).Ok?
    ensures Run(tokens, [], lib) == Err(InvalidToken(tokens[k]))
  {
    assert tokens == tokens[..k] + tokens[k..];
    RunAppend(tokens[..k], tokens[k..], [], lib);
  }

  /** The loop body on one token (lines 175-228), popping b and then a for an operator and one
      value for a function. */
  method Apply(token: string, stack: seq<real>, lib: MathLib) returns (r: Result<seq<real>>)
    ensures r == ApplyToken(token, stack, lib)
  {
    if token == [] {
      return Err(Malformed(token));
    }
    var c := token[0];
    var values := stack;
    if IsDigit(c) || (|token| > 1 && (c == '-' || c == '.')) {
      var parsed := ParseDouble(token);
      if parsed.None? {
        return Err(Malformed(token));
      }
      return Ok(values + [parsed.value]);
    } else if IsOperator(c) {
      if |values| < 2 {
        return Err(InvalidExpression);
      }
      var b := values[|values| - 1];
      values := values[..|values| - 1];
      var a := values[|values| - 1];
      values := values[..|values| - 1];
      assert values == stack[..|stack| - 2];
      var v: real;
      if c == '+' {
        v := a + b;
      } else if c == '-' {
        v := a - b;
      } else if c == '*' {
        v := a * b;
        BinaryProduct(a, b, lib);
      } else if c == '/' {
        if b == 0.0 {
          return Err(DivisionByZero);
        }
        v := a / b;
      } else {
        v := lib.pow(a, b);
      }
      assert a == stack[|stack| - 2] && b == stack[|stack| - 1];
      return Ok(values + [v]);
    } else if IsFunction(c) {
      if |values| == 0 {
        return Err(InvalidExpression);
      }
      var a := values[|values| - 1];
      values := values[..|values| - 1];
      var v: real;
      if c == 's' {
        v := lib.sin(lib.toRadians(a));
      } else if c == 'c' {
        v := lib.cos(lib.toRadians(a));
      } else if c == 't' {
        v := lib.tan(lib.toRadians(a));
      } else if c == 'g' {
        if a <= 0.0 {
          return Err(NonPositiveLogarithm);
        }
        v := lib.log10(a);
      } else if c == 'l' {
        if a <= 0.0 {
          return Err(NonPositiveLogarithm);
        }
        v := lib.ln(a);
      } else {
        if a < 0.0 {
          return Err(NegativeSquareRoot);
        }
        v := lib.sqrt(a);
      }
      return Ok(values + [v]);
    } else {
      return Err(InvalidToken(token));
    }
  }

  /** evaluatePostfix as the source writes it: a for loop over the tokens with a stack of values. */
  method EvaluatePostfix(postfix: string, lib: MathLib) returns (r: Result<real>)
    ensures r == Evaluate(postfix, lib)
  {
    var tokens := Tokens(postfix);
    var stack: seq<real> := [];
    for k := 0 to |tokens|
      invariant Run(tokens[k..], stack, lib) == Run(tokens, [], lib)
    {
      var next := Apply(tokens[k], stack, lib);
      assert tokens[k..][1..] == tokens[k + 1..];
      if next.Err? {
        return Err(next.error);
      }
      stack := next.value;
    }
    if |stack| != 1 {
      return Err(InvalidExpression);
    }
    return Ok(stack[|stack| - 1]);
  }
}
