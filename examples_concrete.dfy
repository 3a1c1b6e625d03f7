/** The calculator on a few concrete inputs. */
module Samples {
  import opened Failures
  import opened Symbols
  import opened Text
  import opened Numerals
  import opened Rewrite
  import opened Shunting
  import opened Evaluation
  import opened Engine
  import opened Expressions
  import opened Correctness

  /** '^' groups to the left like the other operators: 2^3^2 is (2^3)^2 (line 128 pops an equal
      precedence). */
  lemma PowerGroupsLeft()
    ensures PostfixText("2^3^2") == Ok("2 3 ^ 2 ^ ")
  {
    var e := Apply('^', Apply('^', Number("2"), Number("3")), Number("2"));
    var p := [Lexeme("2"), Lexeme("3"), Symbol('^'), Lexeme("2"), Symbol('^')];
    PowerTree(e);
    ToPostfixPrinted(e);
    assert ToPostfix("2^3^2") == Ok(p);
    PowerRendered(p);
  }

  lemma PowerTree(e: Expr)
    requires e == Apply('^', Apply('^', Number("2"), Number("3")), Number("2"))
    ensures WellFormed(e) && Print(e) == "2^3^2"
    ensures PostfixOf(e) == [Lexeme("2"), Lexeme("3"), Symbol('^'), Lexeme("2"), Symbol('^')]
  {
    assert IsLexeme("2") && IsLexeme("3");
  }

  lemma PowerRendered(p: seq<Item>)
    requires p == [Lexeme("2"), Lexeme("3"), Symbol('^'), Lexeme("2"), Symbol('^')]
    ensures Render(p) == "2 3 ^ 2 ^ "
  {
    assert Render(p[4..]) == "^ ";
    assert Render(p[3..]) == "2 ^ ";
    assert Render(p[2..]) == "^ 2 ^ ";
    assert Render(p[1..]) == "3 ^ 2 ^ ";
  }

  /** A one-digit numeral parses as its digit. */
  lemma OneDigit(c: char)
    requires IsDigit(c)
    ensures ParseDouble([c]) == Some(DigitValue(c) as real)
  {
    ParseDigits([c]);
    assert [c][..0] == [];
  }

  /** A '(' left open fails at the end of input (lines 137-141). */
  lemma UnclosedGroup()
    ensures ToPostfix("(2+3") == Err(MismatchedParentheses)
  {
    var s := "(2+3";
    var e := Apply('+', Number("2"), Number("3"));
    UnclosedSum(s, e);
    StepEnd(s, ['(', '+'], [] + Emitted(e));
  }

  /** Through the text: '(' is pushed, and the sum leaves '+' above it. */
  lemma UnclosedSum(s: string, e: Expr)
    requires s == "(2+3" && e == Apply('+', Number("2"), Number("3"))
    ensures Convert(s, 0, [], []) == Convert(s, |s|, ['(', '+'], [] + Emitted(e))
  {
    assert IsLexeme("2") && IsLexeme("3") && WellFormed(e);
    assert At(s, 1, Print(e));
    PushStep(s, 0, 1, [], []);
    assert [] + [s[0]] == ['('];
    ConvertPrinted(e, s, 1, ['('], []);
    assert ['('] + Pending(e) == ['(', '+'];
  }

  /** A ')' with no '(' on the stack fails at once (lines 116-121). */
  lemma UnopenedGroup()
    ensures ToPostfix("2+3)") == Err(MismatchedParentheses)
  {
    var s := "2+3)";
    var e := Apply('+', Number("2"), Number("3"));
    UnopenedSum(s, e);
    UnopenedClose(s, [] + Emitted(e));
  }

  /** Up to the ')': the sum is converted, leaving '+' on the stack. */
  lemma UnopenedSum(s: string, e: Expr)
    requires s == "2+3)" && e == Apply('+', Number("2"), Number("3"))
    ensures Convert(s, 0, [], []) == Convert(s, 3, ['+'], [] + Emitted(e))
  {
    assert IsLexeme("2") && IsLexeme("3") && WellFormed(e);
    assert At(s, 0, Print(e));
    ConvertPrinted(e, s, 0, [], []);
    assert [] + Pending(e) == ['+'];
  }

  /** The ')' finds no '(' under the '+'. */
  lemma UnopenedClose(s: string, out: seq<Item>)
    requires s == "2+3)"
    ensures Convert(s, 3, ['+'], out) == Err(MismatchedParentheses)
  {
    assert s[3] == ')';
    assert Step(s, 3, ['+']) == Err(MismatchedParentheses);
    ConvertStep(s, 3, ['+'], out);
  }

  /** A character with no branch in the loop, such as the first letter of a constant the
      calculator does not have, fails as an invalid character (line 134). */
  lemma NoConstants()
    ensures ToPostfix("pi") == Err(InvalidCharacter('p'))
  {
    var s := "pi";
    FirstRejected(s);
    ConvertStep(s, 0, [], []);
  }

  lemma FirstRejected(s: string)
    requires s == "pi"
    ensures Step(s, 0, []) == Err(InvalidCharacter('p'))
  {
    assert s[0] == 'p';
    assert !IsNumberChar('p') && !IsFunction('p') && !IsOperator('p');
  }

  /** There is no unary minus: in sqrt(-1) the '-' is a binary operator with only one operand, so
      evaluation fails with InvalidExpression (line 181) before sqrt's domain check is reached. */
  lemma SqrtOfMinusOne(lib: MathLib)
    ensures Calculate("sqrt(-1)", lib) == Err(InvalidExpression)
  {
    var ks := [Key.Function(Sqrt), Press('('), Press('-'), Press('1'), Press(')')];
    assert ValidKeys(ks);
    MinusOneKeys(ks);
    CalculateTyped(ks, lib);
    MinusOnePostfix();
    MinusOneEvaluate(lib);
  }

  lemma MinusOneKeys(ks: seq<Key>)
    requires ks == [Key.Function(Sqrt), Press('('), Press('-'), Press('1'), Press(')')]
    ensures Typed(ks, 0) == "sqrt(-1)" && Typed(ks, 6) == "q(-1)"
  {
    assert Typed(ks[4..], 0) == ")" && Typed(ks[4..], 6) == ")";
    assert Typed(ks[3..], 0) == "1)" && Typed(ks[3..], 6) == "1)";
    assert Typed(ks[2..], 0) == "-1)" && Typed(ks[2..], 6) == "-1)";
    assert Typed(ks[1..], 0) == "(-1)" && Typed(ks[1..], 6) == "(-1)";
  }

  /** The converter reads q(-1) as the call of q on "1 -". */
  lemma MinusOnePostfix()
    ensures PostfixText("q(-1)") == Ok("1 - q ")
  {
    MinusOneItems();
    MinusOneRendered([Lexeme("1"), Symbol('-'), Symbol('q')]);
  }

  lemma MinusOneRendered(p: seq<Item>)
    requires p == [Lexeme("1"), Symbol('-'), Symbol('q')]
    ensures Render(p) == "1 - q "
  {
    assert Render(p[2..]) == "q ";
    assert Render(p[1..]) == "- q ";
  }

  lemma MinusOneItems()
    ensures ToPostfix("q(-1)") == Ok([Lexeme("1"), Symbol('-'), Symbol('q')])
  {
    MinusOneOpen();
    MinusOneNumeral("q(-1)");
    MinusOneClose([Lexeme("1")]);
  }

  /** The numeral: "1" is copied as one lexeme. */
  lemma MinusOneNumeral(s: string)
    requires s == "q(-1)"
    ensures Convert(s, 3, ['q', '(', '-'], []) == Convert(s, 4, ['q', '(', '-'], [Lexeme("1")])
  {
    assert |s| == 5 && s[3] == '1' && s[4] == ')';
    assert NumberEnd(s, 4) == 4;
    assert NumberEnd(s, 3) == 4;
    NumberStep(s, 3, 4, ['q', '(', '-'], []);
    assert s[3..4] == "1";
    assert [] + [Lexeme(s[3..4])] == [Lexeme("1")];
  }

  /** Up to the numeral: q and '(' are pushed, then '-' pops nothing and is pushed. */
  lemma MinusOneOpen()
    ensures Convert("q(-1)", 0, [], []) == Convert("q(-1)", 3, ['q', '(', '-'], [])
  {
    MinusOneOpenSteps("q(-1)");
  }

  lemma MinusOneOpenSteps(s: string)
    requires s == "q(-1)"
    ensures Convert(s, 0, [], []) == Convert(s, 3, ['q', '(', '-'], [])
  {
    assert |s| == 5 && s[0] == 'q' && s[1] == '(' && s[2] == '-';
    PushStep(s, 0, 1, [], []);
    assert [] + [s[0]] == ['q'];
    PushStep(s, 1, 2, ['q'], []);
    assert ['q'] + [s[1]] == ['q', '('];
    OperatorStep(s, 2, 3, ['q', '('], [], []);
    assert ['q', '('] + [] == ['q', '('] && ['q', '('] + [s[2]] == ['q', '(', '-'];
    assert [] + Popped([]) == [];
  }

  /** The ')' pops '-', drops the '(' and pops q. */
  lemma MinusOneClose(out: seq<Item>)
    requires out == [Lexeme("1")]
    ensures Convert("q(-1)", 4, ['q', '(', '-'], out) == Ok([Lexeme("1"), Symbol('-'), Symbol('q')])
  {
    var s := "q(-1)";
    CloseCallStep(s, 4, 5, [], 'q', ['-'], out);
    assert [] + ['q'] + ['('] + ['-'] == ['q', '(', '-'];
    var items := out + (Popped(['-']) + [Symbol('q')]);
    assert items == [Lexeme("1"), Symbol('-'), Symbol('q')];
    StepEnd(s, [], items);
  }

  /** "1 - q " evaluates the numeral, then finds one value under the '-'. */
  lemma MinusOneEvaluate(lib: MathLib)
    ensures Evaluate("1 - q ", lib) == Err(InvalidExpression)
  {
    var ws := ["1", "-", "q"];
    MinusOneTokens();
    MinusOneRun(ws, lib);
  }

  lemma MinusOneTokens()
    ensures Tokens("1 - q ") == ["1", "-", "q"]
  {
    var ws := ["1", "-", "q"];
    assert Spaced(ws[2..]) == "q ";
    assert Spaced(ws[1..]) == "- q ";
    assert Spaced(ws) == "1 - q ";
    TokensOfSpaced(ws);
  }

  lemma MinusOneRun(ws: seq<string>, lib: MathLib)
    requires ws == ["1", "-", "q"]
    ensures Run(ws, [], lib) == Err(InvalidExpression)
  {
    OneDigit('1');
    RunNumber("1", ws[1..], [], lib);
    assert [ws[0]] + ws[1..] == ws;
    assert Classify("-") == Operator('-');
  }

  /** The quotient by zero (lines 194-195). */
  lemma DivideByZero(lib: MathLib)
    ensures Calculate("5/0", lib) == Err(DivisionByZero)
  {
    var e := Apply('/', Number("5"), Number("0"));
    QuotientKeys(e);
    QuotientValue(e, lib);
    CalculateValue(e, lib);
  }

  lemma QuotientKeys(e: Expr)
    requires e == Apply('/', Number("5"), Number("0"))
    ensures WellFormed(e) && Typed(Keys(e), 0) == "5/0"
  {
    assert IsLexeme("5") && IsLexeme("0");
    var ks := Keys(e);
    assert ks == [Press('5'), Press('/'), Press('0')];
    assert Typed(ks[2..], 0) == "0";
    assert Typed(ks[1..], 0) == "/0";
  }

  lemma QuotientValue(e: Expr, lib: MathLib)
    requires e == Apply('/', Number("5"), Number("0"))
    ensures Value(e, lib) == Err(DivisionByZero)
  {
    OneDigit('5');
    OneDigit('0');
  }

  /** The common logarithm of zero (lines 216-217). */
  lemma LogOfZero(lib: MathLib)
    ensures Calculate("log(0)", lib) == Err(NonPositiveLogarithm)
  {
    var e := Call(Log, Number("0"));
    LogKeys(e);
    LogValue(e, lib);
    CalculateValue(e, lib);
  }

  lemma LogKeys(e: Expr)
    requires e == Call(Log, Number("0"))
    ensures WellFormed(e) && Typed(Keys(e), 0) == "log(0)"
  {
    assert IsLexeme("0");
    var ks := Keys(e);
    assert ks == [Key.Function(Log), Press('('), Press('0'), Press(')')];
    assert Typed(ks[3..], 0) == ")";
    assert Typed(ks[2..], 0) == "0)";
    assert Typed(ks[1..], 0) == "(0)";
  }

  lemma LogValue(e: Expr, lib: MathLib)
    requires e == Call(Log, Number("0"))
    ensures Value(e, lib) == Err(NonPositiveLogarithm)
  {
    OneDigit('0');
  }

  /** A run of digits and '.' with two points is copied through by the converter and then
      rejected by Double.parseDouble (line 178). */
  lemma TwoPoints(lib: MathLib)
    ensures Calculate("1.2.3", lib) == Err(Malformed("1.2.3"))
  {
    var s := "1.2.3";
    TwoPointsRejected(s);
    NumeralAlone(s, lib);
  }

  lemma TwoPointsRejected(s: string)
    requires s == "1.2.3"
    ensures forall k :: 0 <= k < |s| ==> IsNumberChar(s[k])
    ensures ParseDouble(s) == None
  {
    assert TrimsTo(s, 0, |s|);
    TrimSpec(s, 0, |s|);
    assert s[0..|s|] == s;
    assert DotIndex(s) == 1 by {
      assert s[0] != '.' && s[1] == '.';
      assert DotIndex(s) == 1 + DotIndex(s[1..]);
    }
    assert s[2..][1] == '.';
  }

  /** A lone '.' is copied through as a lexeme, but the evaluator does not take it for a number
      (line 176) and has no other branch for it (line 230). */
  lemma LoneDot(lib: MathLib)
    ensures Calculate(".", lib) == Err(InvalidToken("."))
  {
    NumeralAlone(".", lib);
  }
}
