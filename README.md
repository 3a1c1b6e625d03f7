# Scientific calculator: the expression engine

This project models the part of `ScientificCalculator.java` that works out what the calculator
shows when `=` is pressed:
- `evaluateExpression` rewrites the six function names to one-character codes;
- `infixToPostfix` turns the text into postfix order with a shunting-yard pass over a character
  stack;
- `evaluatePostfix` splits the postfix string into tokens and evaluates them with a stack of
  values.

The helpers `isFunction`, `isOperator` and `precedence` classify characters.

Each Java exception becomes a value of `Failures.Error`, carried in a `Result`.

The two loops and their composition are modelled twice:
- as imperative methods with the same control flow: the loops `Shunting.InfixToPostfix` and
  `Evaluation.EvaluatePostfix`, and `Engine.EvaluateExpression`, which calls them in turn;
- as functions (`Shunting.Convert`, `Evaluation.Run`, `Engine.Calculate`), which each method is
  proved to compute exactly.

The properties are proved about those functions. The Java stacks and the `StringBuilder` are
local variables of the source methods, so they are local `seq` variables here.

Three layers of properties are proved:
- Per-step facts, each matching one branch of the source: what `)` pops and when it fails,
  what an operator pops, the end-of-input drain, and the arity and domain checks of the
  evaluator.
- Whole-pass facts that hold for every input, well formed or not (module `Output`):
  - the postfix output holds the number runs of the input, unchanged and in order, and no
    parenthesis;
  - a character with no branch makes the pass fail, and the pass fails only with mismatched
    parentheses or with the first such character;
  - on text whose characters all have a branch, the pass succeeds exactly when the parentheses
    are balanced: no `)` without an open group, and every group closed by the end.
- Correctness against a reference meaning (modules `Expressions` and `Correctness`). An `Expr`
  tree is typed with the calculator's buttons. Precedence and left-to-right grouping decide
  which trees the text denotes. For every such tree:
  - the rewriting yields its printed text;
  - the converter yields its textbook postfix order;
  - the evaluator yields its value, or the first error its evaluation meets.

Module `Samples` works through concrete inputs:
- `2^3^2` groups to the left;
- `sqrt(-1)` fails with InvalidExpression;
- `5/0` and `log(0)` fail with their domain errors;
- `(2+3` and `2+3)` fail with MismatchedParentheses;
- `pi` fails with InvalidCharacter;
- `1.2.3` is rejected by `Double.parseDouble`;
- a lone `.` is an invalid token.

Three facts about the code shape what the model does:
- The code has six functions (`sin`, `cos`, `tan`, `log`, `ln`, `sqrt`). It has no constants,
  no inverse functions and no separate domain-error kind. `pi` fails as an invalid character.
- There is no unary minus. In `sqrt(-1)`, `ln(-5)` and `(-1)*x` the `-` is a binary operator
  with one operand, so these fail with InvalidExpression.
- The evaluator's "Invalid token" branch can be reached: a lone `.` typed with the `.` button
  gets there.

## Model

| member | source | states |
|---|---|---|
| Symbols.Precedence | ScientificCalculator.java:155-168 | precedence is at most 3, and positive exactly for the five operators; `(`, the function codes and every other character get 0 |
| Symbols.PrecedenceRanks | ScientificCalculator.java:155-168 | `^` binds strictly tighter than `*` and `/`, which bind strictly tighter than `+` and `-`; two operators tie exactly within those groups |
| Symbols.ClassesDisjoint | ScientificCalculator.java:102-132 | the character classes the converter tests (number characters, function codes, `(`, `)`, operators) do not overlap, so the order of its tests decides nothing |
| Rewrite.Code | ScientificCalculator.java:78-83 | each of the six names is rewritten to a character that `isFunction` accepts |
| Rewrite.ReplaceAll | ScientificCalculator.java:78-83 | a `replaceAll` whose replacement is no longer than its pattern never lengthens the text |
| Rewrite.ReplaceAbsent | ScientificCalculator.java:78-83 | text in which the pattern's first character never occurs comes back unchanged |
| Rewrite.RewriteNames | ScientificCalculator.java:78-83 | the six-call chain never lengthens the text |
| Rewrite.RewriteNamesAbsent | ScientificCalculator.java:78-83 | text without `s`, `c`, `t` or `l` passes the chain unchanged |
| Rewrite.RewriteStage | ScientificCalculator.java:78-83 | one `replaceAll` of the chain, applied to button-typed text, turns exactly the keys of its own name into the code and leaves every other key's text unchanged |
| Rewrite.RewriteTyped | ScientificCalculator.java:78-83 | the six `replaceAll` calls, in their order, turn text typed with the calculator's buttons into the same key sequence with every function name replaced by its code and nothing else changed (no name is matched inside another or across two keys) |
| Engine.EvaluateExpression | ScientificCalculator.java:76-92 | the method (six rewrites, conversion, evaluation, with the first failing stage's error) returns exactly `Calculate` |
| Engine.Calculate | ScientificCalculator.java:76-92 | the pipeline fails with MismatchedParentheses or InvalidCharacter exactly when the conversion fails, and then with the conversion's error: the first failing stage decides the error |
| Engine.CalculateTyped | ScientificCalculator.java:76-92 | on button-typed input the converter receives the text with every name already coded |
| Shunting.NumberEnd | ScientificCalculator.java:102-108 | the number lexeme that starts at i is all digits and `.` and stops at a non-number character or the end |
| Shunting.NumberEndUnique | ScientificCalculator.java:104-107 | that maximal run end is unique |
| Shunting.CopyNumber | ScientificCalculator.java:104-107 | the inner loop copies exactly the maximal run of digits and `.` to the output and stops after it |
| Shunting.PopBoundary | ScientificCalculator.java:128-130 | an operator of precedence p pops exactly the topmost entries of precedence at least p; the entry left on top, if any, binds less tightly |
| Shunting.OperatorPopsOperators | ScientificCalculator.java:128-130 | an incoming operator pops only operators binding at least as tightly as itself; `(` and the function codes are never popped by an operator |
| Shunting.PopWhileAtLeast | ScientificCalculator.java:128-130 | the operator's inner loop leaves the stack below the pop boundary and appends the popped entries, top first, each followed by a space |
| Shunting.ParenBoundary | ScientificCalculator.java:116-118 | `)` pops down to the topmost `(`: nothing above that boundary is `(`, and the entry below it is `(`, if there is one |
| Shunting.PopToOpenParen | ScientificCalculator.java:116-118 | the `)` inner loop leaves the stack up to the topmost `(` and appends everything above it, top first |
| Shunting.Popped | ScientificCalculator.java:116-118 | popping entries emits them in stack order: one item per entry, the k-th item emitted being the k-th entry from the top |
| Shunting.CloseParen | ScientificCalculator.java:115-126 | `)` fails exactly when there is no `(` on the stack, and then with MismatchedParentheses; otherwise it only pops (the new stack is a proper prefix of the old), and every entry it pops but the `(` is emitted |
| Shunting.CloseParenEffect | ScientificCalculator.java:115-126 | otherwise everything above the topmost `(` is emitted top first, the `(` is dropped, and a function code directly below it (and only that one entry) is emitted next |
| Shunting.CloseGroup | ScientificCalculator.java:115-126 | the method for `)` fails exactly when `CloseParen` does, and otherwise yields its new stack and its output string |
| Shunting.Drain | ScientificCalculator.java:137-143 | draining fails with MismatchedParentheses exactly when a parenthesis is still on the stack, and otherwise appends every entry, top first |
| Shunting.DrainStack | ScientificCalculator.java:137-143 | the final loop returns the drained output string, or the MismatchedParentheses failure |
| Shunting.Step | ScientificCalculator.java:100-135 | one pass consumes at least one character, all of them with a branch, and stays inside the text; it fails with InvalidCharacter(c) exactly when the character c it reads has no branch, with MismatchedParentheses exactly on a `)` with no `(` on the stack, and with no other error |
| Shunting.Convert | ScientificCalculator.java:99-145 | the conversion fails only with the two errors `infixToPostfix` throws: MismatchedParentheses, or InvalidCharacter of a character with no branch |
| Shunting.ScanToken | ScientificCalculator.java:100-134 | the loop body returns the new position, the new stack and the output string that the pass `Step` prescribes, or its error |
| Shunting.InfixToPostfix | ScientificCalculator.java:95-145 | the while loop returns exactly `PostfixText`, the rendering of the recursive pass, with its error cases |
| Shunting.RenderEnds | ScientificCalculator.java:99-144 | the postfix string is empty exactly when there is no item, and otherwise ends with the space written after the last item |
| Output.StepOutput | ScientificCalculator.java:100-135 | a successful pass read a character that has a branch, emitted one lexeme exactly when it read a number run (that run itself), emitted no parenthesis and pushed no `)` |
| Output.CloseStepOutput | ScientificCalculator.java:115-126 | what `)` emits holds no lexeme and no parenthesis |
| Output.OperatorStepOutput | ScientificCalculator.java:128-131 | what an operator emits holds no lexeme and no parenthesis, and it pushes no `)` |
| Output.PoppedAboveBoundary | ScientificCalculator.java:128-130 | no parenthesis lies above an operator's pop boundary |
| Output.DrainOutput | ScientificCalculator.java:137-143 | draining adds no lexeme and no parenthesis |
| Output.ConvertOutput | ScientificCalculator.java:99-135 | a successful rest of the loop from i appends exactly the number runs of the text from i as lexemes, adds no parenthesis, and every character from i on has a branch |
| Output.ConvertErrors | ScientificCalculator.java:99-135 | when the rest of the loop from i fails with InvalidCharacter, the character it names is the first one from i on that has no branch |
| Output.ToPostfixOutput | ScientificCalculator.java:95-145 | for every input: the output's lexemes are the input's maximal runs of digits and `.`, unchanged and in order, and the output holds no `(` or `)`; an input with any character that has no branch is rejected; a rejection is MismatchedParentheses or InvalidCharacter of the first character with no branch |
| Output.BalancedCounts | ScientificCalculator.java:112-126 | text whose parentheses are balanced from an open depth d holds exactly d more `)` than `(` |
| Output.BalancedStep | ScientificCalculator.java:100-134 | one pass on an accepted character keeps the `(` entries of the stack equal to the open depth and keeps `)` off the stack; it fails exactly on a `)` with no group open |
| Output.ConvertBalanced | ScientificCalculator.java:99-145 | over accepted characters, the rest of the loop succeeds exactly when the remaining text closes the groups whose `(` is on the stack and is balanced itself |
| Output.ToPostfixBalanced | ScientificCalculator.java:95-145 | on text made only of accepted characters, the conversion succeeds if and only if the parentheses are balanced, and otherwise fails with MismatchedParentheses: an unclosed `(` and an unopened `)` are both rejected |
| Correctness.PendingOps | ScientificCalculator.java:128-131 | the operators a well-formed sub-expression leaves on the stack bind at least as tightly as the sub-expression itself |
| Correctness.EmittedPostfix | ScientificCalculator.java:137-143 | what a sub-expression emitted, followed by its pending operators popped, is its textbook postfix order |
| Correctness.ConvertPrinted | ScientificCalculator.java:99-135 | the shunting-yard invariant: scanning a well-formed sub-expression pushes exactly its pending operators and emits exactly its emitted items, leaving what lies below untouched |
| Correctness.EndSteps | ScientificCalculator.java:137-143 | at the end of input the pending operators are popped onto the output |
| Correctness.ToPostfixPrinted | ScientificCalculator.java:95-145 | for every well-formed expression, `infixToPostfix` of its text is its textbook postfix order: precedence is respected and equal precedence, `^` included, groups to the left |
| Text.TrimSlice | ScientificCalculator.java:173 | `trim()` keeps a slice whose removed ends are all characters up to ' ' and whose kept ends are above ' ' |
| Text.TrimSpec | ScientificCalculator.java:173 | any slice of that shape is what `trim()` keeps |
| Text.Trim | ScientificCalculator.java:173 | `trim()` never lengthens the text, keeps no character up to ' ' at either end, and yields the empty string exactly when every character is up to ' ' |
| Text.Words | ScientificCalculator.java:173 | the words of a text are non-empty and hold no `\s` character |
| Text.Tokens | ScientificCalculator.java:173 | `trim().split("\\s+")` never yields an empty array |
| Text.TokensOfSpaced | ScientificCalculator.java:173 | trim and split give back exactly the words of text written with one space after each word; text with no words gives the single empty token |
| Correctness.TokensOfPostfix | ScientificCalculator.java:173 | splitting the converter's output string gives back exactly the postfix items' texts |
| Numerals.UnsignedAccepts | ScientificCalculator.java:178 | the number parser accepts an unsigned numeral exactly when it is digits and `.` with at most one `.` and at least one digit |
| Numerals.Unsigned | ScientificCalculator.java:178 | an accepted unsigned numeral is non-empty and its value is not negative |
| Numerals.ParseDouble | ScientificCalculator.java:178 | an accepted token is non-blank, and a negative value comes only from a leading `-` |
| Numerals.ParseDigits | ScientificCalculator.java:178 | a run of digits parses to the number it spells |
| Numerals.ParseNatText | ScientificCalculator.java:178 | reading the decimal text of a whole number gives that number back |
| Evaluation.Binary | ScientificCalculator.java:184-200 | `a op b` fails exactly for `/` with b == 0, with DivisionByZero |
| Evaluation.Unary | ScientificCalculator.java:205-227 | a function fails exactly for log10 or ln of a value <= 0 (NonPositiveLogarithm) and sqrt of a value < 0 (NegativeSquareRoot); sin, cos and tan never fail |
| Evaluation.Classify | ScientificCalculator.java:175-229 | a token is classified by its first character: empty exactly for the empty token, a numeral only after a digit, `-` or `.`, an operator or function only for the character `isOperator` or `isFunction` accepts |
| Evaluation.ApplyToken | ScientificCalculator.java:175-231 | one token: an empty token or a number parseDouble rejects is Malformed; an operator needs two values and a function one, else InvalidExpression; an unknown token is InvalidToken; on success the depth changes by +1, -1 or 0, nothing below the operands changes, and the top is `a op b` (b the former top) or `f(a)` |
| Evaluation.Apply | ScientificCalculator.java:175-231 | the loop body's method computes exactly `ApplyToken` |
| Evaluation.Run | ScientificCalculator.java:174-232 | the loop fails only with the evaluator's own errors, never the converter's, and a token it names is one of the tokens |
| Evaluation.Evaluate | ScientificCalculator.java:171-235 | `evaluatePostfix` fails only with the evaluator's own errors, and a token it names is one of the postfix string's tokens |
| Evaluation.Finish | ScientificCalculator.java:233-234 | the result is the single value left, and any other number of values is InvalidExpression |
| Evaluation.RunDepth | ScientificCalculator.java:174-231 | a successful run changes the stack depth by the tokens' net effect |
| Evaluation.EvaluateBalance | ScientificCalculator.java:233 | a postfix string evaluates only if it has exactly one more numeral than operators |
| Evaluation.RunAppend | ScientificCalculator.java:174 | the loop is sequential: two token sequences run as the first, then the second on the stack the first leaves |
| Evaluation.UnknownTokenFails | ScientificCalculator.java:230 | a token with no branch stops evaluation with InvalidToken once the loop reaches it |
| Evaluation.EvaluatePostfix | ScientificCalculator.java:171-235 | the for loop over the tokens returns exactly `Evaluate` |
| Correctness.RunNumber | ScientificCalculator.java:176-178 | a number lexeme is taken for a numeral and pushes its parsed value, or fails as Malformed |
| Correctness.RunOperator | ScientificCalculator.java:181-200 | an operator token over a and b (b on top) replaces them by `a op b`, or fails with `a op b`'s error |
| Correctness.RunFunction | ScientificCalculator.java:204-227 | a function token replaces its operand by `f(a)`, or fails with its domain error |
| Correctness.RunPostfix | ScientificCalculator.java:174-231 | running the postfix tokens of a well-formed expression pushes its value, or fails with its first error |
| Correctness.EvaluatePostfixOf | ScientificCalculator.java:171-235 | evaluatePostfix of the rendered postfix order of a well-formed expression is that expression's value |
| Expressions.TypedKeys | ScientificCalculator.java:78-83 | pressing an expression's keys and rewriting the names gives its printed text |
| Correctness.CalculateValue | ScientificCalculator.java:76-92 | end to end: typing a well-formed expression with the buttons and pressing `=` gives its value, or the first error its evaluation meets |
| Correctness.NumeralAlone | ScientificCalculator.java:102-108 | text made only of digits and `.` reaches parseDouble whole: a lone `.` is InvalidToken, anything else is the parsed value or Malformed |
| Samples.PowerGroupsLeft | ScientificCalculator.java:128-131 | `2^3^2` converts to `2 3 ^ 2 ^ `: `^` groups to the left |
| Samples.UnclosedGroup | ScientificCalculator.java:137-141 | `(2+3` fails with MismatchedParentheses at the end of input |
| Samples.UnopenedGroup | ScientificCalculator.java:116-121 | `2+3)` fails with MismatchedParentheses at the `)` |
| Samples.NoConstants | ScientificCalculator.java:133-134 | `pi` fails with InvalidCharacter('p') |
| Samples.SqrtOfMinusOne | ScientificCalculator.java:181 | `sqrt(-1)` fails with InvalidExpression: the `-` finds one operand |
| Samples.DivideByZero | ScientificCalculator.java:194-195 | `5/0` fails with DivisionByZero |
| Samples.LogOfZero | ScientificCalculator.java:216-217 | `log(0)` fails with NonPositiveLogarithm |
| Samples.OneDigit | ScientificCalculator.java:178 | a one-digit numeral parses to its digit |
| Samples.TwoPoints | ScientificCalculator.java:178 | `1.2.3` passes the converter and is rejected by parseDouble (Malformed) |
| Samples.LoneDot | ScientificCalculator.java:176 | a lone `.` passes the converter and is an invalid token for the evaluator |

## Left out

- The Swing user interface (ScientificCalculator.java:22-73, 237-241) is not modelled: the
  window, the button grid, `actionPerformed`, the "Error" display and `main`. The input buffer
  appears only as the sequence of buttons pressed (`Rewrite.Key`). This is the input for which
  the name rewriting is proved exact.
- Floating point is not modelled. Values are exact reals. `Math.sin`, `cos`, `tan`, `log10`,
  `log`, `sqrt`, `pow` and `toRadians` are the fields of a `MathLib` parameter about which
  nothing is required. So NaN and infinities, overflow and rounding are not modelled. The domain
  guards are kept exactly.
- `Double.parseDouble` is modelled on decimal numerals only: an optional sign, digits, at most
  one `.`, and at least one digit, read as an exact rational. Exponents, hexadecimal, type
  suffixes, `NaN` and `Infinity` are left out. They cannot reach it, because the converter
  copies only runs of digits and `.`.
- `Character.isDigit` is restricted to the ASCII digits. Other Unicode digits are not modelled,
  and the buttons cannot type them.
- `String.replaceAll` is modelled as literal, leftmost, non-overlapping replacement. This is
  exact for these six patterns, which hold no regular-expression operators.
- Two Java runtime exceptions are merged into `Malformed`: the empty token's `charAt(0)` and
  parseDouble's `NumberFormatException`. The exception message strings are modelled only as the
  kinds in `Failures.Error`.
- `String.trim` and the `\s` class are modelled on `char`. `trim` removes characters up to
  ' ', and `\s` is the six ASCII whitespace characters. Surrogate pairs are not modelled.
