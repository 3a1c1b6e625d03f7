/** evaluateExpression (ScientificCalculator.java:76-92): rewrite the function names, convert the
    result to postfix, evaluate the postfix. */
module Engine {
  import opened Failures
  import opened Rewrite
  import opened Shunting
  import opened Evaluation

  /** The pipeline as one function: the first failing stage decides the error. It fails with
      mismatched parentheses or an invalid character exactly when the conversion fails, and it
      succeeds only on text the converter accepts throughout. */
  function Calculate(expression: string, lib: MathLib): (r: Result<real>)
    ensures (r.Err? && (r.error.InvalidCharacter? || r.error.MismatchedParentheses?)) <==>
              PostfixText(RewriteNames(expression)).Err?
    ensures PostfixText(RewriteNames(expression)).Err? ==> r == Err(PostfixText(RewriteNames(expression)).error)
  {
    match PostfixText(RewriteNames(expression))
    case Err(e) => Err(e)
    case Ok(postfix) => Evaluate(postfix, lib)
  }

  /** evaluateExpression as the source writes it: six replaceAll calls, then the two passes. */
  method EvaluateExpression(expression: string, lib: MathLib) returns (r: Result<real>)
    ensures r == Calculate(expression, lib)
  {
    var text := expression;
    text := ReplaceAll(text, "sin", "s");
    text := ReplaceAll(text, "cos", "c");
    text := ReplaceAll(text, "tan", "t");
    text := ReplaceAll(text, "log", "g");
    text := ReplaceAll(text, "ln", "l");
    text := ReplaceAll(text, "sqrt", "q");
    var postfix := InfixToPostfix(text);
    if postfix.Err? {
      return Err(postfix.error);
    }
    r := EvaluatePostfix(postfix.value, lib);
  }

  /** On input typed with the calculator's buttons, the rewriting step hands the converter the
      text in which every function key is its one-character code. */
  lemma CalculateTyped(ks: seq<Key>, lib: MathLib)
    requires ValidKeys(ks)
    ensures Calculate(Typed(ks, 0), lib) ==
              match PostfixText(Typed(ks, 6)) case Err(e) => Err(e) case Ok(postfix) => Evaluate(postfix, lib)
  {
    RewriteTyped(ks);
  }
}
