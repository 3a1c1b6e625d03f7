/** Character classes and operator precedence: isFunction, isOperator and precedence
    (ScientificCalculator.java:147-168), and the digit test the converter and the evaluator share. */
module Symbols {

  /** Character.isDigit, restricted to the ASCII digits: the ten characters '0' to '9'. */
  predicate IsDigit(c: char) {
    '0' <= c <= '9'
  }

  /** A character that the converter copies into a number lexeme. */
  predicate IsNumberChar(c: char) {
    IsDigit(c) || c == '.'
  }

  /** The one-character codes that the six function names are rewritten to. */
  predicate IsFunction(c: char) {
    c == 's' || c == 'c' || c == 't' || c == 'g' || c == 'l' || c == 'q'
  }

  /** The five binary operators. */
  predicate IsOperator(c: char) {
    c == '+' || c == '-' || c == '*' || c == '/' || c == '^'
  }

  /** The characters the conversion loop has a branch for (ScientificCalculator.java:102-132):
      digits, '.', the six function codes, the parentheses and the five operators. */
  predicate IsAccepted(c: char) {
    IsNumberChar(c) || IsFunction(c) || c == '(' || c == ')' || IsOperator(c)
  }

  /** The character classes the converter tests (lines 102, 109, 112, 115, 127) do not overlap,
      so the order of its tests decides nothing: an accepted character falls in exactly one. */
  lemma ClassesDisjoint(c: char)
    ensures IsFunction(c) ==> !IsNumberChar(c) && c != '(' && c != ')' && !IsOperator(c)
    ensures IsOperator(c) ==> !IsNumberChar(c) && c != '(' && c != ')'
  {
  }

  /** Binding strength of a stack entry; '(' and the function codes fall to the default 0,
      so an incoming operator (precedence at least 1) never pops them. */
  function Precedence(c: char): (p: nat)
    ensures p <= 3
    ensures p > 0 <==> IsOperator(c)
  {
    match c
    case '^' => 3
    case '*' => 2
    case '/' => 2
    case '+' => 1
    case '-' => 1
    case _ => 0
  }

  /** The precedence levels are strictly ordered '^' above '*' and '/' above '+' and '-',
      with equal levels inside each group. */
  lemma PrecedenceRanks(a: char, b: char)
    requires IsOperator(a) && IsOperator(b)
    ensures Precedence(a) > Precedence(b) <==>
      (a == '^' && b != '^') || ((a == '*' || a == '/') && (b == '+' || b == '-'))
    ensures Precedence(a) == Precedence(b) <==>
      a == b || ((a == '*' || a == '/') && (b == '*' || b == '/')) || ((a == '+' || a == '-') && (b == '+' || b == '-'))
  {
  }
}
