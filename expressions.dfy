/** A reference meaning for the calculator's input: expression trees, the text the calculator's
    buttons type for them, the textbook postfix order, and their value. The converter and the
    evaluator are proved against these in module Correctness. */
module Expressions {
  import opened Failures
  import opened Symbols
  import opened Numerals
  import opened Rewrite
  import opened Shunting
  import opened Evaluation

  /** A number lexeme, a binary operation, a function applied to a parenthesised argument, or a
      parenthesised expression. */
  datatype Expr =
    | Number(lexeme: string)
    | Apply(op: char, left: Expr, right: Expr)
    | Call(name: Name, arg: Expr)
    | Group(inner: Expr)

  /** How tightly an expression binds as an operand: its operator's precedence, or 4 (above every
      operator) for a number, a call or a group. */
  function Binding(e: Expr): (b: nat)
    ensures b >= 1
  {
    match e
    case Apply(op, _, _) => if IsOperator(op) then Precedence(op) else 4
    case _ => 4
  }

  /** The trees the text denotes under the calculator's precedence table: an operand that binds
      more loosely than its operator is written as a Group, and, since equal precedence groups to
      the left, so is a right operand that binds exactly as tightly. */
  predicate WellFormed(e: Expr) {
    match e
    case Number(lexeme) => IsLexeme(lexeme)
    case Apply(op, left, right) =>
      IsOperator(op) && Binding(left) >= Precedence(op) && Binding(right) > Precedence(op) &&
      WellFormed(left) && WellFormed(right)
    case Call(_, arg) => WellFormed(arg)
    case Group(inner) => WellFormed(inner)
  }

  /** A number lexeme as the converter cuts it out of the text: a nonempty run of digits and
      '.', other than a lone '.' (which the evaluator does not take for a number). Whether
      Double.parseDouble accepts it is left to evaluation. */
  predicate IsLexeme(s: string) {
    s != [] && s != "." && forall k :: 0 <= k < |s| ==> IsNumberChar(s[k])
  }

  /** The button presses that type an expression. */
  function Keys(e: Expr): seq<Key> {
    match e
    case Number(lexeme) => Presses(lexeme)
    case Apply(op, left, right) => Keys(left) + [Press(op)] + Keys(right)
    case Call(name, arg) => [Key.Function(name), Press('(')] + Keys(arg) + [Press(')')]
    case Group(inner) => [Press('(')] + Keys(inner) + [Press(')')]
  }

  function Presses(s: string): (ks: seq<Key>)
    ensures |ks| == |s|
    ensures forall i :: 0 <= i < |s| ==> ks[i] == Press(s[i])
  {
    if s == [] then [] else [Press(s[0])] + Presses(s[1..])
  }

  /** The length of an expression's text. */
  function Size(e: Expr): nat {
    match e
    case Number(lexeme) => |lexeme|
    case Apply(_, left, right) => Size(left) + 1 + Size(right)
    case Call(_, arg) => Size(arg) + 3
    case Group(inner) => Size(inner) + 2
  }

  /** The text the converter sees for an expression: function names already rewritten. */
  function Print(e: Expr): (text: string)
    ensures |text| == Size(e)
  {
    match e
    case Number(lexeme) => lexeme
    case Apply(op, left, right) => Print(left) + [op] + Print(right)
    case Call(name, arg) => [Code(name), '('] + Print(arg) + ")"
    case Group(inner) => "(" + Print(inner) + ")"
  }

  /** Textbook postfix order: operands first, then the operator or function. */
  function PostfixOf(e: Expr): seq<Item> {
    match e
    case Number(lexeme) => [Lexeme(lexeme)]
    case Apply(op, left, right) => PostfixOf(left) + PostfixOf(right) + [Symbol(op)]
    case Call(name, arg) => PostfixOf(arg) + [Symbol(Code(name))]
    case Group(inner) => PostfixOf(inner)
  }

  /** The value of an expression: the left operand's failure first, then the right's, then the
      operation's own. */
  function Value(e: Expr, lib: MathLib): Result<real> {
    match e
    case Number(lexeme) =>
      (match ParseDouble(lexeme) case None => Err(Malformed(lexeme)) case Some(v) => Ok(v))
    case Apply(op, left, right) =>
      (match Value(left, lib)
       case Err(x) => Err(x)
       case Ok(a) =>
         match Value(right, lib)
         case Err(x) => Err(x)
         case Ok(b) => if IsOperator(op) then Binary(op, a, b, lib) else Err(InvalidToken([op])))
    case Call(name, arg) =>
      (match Value(arg, lib) case Err(x) => Err(x) case Ok(a) => Unary(Code(name), a, lib))
    case Group(inner) => Value(inner, lib)
  }

  lemma {:induction false} TypedAppend(a: seq<Key>, b: seq<Key>, stage: nat)
    ensures Typed(a + b, stage) == Typed(a, stage) + Typed(b, stage)
  {
    if a != [] {
      assert (a + b)[1..] == a[1..] + b;
      TypedAppend(a[1..], b, stage);
    } else {
      assert a + b == b;
    }
  }

  lemma {:induction false} TypedPresses(s: string, stage: nat)
    ensures Typed(Presses(s), stage) == s
  {
    if s != [] {
      assert Presses(s)[1..] == Presses(s[1..]);
      TypedPresses(s[1..], stage);
    }
  }

  /** Pressing an expression's keys and rewriting the names gives its printed text. */
  lemma {:induction false} TypedKeys(e: Expr)
    ensures Typed(Keys(e), 6) == Print(e)
    decreases e, 1
  {
    match e
    case Number(lexeme) => TypedPresses(lexeme, 6);
    case Apply(_, _, _) => TypedApply(e);
    case Call(_, _) => TypedCall(e);
    case Group(_) => TypedGroup(e);
  }

  lemma TypedApply(e: Expr)
    requires e.Apply?
    ensures Typed(Keys(e), 6) == Print(e)
    decreases e, 0
  {
    TypedKeys(e.left);
    TypedKeys(e.right);
    TypedAround(Keys(e.left), [Press(e.op)], Keys(e.right));
  }

  lemma TypedCall(e: Expr)
    requires e.Call?
    ensures Typed(Keys(e), 6) == Print(e)
    decreases e, 0
  {
    TypedKeys(e.arg);
    TypedAround([Key.Function(e.name), Press('(')], Keys(e.arg), [Press(')')]);
    TypedAppend([Key.Function(e.name)], [Press('(')], 6);
    assert [Key.Function(e.name), Press('(')] == [Key.Function(e.name)] + [Press('(')];
  }

  lemma TypedGroup(e: Expr)
    requires e.Group?
    ensures Typed(Keys(e), 6) == Print(e)
    decreases e, 0
  {
    TypedKeys(e.inner);
    TypedAround([Press('(')], Keys(e.inner), [Press(')')]);
  }

  lemma TypedAround(a: seq<Key>, b: seq<Key>, c: seq<Key>)
    ensures Typed(a + b + c, 6) == Typed(a, 6) + Typed(b, 6) + Typed(c, 6)
  {
    TypedAppend(a + b, c, 6);
    TypedAppend(a, b, 6);
  }

  /** An expression's keys are all calculator buttons. */
  lemma {:induction false} KeysValid(e: Expr)
    requires WellFormed(e)
    ensures ValidKeys(Keys(e))
  {
    match e
    case Number(lexeme) =>
    case Apply(op, left, right) =>
      KeysValid(left);
      KeysValid(right);
    case Call(name, arg) =>
      KeysValid(arg);
    case Group(inner) =>
      KeysValid(inner);
  }
}
