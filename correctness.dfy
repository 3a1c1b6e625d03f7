/** What the two passes compute on text typed with the calculator's buttons: for every well-formed
    expression, infixToPostfix produces its textbook postfix order, and evaluatePostfix produces
    its value. The shunting-yard proof follows the converter through the printed text one
    sub-expression at a time, tracking the operators that a sub-expression leaves on the stack
    (Pending) and the items it has already emitted (Emitted). */
module Correctness {
  import opened Failures
  import opened Symbols
  import opened Text
  import opened Numerals
  import opened Rewrite
  import opened Shunting
  import opened Evaluation
  import opened Engine
  import opened Expressions

  /** The operators a sub-expression leaves on the stack once its text is consumed: the operator
      chain down its right spine, outermost first (deepest in the stack). */
  function Pending(e: Expr): seq<char> {
    match e
    case Apply(op, _, right) => [op] + Pending(right)
    case _ => []
  }

  /** The items the converter has written by the time a sub-expression's text is consumed. */
  function Emitted(e: Expr): seq<Item> {
    match e
    case Number(lexeme) => [Lexeme(lexeme)]
    case Apply(_, left, right) => Emitted(left) + Popped(Pending(left)) + Emitted(right)
    case Call(name, arg) => Emitted(arg) + Popped(Pending(arg)) + [Symbol(Code(name))]
    case Group(inner) => Emitted(inner) + Popped(Pending(inner))
  }

  /** Every pending entry is an operator binding at least as tightly as the expression does. */
  lemma {:induction false} PendingOps(e: Expr)
    requires WellFormed(e)
    ensures forall k :: 0 <= k < |Pending(e)| ==>
              IsOperator(Pending(e)[k]) && Precedence(Pending(e)[k]) >= Binding(e)
    ensures Operators(Pending(e))
  {
    match e
    case Apply(op, left, right) =>
      PendingOps(right);
      forall k | 0 <= k < |Pending(e)|
        ensures IsOperator(Pending(e)[k]) && Precedence(Pending(e)[k]) >= Binding(e)
      {
        if k > 0 {
          assert Pending(e)[k] == Pending(right)[k - 1];
        }
      }
    case _ =>
  }

  /** The items emitted so far and the pending operators popped at the end make up the textbook
      postfix order. */
  lemma {:induction false} EmittedPostfix(e: Expr)
    ensures Emitted(e) + Popped(Pending(e)) == PostfixOf(e)
  {
    match e
    case Number(_) =>
      assert Emitted(e) + Popped(Pending(e)) == Emitted(e);
    case Apply(op, left, right) =>
      EmittedPostfix(left);
      EmittedPostfix(right);
      EmittedApply(e);
    case Call(_, arg) =>
      EmittedPostfix(arg);
      assert Emitted(e) + Popped(Pending(e)) == Emitted(e);
    case Group(inner) =>
      EmittedPostfix(inner);
      assert Emitted(e) + Popped(Pending(e)) == Emitted(e);
  }

  /** The step of EmittedPostfix for a binary operation: its operator is the last of its pending
      entries to be popped, after the right operand's. */
  lemma EmittedApply(e: Expr)
    requires e.Apply?
    requires Emitted(e.left) + Popped(Pending(e.left)) == PostfixOf(e.left)
    requires Emitted(e.right) + Popped(Pending(e.right)) == PostfixOf(e.right)
    ensures Emitted(e) + Popped(Pending(e)) == PostfixOf(e)
  {
    var right := e.right;
    assert ([e.op] + Pending(right))[1..] == Pending(right);
    assert Popped(Pending(e)) == Popped(Pending(right)) + [Symbol(e.op)];
    assert Emitted(e) + Popped(Pending(e)) ==
           PostfixOf(e.left) + (Emitted(right) + Popped(Pending(right))) + [Symbol(e.op)];
  }

  /** An operator whose precedence is above the top of `below` and at most that of every entry
      of `above` pops exactly `above`. */
  lemma {:induction false} PopBoundaryAt(below: seq<char>, above: seq<char>, p: nat)
    requires AtLeast(above, p)
    requires below == [] || Precedence(below[|below| - 1]) < p
    ensures PopBoundary(below + above, p) == |below|
  {
    var stack := below + above;
    if above == [] {
      assert stack == below;
    } else {
      var n := |above| - 1;
      assert stack[|stack| - 1] == above[n];
      assert stack[..|stack| - 1] == below + above[..n];
      PopBoundaryAt(below, above[..n], p);
    }
  }

  /** A ')' on a stack whose topmost '(' has `above` over it pops exactly `above`. */
  lemma {:induction false} ParenBoundaryAbove(below: seq<char>, above: seq<char>)
    requires forall k :: 0 <= k < |above| ==> above[k] != '('
    ensures ParenBoundary(below + ['('] + above) == |below| + 1
  {
    var stack := below + ['('] + above;
    if above != [] {
      var n := |above| - 1;
      assert stack[|stack| - 1] == above[n];
      assert stack[..|stack| - 1] == below + ['('] + above[..n];
      ParenBoundaryAbove(below, above[..n]);
    }
  }

  /** The ')' that closes a group whose content left only operators on the stack. */
  lemma CloseOver(below: seq<char>, above: seq<char>)
    requires Operators(above)
    ensures CloseParen(below + ['('] + above) ==
              if below != [] && IsFunction(below[|below| - 1])
              then Ok((below[..|below| - 1], Popped(above) + [Symbol(below[|below| - 1])]))
              else Ok((below, Popped(above)))
  {
    var stack := below + ['('] + above;
    ParenBoundaryAbove(below, above);
    var k := |below| + 1;
    assert stack[..k - 1] == below;
    assert stack[k..] == above;
  }

  /** Text w occurs in s at position i. */
  predicate At(s: string, i: nat, w: string) {
    i + |w| <= |s| && forall k :: 0 <= k < |w| ==> s[i + k] == w[k]
  }

  /** An occurrence of a + b is an occurrence of a followed by one of b. */
  lemma AtAppend(s: string, i: nat, a: string, b: string)
    ensures At(s, i, a + b) <==> At(s, i, a) && At(s, i + |a|, b)
  {
    if At(s, i, a + b) {
      forall k | 0 <= k < |a| ensures s[i + k] == a[k] {
        assert (a + b)[k] == a[k];
      }
      forall k | 0 <= k < |b| ensures s[i + |a| + k] == b[k] {
        assert (a + b)[|a| + k] == b[k];
      }
    }
    if At(s, i, a) && At(s, i + |a|, b) {
      forall k | 0 <= k < |a + b| ensures s[i + k] == (a + b)[k] {
        if k >= |a| {
          assert s[i + |a| + (k - |a|)] == b[k - |a|];
        }
      }
    }
  }

  /** The stack a sub-expression may start on: empty, or with a top that is neither a function
      code nor an operator binding as tightly as the sub-expression. */
  predicate Fits(stack: seq<char>, e: Expr) {
    stack == [] || (Precedence(stack[|stack| - 1]) < Binding(e) && !IsFunction(stack[|stack| - 1]))
  }

  /** The converter run from (i, stack, out) ends as the run from (j, st, o) does. */
  predicate Leads(s: string, i: nat, stack: seq<char>, out: seq<Item>, j: nat, st: seq<char>, o: seq<Item>)
    requires i <= |s| && j <= |s|
  {
    Convert(s, i, stack, out) == Convert(s, j, st, o)
  }

  /** Every entry binds at least as tightly as precedence p. */
  predicate AtLeast(t: seq<char>, p: nat) {
    forall k :: 0 <= k < |t| ==> Precedence(t[k]) >= p
  }

  /** Every entry is an operator. */
  predicate Operators(t: seq<char>) {
    forall k :: 0 <= k < |t| ==> IsOperator(t[k])
  }

  /** The text at i is a call of the function code f whose ')' is at b. */
  predicate CallText(s: string, i: nat, b: nat, f: char) {
    i + 2 <= b < |s| && s[i] == f && IsFunction(f) && s[i + 1] == '(' && s[b] == ')'
  }

  /** The text at i is a group whose ')' is at b. */
  predicate GroupText(s: string, i: nat, b: nat) {
    i + 1 <= b < |s| && s[i] == '(' && s[b] == ')'
  }

  /** The text of a binary operation at i: the left operand, the operator at j, the right
      operand just after it. */
  lemma AtApply(s: string, i: nat, j: nat, a: string, op: char, b: string)
    requires j == i + |a| && At(s, i, a + [op] + b)
    ensures At(s, i, a) && j < |s| && s[j] == op && At(s, j + 1, b)
  {
    AtAppend(s, i, a + [op], b);
    AtAppend(s, i, a, [op]);
    assert s[j] == [op][0];
  }

  /** The text of a call at i: the code, '(' at i + 1, the argument, ')' at j. */
  lemma AtCall(s: string, i: nat, j: nat, f: char, a: string)
    requires j == i + 2 + |a| && IsFunction(f) && At(s, i, [f, '('] + a + ")")
    ensures CallText(s, i, j, f) && At(s, i + 2, a)
  {
    AtAppend(s, i, [f, '('] + a, ")");
    AtAppend(s, i, [f, '('], a);
    assert s[i] == [f, '('][0] && s[i + 1] == [f, '('][1];
    assert s[j] == ")"[0];
  }

  /** The text of a group at i: '(', the content, ')' at j. */
  lemma AtGroup(s: string, i: nat, j: nat, a: string)
    requires j == i + 1 + |a| && At(s, i, "(" + a + ")")
    ensures GroupText(s, i, j) && At(s, i + 1, a)
  {
    AtAppend(s, i, "(" + a, ")");
    AtAppend(s, i, "(", a);
    assert s[i] == "("[0] && s[j] == ")"[0];
  }

  /** Reading a function code or '(' pushes it. */
  lemma PushStep(s: string, i: nat, j: nat, stack: seq<char>, out: seq<Item>)
    requires i < |s| && j == i + 1 && (IsFunction(s[i]) || s[i] == '(')
    ensures Leads(s, i, stack, out, j, stack + [s[i]], out)
  {
    assert Step(s, i, stack) == Ok(Move(i + 1, stack + [s[i]], []));
    ConvertStep(s, i, stack, out);
    assert out + [] == out;
  }

  /** Reading an operator pops the entries above its pop boundary and pushes it. */
  lemma PopStep(s: string, i: nat, stack: seq<char>, out: seq<Item>)
    requires i < |s| && IsOperator(s[i])
    ensures var k := PopBoundary(stack, Precedence(s[i]));
            Convert(s, i, stack, out) == Convert(s, i + 1, stack[..k] + [s[i]], out + Popped(stack[k..]))
  {
    var k := PopBoundary(stack, Precedence(s[i]));
    assert Step(s, i, stack) == Ok(Move(i + 1, stack[..k] + [s[i]], Popped(stack[k..])));
    ConvertStep(s, i, stack, out);
  }

  /** Reading an operator that binds no tighter than the entries `above` and tighter than the
      top of `below` pops exactly `above` and pushes the operator. */
  lemma OperatorStep(s: string, i: nat, j: nat, below: seq<char>, above: seq<char>, out: seq<Item>)
    requires i < |s| && j == i + 1 && IsOperator(s[i])
    requires AtLeast(above, Precedence(s[i]))
    requires below == [] || Precedence(below[|below| - 1]) < Precedence(s[i])
    ensures Convert(s, i, below + above, out) == Convert(s, j, below + [s[i]], out + Popped(above))
  {
    var stack := below + above;
    PopBoundaryAt(below, above, Precedence(s[i]));
    PopStep(s, i, stack, out);
    assert stack[..|below|] == below && stack[|below|..] == above;
  }

  /** Reading the ')' of a group whose content left only operators over its '(', when no
      function code lies below the '('. */
  lemma CloseGroupStep(s: string, i: nat, j: nat, below: seq<char>, above: seq<char>, out: seq<Item>)
    requires i < |s| && j == i + 1 && s[i] == ')'
    requires Operators(above)
    requires below == [] || !IsFunction(below[|below| - 1])
    ensures j <= |s| && Leads(s, i, below + ['('] + above, out, j, below, out + Popped(above))
  {
    var stack := below + ['('] + above;
    CloseOver(below, above);
    assert Step(s, i, stack) == Ok(Move(i + 1, below, Popped(above)));
    ConvertStep(s, i, stack, out);
  }

  /** Reading the ')' of a call's argument that left only operators over its '(': they are
      popped, then the '(' is dropped and the function code f below it is popped. */
  lemma CloseCallStep(s: string, i: nat, j: nat, below: seq<char>, f: char, above: seq<char>, out: seq<Item>)
    requires i < |s| && j == i + 1 && s[i] == ')' && IsFunction(f)
    requires Operators(above)
    ensures Convert(s, i, below + [f] + ['('] + above, out) ==
            Convert(s, j, below, out + (Popped(above) + [Symbol(f)]))
  {
    var under := below + [f];
    var stack := under + ['('] + above;
    CloseOver(under, above);
    assert under[..|under| - 1] == below && under[|under| - 1] == f;
    assert Step(s, i, stack) == Ok(Move(i + 1, below, Popped(above) + [Symbol(f)]));
    ConvertStep(s, i, stack, out);
  }

  /** The converter around a group whose ')' is at b: '(' is pushed, the content leaves the
      operators `above` over it, and the ')' pops them and the '('. */
  lemma GroupSteps(s: string, i: nat, b: nat, stack: seq<char>, out: seq<Item>,
                   above: seq<char>, emitted: seq<Item>, c: nat, after: seq<char>, written: seq<Item>)
    requires GroupText(s, i, b)
    requires Leads(s, i + 1, stack + ['('], out, b, stack + ['('] + above, out + emitted)
    requires Operators(above)
    requires stack == [] || !IsFunction(stack[|stack| - 1])
    requires c == b + 1 && after == stack && written == out + (emitted + Popped(above))
    ensures c <= |s| && Leads(s, i, stack, out, c, after, written)
  {
    PushStep(s, i, i + 1, stack, out);
    CloseGroupStep(s, b, c, stack, above, out + emitted);
    assert out + emitted + Popped(above) == out + (emitted + Popped(above));
  }

  /** Reading a function code and its '(' pushes both. */
  lemma OpenCall(s: string, i: nat, b: nat, f: char, stack: seq<char>, out: seq<Item>)
    requires CallText(s, i, b, f)
    ensures Convert(s, i, stack, out) == Convert(s, i + 2, stack + [f] + ['('], out)
  {
    PushStep(s, i, i + 1, stack, out);
    PushStep(s, i + 1, i + 2, stack + [f], out);
  }

  /** The converter around a call whose ')' is at b: the code f and '(' are pushed, and the ')'
      pops the argument's operators, the '(' and f. */
  lemma CallSteps(s: string, i: nat, b: nat, f: char, stack: seq<char>, out: seq<Item>,
                  above: seq<char>, emitted: seq<Item>, c: nat, after: seq<char>, written: seq<Item>)
    requires CallText(s, i, b, f)
    requires Convert(s, i + 2, stack + [f] + ['('], out) == Convert(s, b, stack + [f] + ['('] + above, out + emitted)
    requires Operators(above)
    requires c == b + 1 && after == stack && written == out + (emitted + Popped(above) + [Symbol(f)])
    ensures Convert(s, i, stack, out) == Convert(s, c, after, written)
  {
    OpenCall(s, i, b, f, stack, out);
    CloseCallStep(s, b, c, stack, f, above, out + emitted);
    assert emitted + Popped(above) + [Symbol(f)] == emitted + (Popped(above) + [Symbol(f)]);
    assert out + emitted + (Popped(above) + [Symbol(f)]) == out + (emitted + (Popped(above) + [Symbol(f)]));
  }

  /** The converter reaching a binary operator at j after a left operand that left the
      operators `above` on the stack: the operator pops exactly them and is pushed. */
  lemma ApplySteps(s: string, i: nat, j: nat, a: nat, op: char, stack: seq<char>, out: seq<Item>,
                   above: seq<char>, emitted: seq<Item>)
    requires i <= j < |s| && a == j + 1 && s[j] == op && IsOperator(op)
    requires Convert(s, i, stack, out) == Convert(s, j, stack + above, out + emitted)
    requires AtLeast(above, Precedence(op))
    requires stack == [] || Precedence(stack[|stack| - 1]) < Precedence(op)
    ensures Convert(s, i, stack, out) == Convert(s, a, stack + [op], out + emitted + Popped(above))
  {
    OperatorStep(s, j, a, stack, above, out + emitted);
  }

  /** The converter through a left operand and its operator (from i to j, emitting the left
      operand's items and then the operators it pops), then through a right operand (from j to k). */
  lemma ApplyJoin(s: string, i: nat, j: nat, k: nat, op: char, stack: seq<char>, out: seq<Item>,
                  pending: seq<char>, left: seq<Item>, popped: seq<Item>, right: seq<Item>,
                  end: nat, after: seq<char>, written: seq<Item>)
    requires i <= j <= k <= |s|
    requires Convert(s, i, stack, out) == Convert(s, j, stack + [op], out + left + popped)
    requires Convert(s, j, stack + [op], out + left + popped) ==
             Convert(s, k, stack + [op] + pending, out + left + popped + right)
    requires end == k && after == stack + ([op] + pending) && written == out + (left + popped + right)
    ensures Convert(s, i, stack, out) == Convert(s, end, after, written)
  {
    assert stack + [op] + pending == stack + ([op] + pending);
    assert out + left + popped + right == out + (left + popped + right);
  }

  /** The shunting-yard invariant. Scanning the printed text of a well-formed expression (not
      followed by a digit or '.') pushes exactly its pending operators onto the stack and appends
      exactly its emitted items to the output, without touching what lies below. */
  lemma {:induction false} ConvertPrinted(e: Expr, s: string, i: nat, stack: seq<char>, out: seq<Item>)
    requires WellFormed(e)
    requires i + Size(e) <= |s| && At(s, i, Print(e))
    requires i + Size(e) < |s| ==> !IsNumberChar(s[i + Size(e)])
    requires Fits(stack, e)
    ensures Convert(s, i, stack, out) == Convert(s, i + Size(e), stack + Pending(e), out + Emitted(e))
    decreases e, 2
  {
    match e
    case Number(_) => ConvertNumber(e, s, i, stack, out);
    case Apply(_, _, _) => ConvertApply(e, s, i, stack, out);
    case Call(_, _) => ConvertCall(e, s, i, stack, out);
    case Group(_) => ConvertGroup(e, s, i, stack, out);
  }

  /** The text of a number: its lexeme is the maximal run of number characters at i. */
  lemma NumberParts(e: Expr, s: string, i: nat, stack: seq<char>, out: seq<Item>)
    requires e.Number? && WellFormed(e)
    requires i + Size(e) <= |s| && At(s, i, Print(e))
    requires i + Size(e) < |s| ==> !IsNumberChar(s[i + Size(e)])
    ensures i < |s| && IsNumberChar(s[i]) && i + Size(e) == NumberEnd(s, i)
    ensures stack + Pending(e) == stack && out + Emitted(e) == out + [Lexeme(s[i..i + Size(e)])]
  {
    var lexeme := e.lexeme;
    var j := i + |lexeme|;
    forall k | i <= k < j ensures IsNumberChar(s[k]) {
      assert s[k] == lexeme[k - i];
    }
    NumberEndUnique(s, i, j);
    assert s[i] == lexeme[0];
    assert s[i..j] == lexeme by {
      forall k | 0 <= k < |lexeme| ensures s[i..j][k] == lexeme[k] {
        assert s[i + k] == lexeme[k];
      }
    }
  }

  /** A number: its lexeme goes straight to the output. */
  lemma ConvertNumber(e: Expr, s: string, i: nat, stack: seq<char>, out: seq<Item>)
    requires e.Number? && WellFormed(e)
    requires i + Size(e) <= |s| && At(s, i, Print(e))
    requires i + Size(e) < |s| ==> !IsNumberChar(s[i + Size(e)])
    ensures Convert(s, i, stack, out) == Convert(s, i + Size(e), stack + Pending(e), out + Emitted(e))
  {
    NumberParts(e, s, i, stack, out);
    NumberStep(s, i, i + Size(e), stack, out);
  }

  /** Reading a number copies the maximal run of number characters as one lexeme. */
  lemma NumberStep(s: string, i: nat, j: nat, stack: seq<char>, out: seq<Item>)
    requires i < |s| && IsNumberChar(s[i])
    requires j == NumberEnd(s, i)
    ensures Convert(s, i, stack, out) == Convert(s, j, stack, out + [Lexeme(s[i..j])])
  {
    assert Step(s, i, stack) == Ok(Move(j, stack, [Lexeme(s[i..j])]));
    ConvertStep(s, i, stack, out);
  }

  /** The text of a binary operation: the left operand at i, the operator at j, the right operand
      after it; the left operand's pending operators bind at least as tightly as the operator,
      and the top of the stack less tightly; and its length, pending operators and emitted items
      in terms of its operands'. */
  lemma ApplyParts(e: Expr, s: string, i: nat, j: nat, k: nat, stack: seq<char>, out: seq<Item>)
    requires e.Apply? && WellFormed(e)
    requires i + Size(e) <= |s| && At(s, i, Print(e))
    requires i + Size(e) < |s| ==> !IsNumberChar(s[i + Size(e)])
    requires Fits(stack, e)
    requires j == i + Size(e.left) && k == j + 1 + Size(e.right)
    ensures WellFormed(e.left) && WellFormed(e.right)
    ensures j < |s| && s[j] == e.op && IsOperator(e.op) && !IsNumberChar(s[j])
    ensures At(s, i, Print(e.left)) && At(s, j + 1, Print(e.right))
    ensures Fits(stack, e.left) && Fits(stack + [e.op], e.right)
    ensures AtLeast(Pending(e.left), Precedence(e.op))
    ensures stack == [] || Precedence(stack[|stack| - 1]) < Precedence(e.op)
    ensures k == i + Size(e) && k <= |s| && (k < |s| ==> !IsNumberChar(s[k]))
    ensures stack + Pending(e) == stack + ([e.op] + Pending(e.right))
    ensures out + Emitted(e) == out + (Emitted(e.left) + Popped(Pending(e.left)) + Emitted(e.right))
  {
    AtApply(s, i, j, Print(e.left), e.op, Print(e.right));
    PendingOps(e.left);
  }

  /** A binary operation: the left operand's text, then the operator, which pops exactly the
      left operand's pending operators, then the right operand's text. */
  lemma ConvertApply(e: Expr, s: string, i: nat, stack: seq<char>, out: seq<Item>)
    requires e.Apply? && WellFormed(e)
    requires i + Size(e) <= |s| && At(s, i, Print(e))
    requires i + Size(e) < |s| ==> !IsNumberChar(s[i + Size(e)])
    requires Fits(stack, e)
    ensures Convert(s, i, stack, out) == Convert(s, i + Size(e), stack + Pending(e), out + Emitted(e))
    decreases e, 1
  {
    var j := i + Size(e.left);
    var k := j + 1 + Size(e.right);
    ApplyParts(e, s, i, j, k, stack, out);
    ApplyLeft(e, s, i, j, stack, out);
    ConvertPrinted(e.right, s, j + 1, stack + [e.op], out + Emitted(e.left) + Popped(Pending(e.left)));
    ApplyJoin(s, i, j + 1, k, e.op, stack, out,
              Pending(e.right), Emitted(e.left), Popped(Pending(e.left)), Emitted(e.right),
              i + Size(e), stack + Pending(e), out + Emitted(e));
  }

  /** The left operand's text, then the operator, which pops exactly the left operand's pending
      operators and is pushed. */
  lemma ApplyLeft(e: Expr, s: string, i: nat, j: nat, stack: seq<char>, out: seq<Item>)
    requires e.Apply? && WellFormed(e.left)
    requires j == i + Size(e.left) && j < |s| && s[j] == e.op && IsOperator(e.op) && !IsNumberChar(s[j])
    requires At(s, i, Print(e.left)) && Fits(stack, e.left)
    requires AtLeast(Pending(e.left), Precedence(e.op))
    requires stack == [] || Precedence(stack[|stack| - 1]) < Precedence(e.op)
    ensures Convert(s, i, stack, out) == Convert(s, j + 1, stack + [e.op], out + Emitted(e.left) + Popped(Pending(e.left)))
    decreases e, 0
  {
    ConvertPrinted(e.left, s, i, stack, out);
    ApplySteps(s, i, j, j + 1, e.op, stack, out, Pending(e.left), Emitted(e.left));
  }

  /** The text of a call: the code, '(' and the argument at i + 2, the ')' at b; and its length,
      pending operators (none) and emitted items in terms of its argument's. */
  lemma CallParts(e: Expr, s: string, i: nat, b: nat, stack: seq<char>, out: seq<Item>)
    requires e.Call? && WellFormed(e)
    requires i + Size(e) <= |s| && At(s, i, Print(e))
    requires b == i + 2 + Size(e.arg)
    ensures CallText(s, i, b, Code(e.name))
    ensures WellFormed(e.arg) && At(s, i + 2, Print(e.arg)) && !IsNumberChar(s[b])
    ensures Fits(stack + [Code(e.name)] + ['('], e.arg)
    ensures Operators(Pending(e.arg))
    ensures i + Size(e) == b + 1
    ensures stack + Pending(e) == stack
    ensures out + Emitted(e) == out + (Emitted(e.arg) + Popped(Pending(e.arg)) + [Symbol(Code(e.name))])
  {
    AtCall(s, i, b, Code(e.name), Print(e.arg));
    PendingOps(e.arg);
  }

  /** A function call: the code and the '(' are pushed, the argument's text follows, and the ')'
      pops the argument's pending operators, the '(' and the code. */
  lemma ConvertCall(e: Expr, s: string, i: nat, stack: seq<char>, out: seq<Item>)
    requires e.Call? && WellFormed(e)
    requires i + Size(e) <= |s| && At(s, i, Print(e))
    ensures Convert(s, i, stack, out) == Convert(s, i + Size(e), stack + Pending(e), out + Emitted(e))
    decreases e, 0
  {
    var f := Code(e.name);
    var b := i + 2 + Size(e.arg);
    CallParts(e, s, i, b, stack, out);
    ConvertPrinted(e.arg, s, i + 2, stack + [f] + ['('], out);
    CallSteps(s, i, b, f, stack, out, Pending(e.arg), Emitted(e.arg),
              i + Size(e), stack + Pending(e), out + Emitted(e));
  }

  /** The text of a group: '(' at i, the content at i + 1, the ')' at b; and its length, pending
      operators (none) and emitted items in terms of its content's. */
  lemma GroupParts(e: Expr, s: string, i: nat, b: nat, stack: seq<char>, out: seq<Item>)
    requires e.Group? && WellFormed(e)
    requires i + Size(e) <= |s| && At(s, i, Print(e))
    requires Fits(stack, e)
    requires b == i + 1 + Size(e.inner)
    ensures GroupText(s, i, b)
    ensures WellFormed(e.inner) && At(s, i + 1, Print(e.inner)) && !IsNumberChar(s[b])
    ensures Fits(stack + ['('], e.inner)
    ensures Operators(Pending(e.inner))
    ensures stack == [] || !IsFunction(stack[|stack| - 1])
    ensures i + Size(e) == b + 1
    ensures stack + Pending(e) == stack
    ensures out + Emitted(e) == out + (Emitted(e.inner) + Popped(Pending(e.inner)))
  {
    AtGroup(s, i, b, Print(e.inner));
    PendingOps(e.inner);
  }

  /** A parenthesised expression: the '(' is pushed and the ')' pops the inner pending
      operators and the '('; nothing else, as no function code is directly below it. */
  lemma ConvertGroup(e: Expr, s: string, i: nat, stack: seq<char>, out: seq<Item>)
    requires e.Group? && WellFormed(e)
    requires i + Size(e) <= |s| && At(s, i, Print(e))
    requires Fits(stack, e)
    ensures Leads(s, i, stack, out, i + Size(e), stack + Pending(e), out + Emitted(e))
    decreases e, 0
  {
    var b := i + 1 + Size(e.inner);
    GroupParts(e, s, i, b, stack, out);
    ConvertPrinted(e.inner, s, i + 1, stack + ['('], out);
    GroupSteps(s, i, b, stack, out, Pending(e.inner), Emitted(e.inner),
               i + Size(e), stack + Pending(e), out + Emitted(e));
  }

  /** Once the whole text is read, the operators left on the stack are popped onto the output. */
  lemma EndSteps(s: string, n: nat, above: seq<char>, emitted: seq<Item>)
    requires n == |s|
    requires Convert(s, 0, [], []) == Convert(s, n, [] + above, [] + emitted)
    requires forall k :: 0 <= k < |above| ==> IsOperator(above[k])
    ensures ToPostfix(s) == Ok(emitted + Popped(above))
  {
    assert [] + above == above && [] + emitted == emitted;
    StepEnd(s, above, emitted);
    assert '(' !in above && ')' !in above by {
      forall k | 0 <= k < |above| ensures above[k] != '(' && above[k] != ')' {
        assert IsOperator(above[k]);
      }
    }
  }

  /** infixToPostfix turns the text of every well-formed expression into its textbook postfix
      order: operator precedence and left-to-right grouping come out as the table prescribes. */
  lemma ToPostfixPrinted(e: Expr)
    requires WellFormed(e)
    ensures ToPostfix(Print(e)) == Ok(PostfixOf(e))
  {
    var s := Print(e);
    assert At(s, 0, s[0..]);
    assert s[0..] == s;
    ConvertPrinted(e, s, 0, [], []);
    PendingOps(e);
    EndSteps(s, 0 + Size(e), Pending(e), Emitted(e));
    EmittedPostfix(e);
  }

  /** The tokens of a list of items. */
  function Texts(items: seq<Item>): (ts: seq<string>)
    ensures |ts| == |items|
  {
    if items == [] then [] else [ItemText(items[0])] + Texts(items[1..])
  }

  lemma {:induction false} TextsAppend(a: seq<Item>, b: seq<Item>)
    ensures Texts(a + b) == Texts(a) + Texts(b)
  {
    if a == [] {
      assert a + b == b;
    } else {
      assert (a + b)[1..] == a[1..] + b;
      TextsAppend(a[1..], b);
    }
  }

  /** The postfix string is its items' texts, each followed by a space. */
  lemma {:induction false} RenderSpaced(items: seq<Item>)
    ensures Render(items) == Spaced(Texts(items))
  {
    if items != [] {
      RenderSpaced(items[1..]);
    }
  }

  /** An item that splits back into itself: non-empty, with no character trim() or split see as
      white space. */
  predicate Printable(x: Item) {
    ItemText(x) != [] && forall k :: 0 <= k < |ItemText(x)| ==> !IsTrimmed(ItemText(x)[k])
  }

  lemma {:induction false} PostfixPrintable(e: Expr)
    requires WellFormed(e)
    ensures PostfixOf(e) != []
    ensures forall k :: 0 <= k < |PostfixOf(e)| ==> Printable(PostfixOf(e)[k])
  {
    match e
    case Number(lexeme) =>
      assert IsNumberChar(lexeme[0]);
    case Apply(op, left, right) =>
      PostfixPrintable(left);
      PostfixPrintable(right);
      var p := PostfixOf(left) + PostfixOf(right);
      assert Printable(Symbol(op));
      forall k | 0 <= k < |PostfixOf(e)| ensures Printable(PostfixOf(e)[k]) {
        if k < |PostfixOf(left)| {
          assert PostfixOf(e)[k] == PostfixOf(left)[k];
        } else if k < |p| {
          assert PostfixOf(e)[k] == PostfixOf(right)[k - |PostfixOf(left)|];
        } else {
          assert PostfixOf(e)[k] == Symbol(op);
        }
      }
    case Call(name, arg) =>
      PostfixPrintable(arg);
      assert Printable(Symbol(Code(name)));
      forall k | 0 <= k < |PostfixOf(e)| ensures Printable(PostfixOf(e)[k]) {
        if k < |PostfixOf(arg)| {
          assert PostfixOf(e)[k] == PostfixOf(arg)[k];
        } else {
          assert PostfixOf(e)[k] == Symbol(Code(name));
        }
      }
    case Group(inner) =>
      PostfixPrintable(inner);
  }

  /** trim() and split("\\s+") give back exactly the tokens of the postfix order. */
  lemma TokensOfPostfix(e: Expr)
    requires WellFormed(e)
    ensures Tokens(Render(PostfixOf(e))) == Texts(PostfixOf(e))
  {
    var p := PostfixOf(e);
    PostfixPrintable(e);
    RenderSpaced(p);
    TextsOf(p);
    TokensOfSpaced(Texts(p));
  }

  lemma {:induction false} TextsOf(items: seq<Item>)
    ensures forall k :: 0 <= k < |items| ==> Texts(items)[k] == ItemText(items[k])
  {
    if items != [] {
      TextsOf(items[1..]);
      forall k | 0 <= k < |items| ensures Texts(items)[k] == ItemText(items[k]) {
        if k > 0 {
          assert Texts(items)[k] == Texts(items[1..])[k - 1];
        }
      }
    }
  }

  /** A number lexeme as a token: it is taken for a numeral, and pushes its value or fails as
      malformed. */
  lemma RunNumber(lexeme: string, rest: seq<string>, stack: seq<real>, lib: MathLib)
    requires IsLexeme(lexeme)
    ensures Run([lexeme] + rest, stack, lib) ==
            if ParseDouble(lexeme).None? then Err(Malformed(lexeme))
            else Run(rest, stack + [ParseDouble(lexeme).value], lib)
  {
    assert IsNumberChar(lexeme[0]);
    assert lexeme[0] == '.' ==> |lexeme| > 1;
    assert Classify(lexeme) == Numeral;
    assert ([lexeme] + rest)[0] == lexeme && ([lexeme] + rest)[1..] == rest;
  }

  /** An operator token over the operands a and b (b on top). */
  lemma RunOperator(op: char, a: real, b: real, rest: seq<string>, stack: seq<real>, lib: MathLib)
    requires IsOperator(op)
    ensures Run([[op]] + rest, stack + [a] + [b], lib) ==
            if Binary(op, a, b, lib).Err? then Err(Binary(op, a, b, lib).error)
            else Run(rest, stack + [Binary(op, a, b, lib).value], lib)
  {
    var full := stack + [a] + [b];
    assert Classify([op]) == Operator(op);
    assert full[..|full| - 2] == stack && full[|full| - 2] == a && full[|full| - 1] == b;
    assert ([[op]] + rest)[0] == [op] && ([[op]] + rest)[1..] == rest;
  }

  /** A function token over the operand a. */
  lemma RunFunction(f: char, a: real, rest: seq<string>, stack: seq<real>, lib: MathLib)
    requires IsFunction(f)
    ensures Run([[f]] + rest, stack + [a], lib) ==
            if Unary(f, a, lib).Err? then Err(Unary(f, a, lib).error)
            else Run(rest, stack + [Unary(f, a, lib).value], lib)
  {
    var full := stack + [a];
    assert Classify([f]) == Kind.Function(f);
    assert full[..|full| - 1] == stack && full[|full| - 1] == a;
    assert ([[f]] + rest)[0] == [f] && ([[f]] + rest)[1..] == rest;
  }

  /** Evaluating the postfix tokens of a well-formed expression, followed by any further tokens,
      either fails with the expression's own error or pushes its value and goes on. */
  lemma {:induction false} RunPostfix(e: Expr, rest: seq<string>, stack: seq<real>, lib: MathLib)
    requires WellFormed(e)
    ensures Run(Texts(PostfixOf(e)) + rest, stack, lib) ==
            if Value(e, lib).Err? then Err(Value(e, lib).error)
            else Run(rest, stack + [Value(e, lib).value], lib)
    decreases e, 1
  {
    match e
    case Number(lexeme) =>
      assert Texts(PostfixOf(e)) == [lexeme];
      RunNumber(lexeme, rest, stack, lib);
    case Apply(_, _, _) => RunApply(e, rest, stack, lib);
    case Call(_, _) => RunCall(e, rest, stack, lib);
    case Group(inner) => RunPostfix(inner, rest, stack, lib);
  }

  /** A binary operation's tokens: the left operand's, the right operand's, then the operator. */
  lemma RunApply(e: Expr, rest: seq<string>, stack: seq<real>, lib: MathLib)
    requires e.Apply? && WellFormed(e)
    ensures Run(Texts(PostfixOf(e)) + rest, stack, lib) ==
            if Value(e, lib).Err? then Err(Value(e, lib).error)
            else Run(rest, stack + [Value(e, lib).value], lib)
    decreases e, 0
  {
    ApplyTexts(e, rest);
    RunPostfix(e.left, Texts(PostfixOf(e.right)) + ([[e.op]] + rest), stack, lib);
    if Value(e.left, lib).Ok? {
      RunPostfix(e.right, [[e.op]] + rest, stack + [Value(e.left, lib).value], lib);
      if Value(e.right, lib).Ok? {
        RunOperator(e.op, Value(e.left, lib).value, Value(e.right, lib).value, rest, stack, lib);
      }
    }
  }

  lemma ApplyTexts(e: Expr, rest: seq<string>)
    requires e.Apply? && WellFormed(e)
    ensures WellFormed(e.left) && WellFormed(e.right) && IsOperator(e.op)
    ensures Texts(PostfixOf(e)) + rest ==
            Texts(PostfixOf(e.left)) + (Texts(PostfixOf(e.right)) + ([[e.op]] + rest))
  {
    TextsAppend(PostfixOf(e.left) + PostfixOf(e.right), [Symbol(e.op)]);
    TextsAppend(PostfixOf(e.left), PostfixOf(e.right));
    assert Texts([Symbol(e.op)]) == [[e.op]];
  }

  /** A call's tokens: the argument's, then the function code. */
  lemma RunCall(e: Expr, rest: seq<string>, stack: seq<real>, lib: MathLib)
    requires e.Call? && WellFormed(e)
    ensures Run(Texts(PostfixOf(e)) + rest, stack, lib) ==
            if Value(e, lib).Err? then Err(Value(e, lib).error)
            else Run(rest, stack + [Value(e, lib).value], lib)
    decreases e, 0
  {
    var Call(name, arg) := e;
    var f := Code(name);
    TextsAppend(PostfixOf(arg), [Symbol(f)]);
    assert Texts([Symbol(f)]) == [[f]];
    assert Texts(PostfixOf(e)) + rest == Texts(PostfixOf(arg)) + ([[f]] + rest);
    RunPostfix(arg, [[f]] + rest, stack, lib);
    if Value(arg, lib).Ok? {
      RunFunction(f, Value(arg, lib).value, rest, stack, lib);
    }
  }

  /** evaluatePostfix computes the value of the expression whose postfix order it is given. */
  lemma EvaluatePostfixOf(e: Expr, lib: MathLib)
    requires WellFormed(e)
    ensures Evaluate(Render(PostfixOf(e)), lib) == Value(e, lib)
  {
    TokensOfPostfix(e);
    RunPostfix(e, [], [], lib);
    assert Texts(PostfixOf(e)) + [] == Texts(PostfixOf(e));
  }

  /** The calculator end to end: typing a well-formed expression with the buttons and pressing
      '=' yields its value, or the first error its evaluation meets. */
  lemma CalculateValue(e: Expr, lib: MathLib)
    requires WellFormed(e)
    ensures Calculate(Typed(Keys(e), 0), lib) == Value(e, lib)
  {
    KeysValid(e);
    CalculateTyped(Keys(e), lib);
    TypedKeys(e);
    ToPostfixPrinted(e);
    EvaluatePostfixOf(e, lib);
  }

  /** Text made only of digits and '.' reaches Double.parseDouble whole: the converter copies it
      as one lexeme, and the evaluator takes it for a number unless it is a lone '.', which is an
      invalid token. */
  lemma NumeralAlone(t: string, lib: MathLib)
    requires t != [] && forall k :: 0 <= k < |t| ==> IsNumberChar(t[k])
    ensures Calculate(t, lib) ==
              if t == "." then Err(InvalidToken("."))
              else if ParseDouble(t).None? then Err(Malformed(t))
              else Ok(ParseDouble(t).value)
  {
    var ks := Presses(t);
    assert ValidKeys(ks);
    TypedPresses(t, 0);
    TypedPresses(t, 6);
    CalculateTyped(ks, lib);
    NumeralPostfix(t);
    NumeralRun(t, lib);
  }

  /** The converter writes such text back with one space after it. */
  lemma NumeralPostfix(t: string)
    requires t != [] && forall k :: 0 <= k < |t| ==> IsNumberChar(t[k])
    ensures PostfixText(t) == Ok(t + " ")
  {
    NumberEndUnique(t, 0, |t|);
    NumberStep(t, 0, |t|, [], []);
    assert t[0..|t|] == t && [] + [Lexeme(t)] == [Lexeme(t)];
    assert ToPostfix(t) == Convert(t, |t|, [], [Lexeme(t)]);
    StepEnd(t, [], [Lexeme(t)]);
    assert Drain([], [Lexeme(t)]) == Ok([Lexeme(t)]);
    assert Render([Lexeme(t)]) == t + " " + Render([]);
    assert t + " " + Render([]) == t + " ";
  }

  /** The evaluator on it: one token, taken for a numeral unless it is a lone '.'. */
  lemma NumeralRun(t: string, lib: MathLib)
    requires t != [] && forall k :: 0 <= k < |t| ==> IsNumberChar(t[k])
    ensures Evaluate(t + " ", lib) ==
              if t == "." then Err(InvalidToken("."))
              else if ParseDouble(t).None? then Err(Malformed(t))
              else Ok(ParseDouble(t).value)
  {
    NumeralTokens(t);
    assert [t] + [] == [t];
    if t == "." {
      assert Classify(t) == Unknown;
    } else {
      assert IsLexeme(t);
      RunNumber(t, [], [], lib);
    }
  }

  /** trim() and split give it back as the one token. */
  lemma NumeralTokens(t: string)
    requires t != [] && forall k :: 0 <= k < |t| ==> IsNumberChar(t[k])
    ensures Tokens(t + " ") == [t]
  {
    assert [t][1..] == [];
    assert Spaced([t]) == t + " " + Spaced([]);
    assert t + " " + Spaced([]) == t + " ";
    forall i | 0 <= i < |[t]|
      ensures [t][i] != [] && forall k :: 0 <= k < |[t][i]| ==> !IsTrimmed([t][i][k])
    {
      assert [t][i] == t;
    }
    TokensOfSpaced([t]);
  }
}
