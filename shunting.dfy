/** infixToPostfix (ScientificCalculator.java:95-145): the shunting-yard pass over the rewritten
    expression. Convert is the pass written as a recursive function over the scan position, the
    operator stack (top = last entry) and the output so far; InfixToPostfix is the loop itself,
    proved to compute the same string. */
module Shunting {
  import opened Failures
  import opened Symbols

  /** One entry of the postfix output: a number lexeme, or one operator or function character. */
  datatype Item = Lexeme(text: string) | Symbol(sym: char)

  function ItemText(x: Item): string {
    match x
    case Lexeme(t) => t
    case Symbol(c) => [c]
  }

  /** The postfix string: every item followed by one space. */
  function Render(items: seq<Item>): string {
    if items == [] then "" else ItemText(items[0]) + " " + Render(items[1..])
  }

  /** The postfix string is empty exactly when there is no item, and otherwise ends with the
      space written after its last item. */
  lemma {:induction false} RenderEnds(items: seq<Item>)
    ensures Render(items) == [] <==> items == []
    ensures items != [] ==> Render(items)[|Render(items)| - 1] == ' '
  {
    if items != [] {
      var head := ItemText(items[0]) + " ";
      assert Render(items) == head + Render(items[1..]);
      if items[1..] != [] {
        RenderEnds(items[1..]);
      }
    }
  }

  lemma {:induction false} RenderAppend(a: seq<Item>, b: seq<Item>)
    ensures Render(a + b) == Render(a) + Render(b)
  {
    if a == [] {
      assert a + b == b;
    } else {
      assert (a + b)[1..] == a[1..] + b;
      RenderAppend(a[1..], b);
    }
  }

  lemma RenderSnoc(a: seq<Item>, x: Item)
    ensures Render(a + [x]) == Render(a) + ItemText(x) + " "
  {
    RenderAppend(a, [x]);
    assert [x][1..] == [];
  }

  /** What popping every entry of t emits: the top (last entry) first, so the k-th item is the
      k-th entry counted from the top. */
  function Popped(t: seq<char>): (r: seq<Item>)
    ensures |r| == |t|
    ensures forall k :: 0 <= k < |t| ==> r[k] == Symbol(t[|t| - 1 - k])
  {
    if t == [] then [] else Popped(t[1..]) + [Symbol(t[0])]
  }

  /** Popping entries off the top one at a time: the top comes first. */
  lemma {:induction false} PoppedTop(t: seq<char>)
    requires t != []
    ensures Popped(t) == [Symbol(t[|t| - 1])] + Popped(t[..|t| - 1])
  {
    if |t| > 1 {
      PoppedTop(t[1..]);
      assert t[1..][..|t| - 2] == t[..|t| - 1][1..];
    }
  }

  /** Popping one more entry from below extends what was emitted by that entry. */
  lemma PoppedExtend(t: seq<char>, m: nat)
    requires 0 < m <= |t|
    ensures Popped(t[m - 1..]) == Popped(t[m..]) + [Symbol(t[m - 1])]
  {
    assert t[m - 1..][1..] == t[m..];
  }

  /** The rendering of one more popped entry. */
  lemma RenderPoppedExtend(prefix: string, t: seq<char>, m: nat)
    requires 0 < m <= |t|
    ensures prefix + Render(Popped(t[m - 1..])) == prefix + Render(Popped(t[m..])) + [t[m - 1]] + " "
  {
    PoppedExtend(t, m);
    RenderSnoc(Popped(t[m..]), Symbol(t[m - 1]));
  }

  /** Where the maximal run of digits and '.' that starts at i ends: the number lexeme the
      converter copies through (lines 102-108) is all number characters, followed by a
      non-number character or the end. */
  function NumberEnd(s: string, i: nat): (j: nat)
    requires i <= |s|
    ensures i <= j <= |s|
    ensures forall k :: i <= k < j ==> IsNumberChar(s[k])
    ensures j < |s| ==> !IsNumberChar(s[j])
    decreases |s| - i
  {
    if i < |s| && IsNumberChar(s[i]) then NumberEnd(s, i + 1) else i
  }

  /** How far an incoming operator of precedence p pops (lines 128-130): every entry at index k
      or above has precedence at least p, and the entry just below (if any) has less. */
  function PopBoundary(stack: seq<char>, p: nat): (k: nat)
    ensures k <= |stack|
    ensures forall j {:trigger Precedence(stack[j])} :: k <= j < |stack| ==> Precedence(stack[j]) >= p
    ensures k > 0 ==> Precedence(stack[k - 1]) < p
  {
    if stack == [] || Precedence(stack[|stack| - 1]) < p then |stack|
    else PopBoundary(stack[..|stack| - 1], p)
  }

  /** An incoming operator pops only operators, each binding at least as tightly as it does: '('
      and the function codes, at precedence 0, stay on the stack (lines 128-130, 155-168). */
  lemma OperatorPopsOperators(stack: seq<char>, c: char)
    requires IsOperator(c)
    ensures forall j :: PopBoundary(stack, Precedence(c)) <= j < |stack| ==>
              IsOperator(stack[j]) && Precedence(stack[j]) >= Precedence(c)
  {
  }

  /** How far a ')' pops (lines 116-118): no entry at index k or above is '(', and the entry just
      below (if any) is '('; so k == 0 exactly when no '(' is on the stack. */
  function ParenBoundary(stack: seq<char>): (k: nat)
    ensures k <= |stack|
    ensures forall j :: k <= j < |stack| ==> stack[j] != '('
    ensures k > 0 ==> stack[k - 1] == '('
  {
    if stack == [] || stack[|stack| - 1] == '(' then |stack|
    else ParenBoundary(stack[..|stack| - 1])
  }

  /** The effect of ')' (lines 115-126) on the stack: the new stack and the items emitted. It fails,
      with MismatchedParentheses, exactly when no '(' is on the stack; otherwise it only pops, and
      every entry it pops but the '(' is emitted. CloseParenEffect states which entries. */
  function CloseParen(stack: seq<char>): (r: Result<(seq<char>, seq<Item>)>)
    ensures r.Err? <==> '(' !in stack
    ensures r.Err? ==> r.error == MismatchedParentheses
    ensures r.Ok? ==> r.value.0 < stack && |r.value.0| + |r.value.1| + 1 == |stack|
  {
    var k := ParenBoundary(stack);
    if k == 0 then Err(MismatchedParentheses)
    else
      assert stack[k - 1] in stack;
      var below := stack[..k - 1];
      if below != [] && IsFunction(below[|below| - 1]) then
        Ok((below[..|below| - 1], Popped(stack[k..]) + [Symbol(below[|below| - 1])]))
      else
        Ok((below, Popped(stack[k..])))
  }

  /** No '(' lies above the boundary a ')' pops down to. */
  lemma NoParenAbove(stack: seq<char>)
    ensures '(' !in stack[ParenBoundary(stack)..]
  {
    var k := ParenBoundary(stack);
    forall x | 0 <= x < |stack[k..]| ensures stack[k..][x] != '(' {
      assert stack[k..][x] == stack[k + x];
    }
  }

  /** Otherwise the entries above the topmost '(' are emitted top first, the '(' is dropped, and
      a function code sitting directly under it is emitted next. */
  lemma CloseParenEffect(stack: seq<char>)
    requires '(' in stack
    ensures var k := ParenBoundary(stack);
            0 < k <= |stack| && stack[k - 1] == '(' && '(' !in stack[k..] &&
            CloseParen(stack) ==
              if k > 1 && IsFunction(stack[k - 2])
              then Ok((stack[..k - 2], Popped(stack[k..]) + [Symbol(stack[k - 2])]))
              else Ok((stack[..k - 1], Popped(stack[k..])))
  {
    NoParenAbove(stack);
    CloseParenAt(stack, ParenBoundary(stack));
  }

  /** CloseParen once the boundary k is known to be above the bottom of the stack. */
  lemma CloseParenAt(stack: seq<char>, k: nat)
    requires k == ParenBoundary(stack) && 0 < k
    ensures CloseParen(stack) ==
              if k > 1 && IsFunction(stack[k - 2])
              then Ok((stack[..k - 2], Popped(stack[k..]) + [Symbol(stack[k - 2])]))
              else Ok((stack[..k - 1], Popped(stack[k..])))
  {
    var below := stack[..k - 1];
    if k > 1 {
      assert below[|below| - 1] == stack[k - 2];
      assert below[..|below| - 1] == stack[..k - 2];
    }
  }

  /** The end of input (lines 137-143): the remaining entries are emitted top first, and the pass
      fails as soon as a parenthesis comes off the stack. So it fails, with MismatchedParentheses,
      exactly when a parenthesis is on the stack, and otherwise appends every entry, top first. */
  function Drain(stack: seq<char>, out: seq<Item>): (r: Result<seq<Item>>)
    ensures r.Ok? <==> '(' !in stack && ')' !in stack
    ensures r.Err? ==> r.error == MismatchedParentheses
    ensures r.Ok? ==> r.value == out + Popped(stack)
    decreases |stack|
  {
    if stack == [] then Ok(out)
    else
      var top := stack[|stack| - 1];
      var rest := stack[..|stack| - 1];
      assert stack == rest + [top];
      if top == '(' || top == ')' then Err(MismatchedParentheses)
      else
        PoppedTop(stack);
        Drain(rest, out + [Symbol(top)])
  }

  /** The outcome of one pass of the conversion loop: where the scan goes on, the new stack and the
      items appended to the output. */
  datatype Move = Move(next: nat, stack: seq<char>, emitted: seq<Item>)

  /** One pass of the conversion loop (lines 100-135) at scan position i. It consumes at least one
      character, all of them accepted; it fails with "Invalid character" exactly on a character it
      has no branch for (lines 133-134), and otherwise only on a ')' with no '(' on the stack. */
  function Step(s: string, i: nat, stack: seq<char>): (r: Result<Move>)
    requires i < |s|
    ensures r.Ok? ==> i < r.value.next <= |s|
    ensures r.Ok? ==> forall k :: i <= k < r.value.next ==> IsAccepted(s[k])
    ensures r == Err(InvalidCharacter(s[i])) <==> !IsAccepted(s[i])
    ensures r == Err(MismatchedParentheses) <==> s[i] == ')' && '(' !in stack
    ensures r.Err? ==> r.error == InvalidCharacter(s[i]) || r.error == MismatchedParentheses
  {
    var c := s[i];
    if IsNumberChar(c) then
      var j := NumberEnd(s, i);
      Ok(Move(j, stack, [Lexeme(s[i..j])]))
    else if IsFunction(c) || c == '(' then
      Ok(Move(i + 1, stack + [c], []))
    else if c == ')' then
      match CloseParen(stack)
      case Err(e) => Err(e)
      case Ok((rest, emitted)) => Ok(Move(i + 1, rest, emitted))
    else if IsOperator(c) then
      var k := PopBoundary(stack, Precedence(c));
      Ok(Move(i + 1, stack[..k] + [c], Popped(stack[k..])))
    else
      Err(InvalidCharacter(c))
  }

  /** The conversion loop from scan position i with operator stack `stack` and output `out`:
      the end-of-input pass once the text is consumed, another pass of the loop body before. The
      conversion fails only with the two errors infixToPostfix throws: mismatched parentheses, or
      an invalid character (one the loop has no branch for). */
  function Convert(s: string, i: nat, stack: seq<char>, out: seq<Item>): (r: Result<seq<Item>>)
    requires i <= |s|
    ensures r.Err? ==> r.error == MismatchedParentheses || (r.error.InvalidCharacter? && !IsAccepted(r.error.ch))
    decreases |s| - i, 2
  {
    if i == |s| then Drain(stack, out) else Advance(s, i, stack, out)
  }

  /* Convert, Advance and Body are the three layers of one loop iteration: the loop test, the
     entry into the body, and the body followed by the next iteration. ConvertStep states the
     iteration as one equation. */

  /** The loop condition held at i: one more pass. */
  function Advance(s: string, i: nat, stack: seq<char>, out: seq<Item>): (r: Result<seq<Item>>)
    requires i < |s|
    ensures r.Err? ==> r.error == MismatchedParentheses || (r.error.InvalidCharacter? && !IsAccepted(r.error.ch))
    decreases |s| - i, 1
  {
    Body(s, i, stack, out)
  }

  /** One pass of the loop body at scan position i, then the rest of the loop. */
  function Body(s: string, i: nat, stack: seq<char>, out: seq<Item>): (r: Result<seq<Item>>)
    requires i < |s|
    ensures r.Err? ==> r.error == MismatchedParentheses || (r.error.InvalidCharacter? && !IsAccepted(r.error.ch))
    decreases |s| - i, 0
  {
    match Step(s, i, stack)
    case Err(e) => Err(e)
    case Ok(m) => Convert(s, m.next, m.stack, out + m.emitted)
  }

  /** infixToPostfix as a list of output items. */
  function ToPostfix(infix: string): Result<seq<Item>> {
    Convert(infix, 0, [], [])
  }

  /** infixToPostfix as the string it returns. */
  function PostfixText(infix: string): Result<string> {
    match ToPostfix(infix)
    case Ok(items) => Ok(Render(items))
    case Err(e) => Err(e)
  }

  /** Convert at the end of input. */
  lemma StepEnd(s: string, stack: seq<char>, out: seq<Item>)
    ensures Convert(s, |s|, stack, out) == Drain(stack, out)
  {
  }

  /** One step of Convert. */
  lemma ConvertStep(s: string, i: nat, stack: seq<char>, out: seq<Item>)
    requires i < |s|
    ensures Step(s, i, stack).Err? ==> Convert(s, i, stack, out) == Err(Step(s, i, stack).error)
    ensures Step(s, i, stack).Ok? ==>
              var m := Step(s, i, stack).value;
              Convert(s, i, stack, out) == Convert(s, m.next, m.stack, out + m.emitted)
  {
    assert Convert(s, i, stack, out) == Advance(s, i, stack, out);
    assert Advance(s, i, stack, out) == Body(s, i, stack, out);
  }

  /** The inner loop of a number (lines 104-107): copies the maximal run of digits and '.' that
      starts at i into the output. */
  method CopyNumber(infix: string, i: nat, postfix: string) returns (j: nat, text: string)
    requires i <= |infix|
    ensures i <= j <= |infix|
    ensures forall k :: i <= k < j ==> IsNumberChar(infix[k])
    ensures j < |infix| ==> !IsNumberChar(infix[j])
    ensures text == postfix + infix[i..j]
  {
    j, text := i, postfix;
    while j < |infix| && (IsDigit(infix[j]) || infix[j] == '.')
      invariant i <= j <= |infix|
      invariant forall k :: i <= k < j ==> IsNumberChar(infix[k])
      invariant text == postfix + infix[i..j]
    {
      text := text + [infix[j]];
      j := j + 1;
    }
  }

  /** NumberEnd is the only end whose run is all number characters and that stops at a
      non-number character or the end of the text. */
  lemma {:induction false} NumberEndUnique(s: string, i: nat, j: nat)
    requires i <= j <= |s|
    requires forall k :: i <= k < j ==> IsNumberChar(s[k])
    requires j < |s| ==> !IsNumberChar(s[j])
    ensures j == NumberEnd(s, i)
    decreases j - i
  {
    if i < j {
      NumberEndUnique(s, i + 1, j);
    }
  }


  /** The inner loop of ')' (lines 116-118): pops and emits entries until a '(' is on top or the
      stack is empty. The stack is popped by lowering its depth n. */
  method PopToOpenParen(stack: seq<char>, postfix: string) returns (rest: seq<char>, text: string)
    ensures rest == stack[..ParenBoundary(stack)]
    ensures text == postfix + Render(Popped(stack[ParenBoundary(stack)..]))
  {
    ghost var k := ParenBoundary(stack);
    var n := |stack|;
    text := postfix;
    while n > 0 && stack[n - 1] != '('
      invariant k <= n <= |stack|
      invariant text == postfix + Render(Popped(stack[n..]))
    {
      RenderPoppedExtend(postfix, stack, n);
      text := text + [stack[n - 1]] + " ";
      n := n - 1;
    }
    rest := stack[..n];
  }

  /** The handling of ')' (lines 115-123): pops down to the matching '(', fails if there is none,
      drops the '(' and then pops a function name left just below it. */
  method CloseGroup(stack: seq<char>, postfix: string, ghost out: seq<Item>)
    returns (ok: bool, rest: seq<char>, text: string)
    requires postfix == Render(out)
    ensures ok <==> CloseParen(stack).Ok?
    ensures !ok ==> CloseParen(stack) == Err(MismatchedParentheses)
    ensures ok ==> rest == CloseParen(stack).value.0 && text == Render(out + CloseParen(stack).value.1)
  {
    ghost var k := ParenBoundary(stack);
    rest, text := PopToOpenParen(stack, postfix);
    if rest == [] {
      return false, rest, text;
    }
    CloseParenRendered(stack, out);
    rest := rest[..|rest| - 1];
    assert rest == stack[..k - 1];
    if rest != [] && IsFunction(rest[|rest| - 1]) {
      var f := rest[|rest| - 1];
      assert f == stack[k - 2];
      rest := rest[..|rest| - 1];
      text := text + [f] + " ";
    }
    ok := true;
  }

  /** The text a successful ')' appends: the popped entries, then the function code under the
      '(' if there is one. */
  lemma CloseParenRendered(stack: seq<char>, out: seq<Item>)
    requires ParenBoundary(stack) > 0
    ensures var k := ParenBoundary(stack);
            var f := k > 1 && IsFunction(stack[k - 2]);
            CloseParen(stack) == Ok((if f then stack[..k - 2] else stack[..k - 1],
                                     Popped(stack[k..]) + if f then [Symbol(stack[k - 2])] else [])) &&
            Render(out + CloseParen(stack).value.1) ==
              Render(out) + Render(Popped(stack[k..])) + if f then [stack[k - 2]] + " " else ""
  {
    var k := ParenBoundary(stack);
    var popped := Popped(stack[k..]);
    CloseParenAt(stack, k);
    RenderAppend(out, popped);
    if k > 1 && IsFunction(stack[k - 2]) {
      RenderSnoc(out + popped, Symbol(stack[k - 2]));
      assert out + popped + [Symbol(stack[k - 2])] == out + (popped + [Symbol(stack[k - 2])]);
    } else {
      assert popped + [] == popped;
    }
  }

  /** The inner loop of an operator (lines 128-130): pops and emits entries while the top binds at
      least as tightly as precedence p. The stack is popped by lowering its depth n. */
  method PopWhileAtLeast(stack: seq<char>, p: nat, postfix: string) returns (rest: seq<char>, text: string)
    ensures rest == stack[..PopBoundary(stack, p)]
    ensures text == postfix + Render(Popped(stack[PopBoundary(stack, p)..]))
  {
    ghost var k := PopBoundary(stack, p);
    var n := |stack|;
    text := postfix;
    while n > 0 && Precedence(stack[n - 1]) >= p
      invariant k <= n <= |stack|
      invariant text == postfix + Render(Popped(stack[n..]))
    {
      PopBoundaryBelow(stack, p, n);
      RenderPoppedExtend(postfix, stack, n);
      text := text + [stack[n - 1]] + " ";
      n := n - 1;
    }
    PopBoundaryStop(stack, p, n);
    rest := stack[..n];
  }

  /** An entry binding at least as tightly as p lies above the boundary. */
  lemma PopBoundaryBelow(stack: seq<char>, p: nat, n: nat)
    requires PopBoundary(stack, p) <= n <= |stack| && 0 < n && Precedence(stack[n - 1]) >= p
    ensures PopBoundary(stack, p) < n
  {
  }

  /** The scan down from the top stops exactly at the boundary. */
  lemma PopBoundaryStop(stack: seq<char>, p: nat, n: nat)
    requires PopBoundary(stack, p) <= n <= |stack| && (n == 0 || Precedence(stack[n - 1]) < p)
    ensures PopBoundary(stack, p) == n
  {
  }

  /** The loop at the end of input (lines 137-143): pops every entry, failing on a parenthesis. */
  method DrainStack(stack: seq<char>, postfix: string, ghost out: seq<Item>) returns (r: Result<string>)
    requires postfix == Render(out)
    ensures r == match Drain(stack, out) case Ok(items) => Ok(Render(items)) case Err(e) => Err(e)
  {
    var rest, text := stack, postfix;
    ghost var emitted := out;
    while rest != []
      invariant text == Render(emitted)
      invariant Drain(rest, emitted) == Drain(stack, out)
    {
      var top := rest[|rest| - 1];
      rest := rest[..|rest| - 1];
      if top == '(' || top == ')' {
        return Err(MismatchedParentheses);
      }
      RenderSnoc(emitted, Symbol(top));
      emitted := emitted + [Symbol(top)];
      text := text + [top] + " ";
    }
    return Ok(text);
  }

  /** One pass of the body of the main loop (lines 100-134): handles the token that starts at i
      and returns the new scan position, stack and output string, or the error. */
  method ScanToken(infix: string, i: nat, stack: seq<char>, postfix: string, ghost out: seq<Item>)
    returns (r: Result<(nat, seq<char>, string)>)
    requires i < |infix|
    requires postfix == Render(out)
    ensures Step(infix, i, stack).Err? ==> r == Err(Step(infix, i, stack).error)
    ensures Step(infix, i, stack).Ok? ==>
              var m := Step(infix, i, stack).value;
              r == Ok((m.next, m.stack, Render(out + m.emitted)))
  {
    var c := infix[i];
    if IsDigit(c) || c == '.' {
      var j, text := CopyNumber(infix, i, postfix);
      NumberEndUnique(infix, i, j);
      assert Step(infix, i, stack) == Ok(Move(j, stack, [Lexeme(infix[i..j])]));
      RenderSnoc(out, Lexeme(infix[i..j]));
      return Ok((j, stack, text + " "));
    } else if IsFunction(c) || c == '(' {
      assert Step(infix, i, stack) == Ok(Move(i + 1, stack + [c], []));
      assert out + [] == out;
      return Ok((i + 1, stack + [c], postfix));
    } else if c == ')' {
      assert Step(infix, i, stack) == match CloseParen(stack)
                                      case Err(e) => Err(e)
                                      case Ok((rest, emitted)) => Ok(Move(i + 1, rest, emitted));
      var ok, rest, text := CloseGroup(stack, postfix, out);
      if !ok {
        return Err(MismatchedParentheses);
      }
      return Ok((i + 1, rest, text));
    } else if IsOperator(c) {
      ghost var k := PopBoundary(stack, Precedence(c));
      assert Step(infix, i, stack) == Ok(Move(i + 1, stack[..k] + [c], Popped(stack[k..])));
      var rest, text := PopWhileAtLeast(stack, Precedence(c), postfix);
      RenderAppend(out, Popped(stack[k..]));
      return Ok((i + 1, rest + [c], text));
    } else {
      assert Step(infix, i, stack) == Err(InvalidCharacter(c));
      return Err(InvalidCharacter(c));
    }
  }

  /** The converter as the source writes it: a while loop over i that pushes onto and pops from a
      character stack and appends to a string builder. */
  method InfixToPostfix(infix: string) returns (r: Result<string>)
    ensures r == PostfixText(infix)
  {
    var postfix := "";
    var stack: seq<char> := [];
    ghost var out: seq<Item> := [];
    var i := 0;
    while i < |infix|
      invariant i <= |infix|
      invariant postfix == Render(out)
      invariant Convert(infix, i, stack, out) == ToPostfix(infix)
      decreases |infix| - i
    {
      ConvertStep(infix, i, stack, out);
      ghost var step := Step(infix, i, stack);
      var next := ScanToken(infix, i, stack, postfix, out);
      if next.Err? {
        return Err(next.error);
      }
      out := out + step.value.emitted;
      i, stack, postfix := next.value.0, next.value.1, next.value.2;
    }
    StepEnd(infix, stack, out);
    r := DrainStack(stack, postfix, out);
  }
}
