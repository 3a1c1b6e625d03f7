/** What infixToPostfix (ScientificCalculator.java:95-145) writes for any input it accepts, well
    formed or not: the number lexemes of the input, unchanged and in their order, and never a
    parenthesis; and it accepts only text made of digits, '.', function codes, parentheses and
    operators. */
module Output {
  import opened Failures
  import opened Symbols
  import opened Shunting

  /** The maximal runs of digits and '.' in s from position i on, in order. */
  function Runs(s: string, i: nat): seq<string>
    requires i <= |s|
    decreases |s| - i
  {
    if i == |s| then []
    else if IsNumberChar(s[i]) then
      [s[i..NumberEnd(s, i)]] + Runs(s, NumberEnd(s, i))
    else Runs(s, i + 1)
  }

  /** The number lexemes among the items, in order. */
  function Lexemes(items: seq<Item>): seq<string> {
    if items == [] then []
    else (if items[0].Lexeme? then [items[0].text] else []) + Lexemes(items[1..])
  }

  lemma {:induction false} LexemesAppend(a: seq<Item>, b: seq<Item>)
    ensures Lexemes(a + b) == Lexemes(a) + Lexemes(b)
  {
    if a == [] {
      assert a + b == b;
    } else {
      assert (a + b)[1..] == a[1..] + b;
      LexemesAppend(a[1..], b);
    }
  }

  /** No parenthesis among the items. */
  predicate ParenFree(items: seq<Item>) {
    Symbol('(') !in items && Symbol(')') !in items
  }

  /** Popping stack entries emits no lexeme, and emits a character exactly when it was on the
      stack. */
  lemma PoppedSymbols(t: seq<char>)
    ensures Lexemes(Popped(t)) == []
    ensures forall c :: Symbol(c) in Popped(t) <==> c in t
  {
    PoppedNoLexeme(t);
    forall c ensures Symbol(c) in Popped(t) <==> c in t {
      if Symbol(c) in Popped(t) {
        var k :| 0 <= k < |Popped(t)| && Popped(t)[k] == Symbol(c);
      }
      if c in t {
        var j :| 0 <= j < |t| && t[j] == c;
      }
    }
  }

  lemma {:induction false} PoppedNoLexeme(t: seq<char>)
    ensures Lexemes(Popped(t)) == []
  {
    if t != [] {
      PoppedNoLexeme(t[1..]);
      LexemesAppend(Popped(t[1..]), [Symbol(t[0])]);
    }
  }

  /** Entries of a slice are entries of the whole. */
  lemma SliceMembers(t: seq<char>, a: nat, b: nat, c: char)
    requires a <= b <= |t|
    ensures c in t[a..b] ==> c in t
  {
    if c in t[a..b] {
      var k :| 0 <= k < |t[a..b]| && t[a..b][k] == c;
      assert t[a + k] == c;
    }
  }

  /** One pass of the loop that succeeds: it read an accepted character, copied a number run as one
      lexeme (and emitted no other lexeme), emitted no parenthesis, and left no ')' on the stack. */
  lemma StepOutput(s: string, i: nat, stack: seq<char>)
    requires i < |s| && ')' !in stack
    requires Step(s, i, stack).Ok?
    ensures var m := Step(s, i, stack).value;
            IsAccepted(s[i]) &&
            (IsNumberChar(s[i]) ==> m.next == NumberEnd(s, i) && Lexemes(m.emitted) == [s[i..m.next]]) &&
            (!IsNumberChar(s[i]) ==> m.next == i + 1 && Lexemes(m.emitted) == []) &&
            ParenFree(m.emitted) && ')' !in m.stack
  {
    var c := s[i];
    if IsNumberChar(c) {
      assert Lexemes([Lexeme(s[i..NumberEnd(s, i)])]) == [s[i..NumberEnd(s, i)]];
    } else if IsFunction(c) || c == '(' {
    } else if c == ')' {
      CloseStepOutput(stack);
    } else {
      OperatorStepOutput(stack, c);
    }
  }

  /** The ')' branch: what it pops lies above the topmost '(', and what it keeps is a prefix. */
  lemma CloseStepOutput(stack: seq<char>)
    requires ')' !in stack && CloseParen(stack).Ok?
    ensures var (rest, emitted) := CloseParen(stack).value;
            Lexemes(emitted) == [] && ParenFree(emitted) && ')' !in rest
  {
    CloseParenEffect(stack);
    var k := ParenBoundary(stack);
    var above := stack[k..];
    PoppedSymbols(above);
    SliceMembers(stack, k, |stack|, ')');
    if k > 1 && IsFunction(stack[k - 2]) {
      var f := stack[k - 2];
      LexemesAppend(Popped(above), [Symbol(f)]);
      assert Lexemes([Symbol(f)]) == [];
      SliceMembers(stack, 0, k - 2, ')');
    } else {
      SliceMembers(stack, 0, k - 1, ')');
    }
  }

  /** The operator branch: what it pops binds at least as tightly as an operator, so it is no
      parenthesis. */
  lemma OperatorStepOutput(stack: seq<char>, c: char)
    requires ')' !in stack && IsOperator(c)
    ensures var k := PopBoundary(stack, Precedence(c));
            Lexemes(Popped(stack[k..])) == [] && ParenFree(Popped(stack[k..])) && ')' !in stack[..k] + [c]
  {
    var k := PopBoundary(stack, Precedence(c));
    var above := stack[k..];
    PoppedAboveBoundary(stack, Precedence(c));
    PoppedSymbols(above);
    assert Symbol('(') !in Popped(above) && Symbol(')') !in Popped(above);
    SliceMembers(stack, 0, k, ')');
    assert ')' !in stack[..k];
    assert forall x :: x in stack[..k] + [c] ==> x in stack[..k] || x == c;
  }

  /** No parenthesis lies above the boundary an operator of precedence p >= 1 pops down to. */
  lemma PoppedAboveBoundary(stack: seq<char>, p: nat)
    requires ')' !in stack && p >= 1
    ensures '(' !in stack[PopBoundary(stack, p)..] && ')' !in stack[PopBoundary(stack, p)..]
  {
    var k := PopBoundary(stack, p);
    var above := stack[k..];
    forall j | 0 <= j < |above| ensures above[j] != '(' {
      assert Precedence(stack[k + j]) >= p;
    }
    SliceMembers(stack, k, |stack|, ')');
  }

  /** The end of input: draining emits no lexeme and no parenthesis. */
  lemma DrainOutput(stack: seq<char>, out: seq<Item>)
    requires Drain(stack, out).Ok?
    ensures Lexemes(Drain(stack, out).value) == Lexemes(out)
    ensures ParenFree(out) ==> ParenFree(Drain(stack, out).value)
  {
    PoppedSymbols(stack);
    LexemesAppend(out, Popped(stack));
  }

  /** The rest of the loop from position i, when it succeeds, appends the number runs of the text
      from i as lexemes and no parenthesis, and every character from i on is accepted. */
  lemma {:induction false} ConvertOutput(s: string, i: nat, stack: seq<char>, out: seq<Item>)
    requires i <= |s| && ')' !in stack
    requires Convert(s, i, stack, out).Ok?
    ensures Lexemes(Convert(s, i, stack, out).value) == Lexemes(out) + Runs(s, i)
    ensures ParenFree(out) ==> ParenFree(Convert(s, i, stack, out).value)
    ensures forall k :: i <= k < |s| ==> IsAccepted(s[k])
    decreases |s| - i
  {
    if i == |s| {
      StepEnd(s, stack, out);
      DrainOutput(stack, out);
    } else {
      ConvertStep(s, i, stack, out);
      StepOutput(s, i, stack);
      var m := Step(s, i, stack).value;
      ConvertOutput(s, m.next, m.stack, out + m.emitted);
      OutputStep(s, i, stack, out, Convert(s, m.next, m.stack, out + m.emitted).value);
    }
  }

  /** One pass followed by the rest of the loop: if the rest turns out + emitted into v with the
      rest's number runs as its lexemes, then v also has out's lexemes followed by every run from
      position i on. */
  lemma OutputStep(s: string, i: nat, stack: seq<char>, out: seq<Item>, v: seq<Item>)
    requires i < |s| && ')' !in stack && Step(s, i, stack).Ok?
    requires var m := Step(s, i, stack).value;
             m.next <= |s| &&
             Lexemes(v) == Lexemes(out + m.emitted) + Runs(s, m.next) &&
             (ParenFree(out + m.emitted) ==> ParenFree(v)) &&
             forall k :: m.next <= k < |s| ==> IsAccepted(s[k])
    ensures Lexemes(v) == Lexemes(out) + Runs(s, i)
    ensures ParenFree(out) ==> ParenFree(v)
    ensures forall k :: i <= k < |s| ==> IsAccepted(s[k])
  {
    StepOutput(s, i, stack);
    var m := Step(s, i, stack).value;
    LexemesAppend(out, m.emitted);
    ParenFreeAppend(out, m.emitted);
    assert Lexemes(m.emitted) + Runs(s, m.next) == Runs(s, i);
    assert Lexemes(out) + Lexemes(m.emitted) + Runs(s, m.next) == Lexemes(out) + Runs(s, i);
  }

  lemma ParenFreeAppend(a: seq<Item>, b: seq<Item>)
    ensures ParenFree(a + b) <==> ParenFree(a) && ParenFree(b)
  {
    assert forall x :: x in a + b <==> x in a || x in b;
  }

  /** When the rest of the loop from position i fails with "Invalid character", the character it
      names is the first one from i on that the loop has no branch for. */
  lemma {:induction false} ConvertErrors(s: string, i: nat, stack: seq<char>, out: seq<Item>)
    requires i <= |s|
    ensures var r := Convert(s, i, stack, out);
            r.Err? && r.error.InvalidCharacter? ==>
              exists k :: i <= k < |s| && r.error == InvalidCharacter(s[k]) && !IsAccepted(s[k]) &&
                          forall j :: i <= j < k ==> IsAccepted(s[j])
    decreases |s| - i
  {
    if i == |s| {
      StepEnd(s, stack, out);
    } else {
      ConvertStep(s, i, stack, out);
      if Step(s, i, stack).Ok? {
        var m := Step(s, i, stack).value;
        ConvertErrors(s, m.next, m.stack, out + m.emitted);
      }
    }
  }

  /** The parentheses of s from position i on, with `depth` groups already open: no ')' comes
      while no group is open, and every group is closed by the end of the text. */
  predicate BalancedFrom(s: string, i: nat, depth: nat)
    requires i <= |s|
    decreases |s| - i
  {
    if i == |s| then depth == 0
    else if s[i] == '(' then BalancedFrom(s, i + 1, depth + 1)
    else if s[i] == ')' then depth > 0 && BalancedFrom(s, i + 1, depth - 1)
    else BalancedFrom(s, i + 1, depth)
  }

  /** Balanced text closes every group it opens and the ones open before it: it holds exactly
      `depth` more ')' than '('. */
  lemma {:induction false} BalancedCounts(s: string, i: nat, depth: nat)
    requires i <= |s| && BalancedFrom(s, i, depth)
    ensures multiset(s[i..])['('] + depth == multiset(s[i..])[')']
    decreases |s| - i
  {
    if i < |s| {
      assert s[i..] == [s[i]] + s[i + 1..];
      if s[i] == '(' {
        BalancedCounts(s, i + 1, depth + 1);
      } else if s[i] == ')' {
        BalancedCounts(s, i + 1, depth - 1);
      } else {
        BalancedCounts(s, i + 1, depth);
      }
    }
  }

  /** A number run holds no parenthesis, so the balance after it is the balance before it. */
  lemma {:induction false} BalancedSkipsNumber(s: string, i: nat, depth: nat)
    requires i <= |s|
    ensures BalancedFrom(s, i, depth) == BalancedFrom(s, NumberEnd(s, i), depth)
    decreases |s| - i
  {
    if i < |s| && IsNumberChar(s[i]) {
      BalancedSkipsNumber(s, i + 1, depth);
    }
  }

  /** The '(' entries on the operator stack. */
  function Opens(stack: seq<char>): nat {
    if stack == [] then 0 else (if stack[0] == '(' then 1 else 0) + Opens(stack[1..])
  }

  lemma {:induction false} OpensAppend(a: seq<char>, b: seq<char>)
    ensures Opens(a + b) == Opens(a) + Opens(b)
  {
    if a == [] {
      assert a + b == b;
    } else {
      assert (a + b)[1..] == a[1..] + b;
      OpensAppend(a[1..], b);
    }
  }

  /** A stack without '(' has no open group on it, and one with a '(' has. */
  lemma {:induction false} OpensNone(t: seq<char>)
    ensures Opens(t) == 0 <==> '(' !in t
  {
    if t != [] {
      OpensNone(t[1..]);
      assert t == [t[0]] + t[1..];
    }
  }

  /** One pass of the loop on an accepted character keeps the '(' entries of the stack equal to the
      number of groups open, keeps ')' off the stack, and fails exactly on a ')' with no group
      open. */
  lemma BalancedStep(s: string, i: nat, stack: seq<char>)
    requires i < |s| && IsAccepted(s[i]) && ')' !in stack
    ensures Step(s, i, stack).Err? <==> s[i] == ')' && Opens(stack) == 0
    ensures Step(s, i, stack).Ok? ==>
              var m := Step(s, i, stack).value;
              ')' !in m.stack && BalancedFrom(s, i, Opens(stack)) == BalancedFrom(s, m.next, Opens(m.stack))
  {
    var c := s[i];
    var d := Opens(stack);
    OpensNone(stack);
    if IsNumberChar(c) {
      assert Step(s, i, stack) == Ok(Move(NumberEnd(s, i), stack, [Lexeme(s[i..NumberEnd(s, i)])]));
      BalancedSkipsNumber(s, i, d);
    } else if IsFunction(c) || c == '(' {
      assert Step(s, i, stack) == Ok(Move(i + 1, stack + [c], []));
      OpensAppend(stack, [c]);
    } else if c == ')' {
      assert Step(s, i, stack) == match CloseParen(stack)
                                  case Err(e) => Err(e)
                                  case Ok((rest, emitted)) => Ok(Move(i + 1, rest, emitted));
      if d > 0 {
        CloseBalance(stack);
      }
    } else {
      var k := PopBoundary(stack, Precedence(c));
      assert Step(s, i, stack) == Ok(Move(i + 1, stack[..k] + [c], Popped(stack[k..])));
      OperatorBalance(stack, c);
    }
  }

  /** The ')' branch drops exactly one '(' and pushes nothing. */
  lemma CloseBalance(stack: seq<char>)
    requires ')' !in stack && Opens(stack) > 0
    ensures CloseParen(stack).Ok? && ')' !in CloseParen(stack).value.0
    ensures Opens(CloseParen(stack).value.0) + 1 == Opens(stack)
  {
    OpensNone(stack);
    CloseStepOutput(stack);
    var k := ParenBoundary(stack);
    NoParenAbove(stack);
    CloseParenAt(stack, k);
    OpensAround(stack, k);
  }

  /** Cutting the stack at its topmost '(' (index k - 1): the '(' entries are those below it,
      itself, and a function code below it adds none. */
  lemma OpensAround(stack: seq<char>, k: nat)
    requires 0 < k <= |stack| && stack[k - 1] == '(' && '(' !in stack[k..]
    ensures Opens(stack) == Opens(stack[..k - 1]) + 1
    ensures k > 1 && IsFunction(stack[k - 2]) ==> Opens(stack[..k - 2]) == Opens(stack[..k - 1])
  {
    var top := stack[k - 1..];
    assert stack == stack[..k - 1] + top;
    OpensAppend(stack[..k - 1], top);
    OpensTop(top);
    assert top[1..] == stack[k..];
    OpensNone(stack[k..]);
    if k > 1 && IsFunction(stack[k - 2]) {
      OpensBelow(stack, k - 1);
    }
  }

  /** Dropping entry m - 1 of the prefix stack[..m], when it is no '(', keeps the count. */
  lemma OpensBelow(stack: seq<char>, m: nat)
    requires 0 < m <= |stack| && stack[m - 1] != '('
    ensures Opens(stack[..m - 1]) == Opens(stack[..m])
  {
    OpensSnoc(stack[..m]);
    assert stack[..m][..m - 1] == stack[..m - 1];
  }

  lemma OpensTop(t: seq<char>)
    requires t != [] && t[0] == '('
    ensures Opens(t) == 1 + Opens(t[1..])
  {
  }

  /** Dropping the last entry, when it is no '(', keeps the count. */
  lemma OpensSnoc(t: seq<char>)
    requires t != [] && t[|t| - 1] != '('
    ensures Opens(t[..|t| - 1]) == Opens(t)
  {
    var last := t[|t| - 1];
    assert t == t[..|t| - 1] + [last];
    OpensAppend(t[..|t| - 1], [last]);
    assert [last][1..] == [];
  }

  /** The operator branch pops no '(' and pushes an operator. */
  lemma OperatorBalance(stack: seq<char>, c: char)
    requires ')' !in stack && IsOperator(c)
    ensures var k := PopBoundary(stack, Precedence(c));
            ')' !in stack[..k] + [c] && Opens(stack[..k] + [c]) == Opens(stack)
  {
    var k := PopBoundary(stack, Precedence(c));
    OperatorStepOutput(stack, c);
    PoppedAboveBoundary(stack, Precedence(c));
    assert stack == stack[..k] + stack[k..];
    OpensAppend(stack[..k], stack[k..]);
    OpensNone(stack[k..]);
    OpensAppend(stack[..k], [c]);
  }

  /** The rest of the loop from position i, over accepted characters, succeeds exactly when the
      text from i closes the groups whose '(' is on the stack and is balanced itself. */
  lemma {:induction false} ConvertBalanced(s: string, i: nat, stack: seq<char>, out: seq<Item>)
    requires i <= |s| && ')' !in stack
    requires forall k :: i <= k < |s| ==> IsAccepted(s[k])
    ensures Convert(s, i, stack, out).Ok? <==> BalancedFrom(s, i, Opens(stack))
    decreases |s| - i
  {
    if i == |s| {
      StepEnd(s, stack, out);
      OpensNone(stack);
    } else {
      ConvertStep(s, i, stack, out);
      BalancedStep(s, i, stack);
      if Step(s, i, stack).Ok? {
        var m := Step(s, i, stack).value;
        ConvertBalanced(s, m.next, m.stack, out + m.emitted);
      }
    }
  }

  /** On text made only of characters the converter has a branch for, infixToPostfix succeeds
      exactly when the parentheses are balanced, and otherwise fails with MismatchedParentheses:
      an unclosed '(' and an unopened ')' are both rejected. */
  lemma ToPostfixBalanced(s: string)
    requires forall k :: 0 <= k < |s| ==> IsAccepted(s[k])
    ensures ToPostfix(s).Ok? <==> BalancedFrom(s, 0, 0)
    ensures ToPostfix(s).Err? ==> ToPostfix(s).error == MismatchedParentheses
  {
    ConvertBalanced(s, 0, [], []);
    ConvertErrors(s, 0, [], []);
  }

  /** The output of infixToPostfix holds the number runs of its input, unchanged and in order,
      as its only lexemes, and holds no parenthesis. An input with a character the converter has
      no branch for is rejected, and the conversion fails only with mismatched parentheses or
      with the first such character. */
  lemma ToPostfixOutput(s: string)
    ensures ToPostfix(s).Ok? ==> Lexemes(ToPostfix(s).value) == Runs(s, 0) && ParenFree(ToPostfix(s).value)
    ensures (exists k :: 0 <= k < |s| && !IsAccepted(s[k])) ==> ToPostfix(s).Err?
    ensures ToPostfix(s).Err? ==>
              ToPostfix(s).error == MismatchedParentheses ||
              exists k :: 0 <= k < |s| && ToPostfix(s).error == InvalidCharacter(s[k]) && !IsAccepted(s[k]) &&
                          forall j :: 0 <= j < k ==> IsAccepted(s[j])
  {
    if ToPostfix(s).Ok? {
      ConvertOutput(s, 0, [], []);
      assert Lexemes([]) + Runs(s, 0) == Runs(s, 0);
    }
    ConvertErrors(s, 0, [], []);
  }
}
