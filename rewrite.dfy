/** The name rewriting at the start of evaluateExpression (ScientificCalculator.java:77-83): six
    String.replaceAll calls, in a fixed order, turn sin, cos, tan, log, ln and sqrt into the
    one-character codes s, c, t, g, l and q. The patterns hold no regular-expression operators,
    so each call is a literal, leftmost, non-overlapping replacement. */
module Rewrite {
  import opened Symbols

  /** String.replaceAll with a literal pattern: scan from the left, replace each occurrence and go
      on after it. A replacement no longer than the pattern never lengthens the text. */
  function ReplaceAll(s: string, pattern: string, replacement: string): (r: string)
    requires pattern != []
    ensures |replacement| <= |pattern| ==> |r| <= |s|
    decreases |s|
  {
    if s == [] then []
    else if pattern <= s then replacement + ReplaceAll(s[|pattern|..], pattern, replacement)
    else [s[0]] + ReplaceAll(s[1..], pattern, replacement)
  }

  /** Text in which the pattern's first character never occurs comes back unchanged. */
  lemma {:induction false} ReplaceAbsent(s: string, pattern: string, replacement: string)
    requires pattern != []
    ensures (forall k :: 0 <= k < |s| ==> s[k] != pattern[0]) ==> ReplaceAll(s, pattern, replacement) == s
    decreases |s|
  {
    if s != [] && forall k :: 0 <= k < |s| ==> s[k] != pattern[0] {
      assert s[0] != pattern[0];
      assert !(pattern <= s);
      assert forall k :: 0 <= k < |s[1..]| ==> s[1..][k] == s[k + 1];
      ReplaceAbsent(s[1..], pattern, replacement);
      assert [s[0]] + s[1..] == s;
    }
  }

  /** The six names in the order they are rewritten. */
  datatype Name = Sin | Cos | Tan | Log | Ln | Sqrt

  /** The position of a name's replaceAll call in the chain, from 1 to 6. */
  function Pass(n: Name): (p: nat)
    ensures 1 <= p <= 6
  {
    match n
    case Sin => 1
    case Cos => 2
    case Tan => 3
    case Log => 4
    case Ln => 5
    case Sqrt => 6
  }

  function Spelling(n: Name): string {
    match n
    case Sin => "sin"
    case Cos => "cos"
    case Tan => "tan"
    case Log => "log"
    case Ln => "ln"
    case Sqrt => "sqrt"
  }

  function Code(n: Name): (c: char)
    ensures IsFunction(c)
  {
    match n
    case Sin => 's'
    case Cos => 'c'
    case Tan => 't'
    case Log => 'g'
    case Ln => 'l'
    case Sqrt => 'q'
  }

  /** evaluateExpression's rewriting chain: every replacement is shorter than its name, so the
      text never grows. */
  function RewriteNames(expression: string): (r: string)
    ensures |r| <= |expression|
  {
    var e1 := ReplaceAll(expression, "sin", "s");
    var e2 := ReplaceAll(e1, "cos", "c");
    var e3 := ReplaceAll(e2, "tan", "t");
    var e4 := ReplaceAll(e3, "log", "g");
    var e5 := ReplaceAll(e4, "ln", "l");
    ReplaceAll(e5, "sqrt", "q")
  }

  /** Text without the letters the six names start with (s, c, t, l) passes the chain unchanged;
      in particular every text typed without a function key does. */
  lemma RewriteNamesAbsent(expression: string)
    requires forall k :: 0 <= k < |expression| ==> expression[k] !in "sctl"
    ensures RewriteNames(expression) == expression
  {
    ReplaceAbsent(expression, "sin", "s");
    ReplaceAbsent(expression, "cos", "c");
    ReplaceAbsent(expression, "tan", "t");
    ReplaceAbsent(expression, "log", "g");
    ReplaceAbsent(expression, "ln", "l");
    ReplaceAbsent(expression, "sqrt", "q");
  }

  /** The call that handles a name. */
  function Rewrite(n: Name, s: string): string {
    ReplaceAll(s, Spelling(n), [Code(n)])
  }

  /** The input comes from the calculator's buttons: each press appends one button label. */
  datatype Key = Press(c: char) | Function(name: Name)

  /** The one-character buttons: digits, '.', parentheses and the five operators. */
  predicate IsButton(c: char) {
    IsDigit(c) || c == '.' || c == '(' || c == ')' || IsOperator(c)
  }

  predicate ValidKeys(ks: seq<Key>) {
    forall i :: 0 <= i < |ks| ==> ks[i].Press? ==> IsButton(ks[i].c)
  }

  /** What a key contributes to the text after the first `stage` calls of the chain. */
  function KeyText(k: Key, stage: nat): string {
    match k
    case Press(c) => [c]
    case Function(n) => if Pass(n) <= stage then [Code(n)] else Spelling(n)
  }

  /** The text typed with keys ks, after the first `stage` calls of the chain. */
  function Typed(ks: seq<Key>, stage: nat): string {
    if ks == [] then "" else KeyText(ks[0], stage) + Typed(ks[1..], stage)
  }

  /** A character of each name that, before the name's own call, occurs in the text only at one
      fixed offset inside that name's own spelling: no button and no other name (spelled or
      already coded) holds it. */
  function Marker(n: Name): (m: (char, nat))
    ensures m.1 < |Spelling(n)| && Spelling(n)[m.1] == m.0
    ensures forall k :: 0 <= k < |Spelling(n)| && k != m.1 ==> Spelling(n)[k] != m.0
  {
    match n
    case Sin => ('i', 1)
    case Cos => ('c', 0)
    case Tan => ('a', 1)
    case Log => ('g', 2)
    case Ln => ('n', 1)
    case Sqrt => ('q', 1)
  }

  /** A key's text just before a name's call. */
  function TextBefore(k: Key, n: Name): string {
    KeyText(k, Pass(n) - 1)
  }

  /** Before a name's call, only that name's own key shows its spelling, and no other key holds
      its marker; the call leaves every other key's text as it was. */
  lemma MarkerAbsent(k: Key, n: Name)
    requires k.Press? ==> IsButton(k.c)
    ensures TextBefore(k, n) == Spelling(n) <==> k == Function(n)
    ensures k != Function(n) ==> forall q :: 0 <= q < |TextBefore(k, n)| ==> TextBefore(k, n)[q] != Marker(n).0
    ensures k != Function(n) ==> KeyText(k, Pass(n)) == TextBefore(k, n)
  {
    match k
    case Press(c) =>
    case Function(f) =>
      if f != n {
        var t := TextBefore(k, n);
        forall q | 0 <= q < |t| ensures t[q] != Marker(n).0 {
          assert t[q] in t;
        }
      }
  }

  /** A replacement scan that finds no occurrence starting inside A copies A unchanged. */
  lemma {:induction false} CopyPrefix(a: string, b: string, pattern: string, replacement: string)
    requires pattern != []
    requires forall i :: 0 <= i < |a| ==> !(pattern <= (a + b)[i..])
    ensures ReplaceAll(a + b, pattern, replacement) == a + ReplaceAll(b, pattern, replacement)
  {
    if a != [] {
      assert !(pattern <= (a + b)[0..]);
      assert (a + b)[0..] == a + b;
      assert (a + b)[1..] == a[1..] + b;
      forall i | 0 <= i < |a[1..]| ensures !(pattern <= (a[1..] + b)[i..]) {
        assert (a[1..] + b)[i..] == (a + b)[i + 1..];
      }
      CopyPrefix(a[1..], b, pattern, replacement);
    }
  }

  /** Before a name's call, its marker never appears closer to the start of the text than its
      offset inside the spelling. */
  lemma {:induction false} MarkerOffset(ks: seq<Key>, n: Name)
    requires ValidKeys(ks)
    ensures var text := Typed(ks, Pass(n) - 1);
            forall q :: 0 <= q < Marker(n).1 && q < |text| ==> text[q] != Marker(n).0
  {
    var j := Pass(n) - 1;
    var (m, t) := Marker(n);
    if ks != [] {
      var a := KeyText(ks[0], j);
      var rest := Typed(ks[1..], j);
      assert Typed(ks, j) == a + rest;
      MarkerAbsent(ks[0], n);
      ValidTail(ks);
      MarkerOffset(ks[1..], n);
      forall q | 0 <= q < t && q < |a + rest| ensures (a + rest)[q] != m {
        if q < |a| {
          assert (a + rest)[q] == a[q];
        } else {
          assert (a + rest)[q] == rest[q - |a|];
        }
      }
    }
  }

  lemma ValidTail(ks: seq<Key>)
    requires ValidKeys(ks) && ks != []
    ensures ValidKeys(ks[1..]) && (ks[0].Press? ==> IsButton(ks[0].c))
  {
    forall i | 0 <= i < |ks[1..]| ensures ks[1..][i].Press? ==> IsButton(ks[1..][i].c) {
      assert ks[1..][i] == ks[i + 1];
    }
  }

  /** No occurrence of a name's spelling starts inside the text of a key that is not that name:
      the text at the marker's offset from such a start is never the marker. */
  lemma NoStraddle(k: Key, ks: seq<Key>, n: Name, i: nat)
    requires k.Press? ==> IsButton(k.c)
    requires ValidKeys(ks)
    requires k != Function(n)
    requires i < |TextBefore(k, n)|
    ensures !(Spelling(n) <= (TextBefore(k, n) + Typed(ks, Pass(n) - 1))[i..])
  {
    var a := TextBefore(k, n);
    var rest := Typed(ks, Pass(n) - 1);
    var m := Marker(n).0;
    var t := Marker(n).1;
    var x := (a + rest)[i..];
    if t < |x| {
      MarkerAbsent(k, n);
      if i + t < |a| {
        assert x[t] == a[i + t];
      } else {
        MarkerOffset(ks, n);
        assert x[t] == rest[i + t - |a|];
      }
      assert x[t] != Spelling(n)[t];
    }
  }

  /** One call of the chain on typed text: it turns exactly the keys of its own name into the
      code, and leaves every other key as it was. */
  lemma {:induction false} RewriteStage(ks: seq<Key>, n: Name)
    requires ValidKeys(ks)
    ensures Rewrite(n, Typed(ks, Pass(n) - 1)) == Typed(ks, Pass(n))
  {
    var j := Pass(n) - 1;
    if ks != [] {
      var a := KeyText(ks[0], j);
      var rest := Typed(ks[1..], j);
      ValidTail(ks);
      RewriteStage(ks[1..], n);
      MarkerAbsent(ks[0], n);
      if ks[0] == Function(n) {
        assert Spelling(n) <= a + rest;
        assert (a + rest)[|Spelling(n)|..] == rest;
      } else {
        forall i | 0 <= i < |a| ensures !(Spelling(n) <= (a + rest)[i..]) {
          NoStraddle(ks[0], ks[1..], n, i);
        }
        CopyPrefix(a, rest, Spelling(n), [Code(n)]);
      }
    }
  }

  /** The whole chain on text typed with the buttons: every name becomes its code and nothing
      else changes. */
  lemma RewriteTyped(ks: seq<Key>)
    requires ValidKeys(ks)
    ensures RewriteNames(Typed(ks, 0)) == Typed(ks, 6)
  {
    var e1 := ReplaceAll(Typed(ks, 0), "sin", "s");
    assert e1 == Typed(ks, 1) by { RewriteStage(ks, Sin); }
    var e2 := ReplaceAll(e1, "cos", "c");
    assert e2 == Typed(ks, 2) by { RewriteStage(ks, Cos); }
    var e3 := ReplaceAll(e2, "tan", "t");
    assert e3 == Typed(ks, 3) by { RewriteStage(ks, Tan); }
    var e4 := ReplaceAll(e3, "log", "g");
    assert e4 == Typed(ks, 4) by { RewriteStage(ks, Log); }
    var e5 := ReplaceAll(e4, "ln", "l");
    assert e5 == Typed(ks, 5) by { RewriteStage(ks, Ln); }
    assert ReplaceAll(e5, "sqrt", "q") == Typed(ks, 6) by { RewriteStage(ks, Sqrt); }
  }
}
