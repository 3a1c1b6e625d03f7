/** The two java.lang.String operations the evaluator applies to the postfix string before it
    looks at any token (ScientificCalculator.java:173): trim(), and split("\\s+") on the trimmed
    text. */
module Text {

  /** The characters String.trim removes from both ends: everything up to and including ' '. */
  predicate IsTrimmed(c: char) {
    c <= ' '
  }

  /** The characters the regular expression \s matches. */
  predicate IsSpace(c: char) {
    c == ' ' || c == '\t' || c == '\n' || c == '\U{B}' || c == '\U{C}' || c == '\r'
  }

  /** String.trim's first loop: from st, step over the characters up to ' '. */
  function TrimFront(s: string, st: nat): (r: nat)
    requires st <= |s|
    ensures st <= r <= |s|
    ensures forall k :: st <= k < r ==> IsTrimmed(s[k])
    ensures r < |s| ==> !IsTrimmed(s[r])
    decreases |s| - st
  {
    if st < |s| && IsTrimmed(s[st]) then TrimFront(s, st + 1) else st
  }

  /** String.trim's second loop: shorten len while the character before it is up to ' ', never
      past st. */
  function TrimBack(s: string, st: nat, len: nat): (r: nat)
    requires st <= len <= |s|
    ensures st <= r <= len
    ensures forall k :: r <= k < len ==> IsTrimmed(s[k])
    ensures st < r ==> !IsTrimmed(s[r - 1])
    decreases len
  {
    if st < len && IsTrimmed(s[len - 1]) then TrimBack(s, st, len - 1) else len
  }

  /** String.trim: the substring between the two loops' ends. */
  function Trim(s: string): (r: string)
    ensures |r| <= |s|
    ensures r != [] ==> !IsTrimmed(r[0]) && !IsTrimmed(r[|r| - 1])
    ensures r == [] <==> forall k :: 0 <= k < |s| ==> IsTrimmed(s[k])
  {
    var st := TrimFront(s, 0);
    s[st..TrimBack(s, st, |s|)]
  }

  /** s[a..b] is what String.trim keeps of s: everything cut off is at most ' ', and the kept
      slice starts and ends with a character above ' ' (or is empty). */
  predicate TrimsTo(s: string, a: nat, b: nat) {
    a <= b <= |s| &&
    (forall k :: 0 <= k < a ==> IsTrimmed(s[k])) &&
    (forall k :: b <= k < |s| ==> IsTrimmed(s[k])) &&
    (a < b ==> !IsTrimmed(s[a]) && !IsTrimmed(s[b - 1]))
  }

  /** String.trim removes exactly the characters up to ' ' at both ends: it keeps some slice
      with that shape, and any slice with that shape is what it keeps. */
  lemma TrimSlice(s: string)
    ensures exists a: nat, b: nat :: TrimsTo(s, a, b) && Trim(s) == s[a..b]
  {
    var a := TrimFront(s, 0);
    var b := TrimBack(s, a, |s|);
    assert TrimsTo(s, a, b);
  }

  lemma TrimSpec(s: string, a: nat, b: nat)
    requires TrimsTo(s, a, b)
    ensures Trim(s) == s[a..b]
  {
    var st := TrimFront(s, 0);
    var len := TrimBack(s, st, |s|);
    if a < b {
      assert st == a;
      assert len == b;
    } else {
      assert st == |s|;
    }
  }

  /** Length of the word at the start of s: its longest prefix without a \s character. */
  function WordLength(s: string): (n: nat)
    ensures n <= |s|
    ensures forall k :: 0 <= k < n ==> !IsSpace(s[k])
    ensures n < |s| ==> IsSpace(s[n])
  {
    if s == [] || IsSpace(s[0]) then 0 else 1 + WordLength(s[1..])
  }

  /** The maximal runs of characters other than \s, in order. */
  function Words(s: string): (r: seq<string>)
    ensures forall w :: w in r ==> w != [] && forall k :: 0 <= k < |w| ==> !IsSpace(w[k])
    decreases |s|
  {
    if s == [] then []
    else if IsSpace(s[0]) then Words(s[1..])
    else
      var n := WordLength(s);
      [s[..n]] + Words(s[n..])
  }

  /** postfix.trim().split("\\s+"): after trim the text neither starts nor ends with a \s
      character, so the split yields exactly its words; the one exception is the empty text,
      which splits into a single empty token. */
  function Tokens(postfix: string): (r: seq<string>)
    ensures r != []
  {
    var t := Trim(postfix);
    if t == [] then [""]
    else
      var w := Words(t);
      assert w != [] by {
        assert !IsTrimmed(t[0]);
        assert !IsSpace(t[0]);
        assert 0 < WordLength(t);
      }
      w
  }

  /** A word with no \s character inside, followed by one space. */
  lemma {:induction false} WordsSpaced(w: string, rest: string)
    requires w != []
    requires forall k :: 0 <= k < |w| ==> !IsSpace(w[k])
    ensures Words(w + " " + rest) == [w] + Words(rest)
  {
    var s := w + " " + rest;
    var n := WordLength(s);
    assert n == |w| by {
      assert forall k :: 0 <= k < |w| ==> s[k] == w[k];
      assert s[|w|] == ' ';
      WordLengthUnique(s, |w|);
    }
    assert s[..n] == w;
    assert s[n..][1..] == rest;
  }

  lemma {:induction false} WordLengthUnique(s: string, m: nat)
    requires m <= |s|
    requires forall k :: 0 <= k < m ==> !IsSpace(s[k])
    requires m < |s| ==> IsSpace(s[m])
    ensures WordLength(s) == m
  {
    if m > 0 {
      assert forall k :: 0 <= k < m - 1 ==> s[1..][k] == s[k + 1];
      WordLengthUnique(s[1..], m - 1);
    }
  }

  /** Words written one after another, each followed by one space. */
  function Spaced(ws: seq<string>): string {
    if ws == [] then "" else ws[0] + " " + Spaced(ws[1..])
  }

  lemma {:induction false} SpacedSnoc(ws: seq<string>, w: string)
    ensures Spaced(ws + [w]) == Spaced(ws) + w + " "
  {
    if ws != [] {
      assert (ws + [w])[1..] == ws[1..] + [w];
      SpacedSnoc(ws[1..], w);
    } else {
      assert [w][1..] == [];
    }
  }

  /** A trailing space adds no word. */
  lemma {:induction false} WordsTrailingSpace(t: string)
    ensures Words(t + " ") == Words(t)
    decreases |t|
  {
    var s := t + " ";
    if t == [] {
      assert s[1..] == [];
    } else if IsSpace(t[0]) {
      assert s[1..] == t[1..] + " ";
      WordsTrailingSpace(t[1..]);
    } else {
      var n := WordLength(t);
      assert forall k :: 0 <= k < n ==> s[k] == t[k];
      WordLengthUnique(s, n);
      assert s[..n] == t[..n];
      assert s[n..] == t[n..] + " ";
      WordsTrailingSpace(t[n..]);
    }
  }

  /** Words of text written with single spaces are the words written. */
  lemma {:induction false} WordsOfSpaced(ws: seq<string>)
    requires forall i :: 0 <= i < |ws| ==> ws[i] != [] && forall k :: 0 <= k < |ws[i]| ==> !IsSpace(ws[i][k])
    ensures Words(Spaced(ws)) == ws
  {
    if ws != [] {
      WordsOfSpaced(ws[1..]);
      WordsSpaced(ws[0], Spaced(ws[1..]));
    }
  }

  /** Text that starts with a character above ' ' and ends in one followed by a single space
      trims to the text before that space. */
  lemma TrimSpaced(t: string)
    requires t != [] && !IsTrimmed(t[0]) && !IsTrimmed(t[|t| - 1])
    ensures Trim(t + " ") == t
  {
    var s := t + " ";
    assert s[0] == t[0] && s[|t| - 1] == t[|t| - 1] && s[|t|] == ' ';
    TrimSpec(s, 0, |t|);
    assert s[0..|t|] == t;
  }

  /** Text written with single spaces starts with its first word's first character, and ends with
      the last word and one space. */
  lemma SpacedEnds(ws: seq<string>) returns (t: string)
    requires ws != [] && ws[0] != [] && ws[|ws| - 1] != []
    ensures Spaced(ws) == t + " " && t != []
    ensures t[0] == ws[0][0] && t[|t| - 1] == ws[|ws| - 1][|ws[|ws| - 1]| - 1]
  {
    var init := ws[..|ws| - 1];
    var last := ws[|ws| - 1];
    assert ws == init + [last];
    SpacedSnoc(init, last);
    t := Spaced(init) + last;
    if init == [] {
      assert t == last;
    } else {
      assert Spaced(init) == init[0] + " " + Spaced(init[1..]);
      assert t[0] == Spaced(init)[0] == init[0][0];
    }
  }

  /** trim() followed by split("\s+") recovers the words of text written with single spaces,
      provided no word holds a character that trim() or \s would treat as blank; text with no
      words splits into the single empty token. */
  lemma TokensOfSpaced(ws: seq<string>)
    requires forall i :: 0 <= i < |ws| ==> ws[i] != [] && forall k :: 0 <= k < |ws[i]| ==> !IsTrimmed(ws[i][k])
    ensures Tokens(Spaced(ws)) == if ws == [] then [""] else ws
  {
    if ws != [] {
      var t := SpacedEnds(ws);
      TrimSpaced(t);
      forall i | 0 <= i < |ws|
        ensures ws[i] != [] && forall k :: 0 <= k < |ws[i]| ==> !IsSpace(ws[i][k])
      {
      }
      WordsOfSpaced(ws);
      WordsTrailingSpace(t);
    }
  }
}
