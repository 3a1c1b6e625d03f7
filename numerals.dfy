/** Double.parseDouble (ScientificCalculator.java:178) on the decimal numerals it accepts: an
    optional sign, then digits with at most one '.', and at least one digit. The value is the
    exact rational the numeral denotes. */
module Numerals {
  import opened Failures
  import opened Symbols
  import opened Text

  function DigitValue(c: char): (d: nat)
    requires IsDigit(c)
    ensures d < 10
  {
    (c as int - '0' as int) as nat
  }

  predicate AllDigits(s: string) {
    forall k :: 0 <= k < |s| ==> IsDigit(s[k])
  }

  /** The value of a string of decimal digits, most significant first. */
  function DigitsValue(s: string): nat
    requires AllDigits(s)
  {
    if s == [] then 0 else DigitsValue(s[..|s| - 1]) * 10 + DigitValue(s[|s| - 1])
  }

  function Pow10(n: nat): (p: nat)
    ensures p >= 1
  {
    if n == 0 then 1 else 10 * Pow10(n - 1)
  }

  /** Index of the first '.' in s, or |s| when there is none. */
  function DotIndex(s: string): (n: nat)
    ensures n <= |s|
    ensures forall k :: 0 <= k < n ==> s[k] != '.'
    ensures n < |s| ==> s[n] == '.'
  {
    if s == [] || s[0] == '.' then 0 else 1 + DotIndex(s[1..])
  }

  /** An unsigned decimal numeral: digits, optionally one '.' followed by more digits, with at
      least one digit in all. */
  function Unsigned(s: string): (r: Option<real>)
    ensures r.Some? ==> s != [] && r.value >= 0.0
  {
    var d := DotIndex(s);
    var whole := s[..d];
    var fraction := if d < |s| then s[d + 1..] else "";
    if AllDigits(whole) && AllDigits(fraction) && |whole| + |fraction| > 0 then
      Some(DigitsValue(whole) as real + Fraction(DigitsValue(fraction), |fraction|))
    else None
  }

  /** The value of the digits after the point, read as an integer: that integer over ten to the
      number of digits, which is never negative. */
  function Fraction(digits: nat, places: nat): (q: real)
    ensures q >= 0.0
  {
    var scale := Pow10(places) as real;
    assert (digits as real / scale) * scale == digits as real;
    digits as real / scale
  }

  /** Double.parseDouble on the decimal forms: surrounding characters up to ' ' are ignored, as
      trim() ignores them, and a leading '+' or '-' gives the sign. */
  function ParseDouble(token: string): (r: Option<real>)
    ensures r.Some? ==> Trim(token) != []
    ensures r.Some? && r.value < 0.0 ==> Trim(token)[0] == '-'
  {
    var t := Trim(token);
    if t != [] && (t[0] == '-' || t[0] == '+') then
      match Unsigned(t[1..])
      case None => None
      case Some(v) => Some(if t[0] == '-' then -v else v)
    else Unsigned(t)
  }

  /** The shape Double.parseDouble accepts, stated without reference to how the value is
      computed: only digits and '.', no more than one '.', at least one digit. */
  predicate IsDecimal(s: string) {
    (forall k :: 0 <= k < |s| ==> IsNumberChar(s[k])) &&
    multiset(s)['.'] <= 1 &&
    exists k :: 0 <= k < |s| && IsDigit(s[k])
  }

  lemma {:induction false} NoDotCount(s: string)
    requires forall k :: 0 <= k < |s| ==> s[k] != '.'
    ensures multiset(s)['.'] == 0
  {
    if s != [] {
      assert s == [s[0]] + s[1..];
      NoDotCount(s[1..]);
    }
  }

  /** Splitting a numeral at its first '.' into the whole part, the '.' and the fraction. */
  lemma DotSplit(s: string)
    requires DotIndex(s) < |s|
    ensures var d := DotIndex(s);
            s == s[..d] + ['.'] + s[d + 1..] &&
            multiset(s)['.'] == 1 + multiset(s[d + 1..])['.']
  {
    var d := DotIndex(s);
    assert s == s[..d] + ['.'] + s[d + 1..];
    NoDotCount(s[..d]);
  }

  /** What Unsigned accepts has the decimal shape. */
  lemma UnsignedSound(s: string)
    requires Unsigned(s).Some?
    ensures IsDecimal(s)
  {
    var d := DotIndex(s);
    var whole := s[..d];
    var fraction := if d < |s| then s[d + 1..] else "";
    forall k | 0 <= k < |s| ensures IsNumberChar(s[k]) {
      if k < d {
        assert s[k] == whole[k];
      } else if k > d {
        assert s[k] == fraction[k - d - 1];
      }
    }
    if d < |s| {
      DotSplit(s);
      NoDotCount(fraction);
    } else {
      assert s == whole;
      NoDotCount(s);
    }
    if |whole| > 0 {
      assert IsDigit(s[0]);
    } else {
      assert IsDigit(s[d + 1]);
    }
  }

  /** In a numeral of the decimal shape, the part after the '.' holds only digits. */
  lemma FractionDigits(s: string)
    requires IsDecimal(s) && DotIndex(s) < |s|
    ensures AllDigits(s[DotIndex(s) + 1..])
  {
    var d := DotIndex(s);
    var fraction := s[d + 1..];
    DotSplit(s);
    forall k | 0 <= k < |fraction| ensures IsDigit(fraction[k]) {
      assert fraction[k] == s[d + 1 + k];
      assert fraction[k] in multiset(fraction);
    }
  }

  /** What has the decimal shape, Unsigned accepts. */
  lemma UnsignedComplete(s: string)
    requires IsDecimal(s)
    ensures Unsigned(s).Some?
  {
    var d := DotIndex(s);
    var whole := s[..d];
    var fraction := if d < |s| then s[d + 1..] else "";
    assert AllDigits(whole) by {
      forall k | 0 <= k < |whole| ensures IsDigit(whole[k]) {
        assert whole[k] == s[k];
      }
    }
    if d < |s| {
      FractionDigits(s);
    }
    var k :| 0 <= k < |s| && IsDigit(s[k]);
    assert |whole| + |fraction| > 0 by {
      if k >= d {
        assert k > d && d < |s|;
      }
    }
  }

  /** A numeral is parsed exactly when it has the decimal shape. */
  lemma UnsignedAccepts(s: string)
    ensures Unsigned(s).Some? <==> IsDecimal(s)
  {
    if Unsigned(s).Some? {
      UnsignedSound(s);
    }
    if IsDecimal(s) {
      UnsignedComplete(s);
    }
  }

  lemma DigitsTrimmed(s: string)
    requires s != [] && AllDigits(s)
    ensures Trim(s) == s
  {
    assert TrimsTo(s, 0, |s|);
    TrimSpec(s, 0, |s|);
    assert s[0..|s|] == s;
  }

  lemma DigitsNoDot(s: string)
    requires AllDigits(s)
    ensures DotIndex(s) == |s|
  {
  }

  /** The decimal text of a natural number, most significant digit first. */
  function NatText(n: nat): (s: string)
    ensures s != [] && AllDigits(s)
  {
    var digit := ['0' + (n % 10) as char];
    if n < 10 then digit else NatText(n / 10) + digit
  }

  /** Reading the digits back gives the number they were printed from. */
  lemma {:induction false} NatTextValue(n: nat)
    ensures DigitsValue(NatText(n)) == n
  {
    var s := NatText(n);
    if n >= 10 {
      NatTextValue(n / 10);
      assert s[..|s| - 1] == NatText(n / 10);
    }
  }

  /** Round trip: Double.parseDouble reads a printed whole number back exactly. */
  lemma ParseNatText(n: nat)
    ensures ParseDouble(NatText(n)) == Some(n as real)
  {
    var s := NatText(n);
    ParseDigits(s);
    NatTextValue(n);
  }

  /** A run of digits parses as the number it spells. */
  lemma ParseDigits(s: string)
    requires s != [] && AllDigits(s)
    ensures ParseDouble(s) == Some(DigitsValue(s) as real)
  {
    DigitsTrimmed(s);
    assert s[0] != '-' && s[0] != '+';
    UnsignedDigits(s);
  }

  lemma UnsignedDigits(s: string)
    requires s != [] && AllDigits(s)
    ensures Unsigned(s) == Some(DigitsValue(s) as real)
  {
    DigitsNoDot(s);
    assert s[..|s|] == s;
    assert AllDigits("") && DigitsValue("") == 0;
    var q := Fraction(0, 0);
    assert q == 0.0 / 1.0;
    assert Unsigned(s) == Some(DigitsValue(s) as real + q);
  }
}
