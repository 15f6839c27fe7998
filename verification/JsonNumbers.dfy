/** JSON numbers of native/json.cpp, kept as text: the longest number at the start of a text,
  * the texts that Json::number accepts, and the number grammar of RFC 8259, section 6. */
module JsonNumbers {
  import opened Wrappers
  import opened JsonStandard

  predicate IsDigit(c: char) {
    '0' <= c <= '9'
  }

  predicate StartsWith(s: string, c: char) {
    |s| > 0 && s[0] == c
  }

  predicate StartsDigit(s: string) {
    |s| > 0 && IsDigit(s[0])
  }

  function AfterDigits(s: string): string {
    if StartsDigit(s) then AfterDigits(s[1..]) else s
  }

  /** What follows the integer part, if there is a valid one. */
  function AfterInt(s: string): Option<string> {
    if s == "" then None
    else if s[0] == '0' then (if StartsDigit(s[1..]) then None else Some(s[1..]))
    else if '1' <= s[0] <= '9' then Some(AfterDigits(s))
    else None
  }

  function AfterFraction(s: string): Option<string> {
    if !StartsWith(s, '.') then Some(s)
    else if StartsDigit(s[1..]) then Some(AfterDigits(s[1..])) else None
  }

  function AfterSign(s: string): string {
    if StartsWith(s, '+') || StartsWith(s, '-') then s[1..] else s
  }

  function AfterExponent(s: string): Option<string> {
    if !StartsWith(s, 'e') && !StartsWith(s, 'E') then Some(s)
    else if StartsDigit(AfterSign(s[1..])) then Some(AfterDigits(AfterSign(s[1..]))) else None
  }

  function AfterMinus(s: string): string {
    if StartsWith(s, '-') then s[1..] else s
  }

  /** The text after the longest number at the start of s; None if there is no valid one. */
  function AfterNumber(s: string): Option<string> {
    var whole := AfterInt(AfterMinus(s));
    if whole.None? then None
    else
      var fraction := AfterFraction(whole.value);
      if fraction.None? then None else AfterExponent(fraction.value)
  }

  predicate IsSuffix(r: string, s: string) {
    |r| <= |s| && s[|s| - |r|..] == r
  }

  /** The part of s in front of its suffix r. */
  function Front(s: string, r: string): string
    requires |r| <= |s|
  {
    s[..|s| - |r|]
  }

  lemma SuffixTrans(a: string, b: string, c: string)
    requires IsSuffix(a, b) && IsSuffix(b, c)
    ensures IsSuffix(a, c)
    ensures Front(c, a) == Front(c, b) + Front(b, a)
  {}

  lemma FrontAndSuffix(s: string, r: string)
    requires IsSuffix(r, s)
    ensures s == Front(s, r) + r
  {}

  lemma TailIsSuffix(s: string)
    requires s != ""
    ensures IsSuffix(s[1..], s) && Front(s, s[1..]) == [s[0]]
  {}

  lemma {:induction false} DigitsSuffix(s: string)
    ensures IsSuffix(AfterDigits(s), s) && !StartsDigit(AfterDigits(s))
    ensures AllDigits(Front(s, AfterDigits(s)))
    ensures StartsDigit(s) ==> |AfterDigits(s)| < |s| && Front(s, AfterDigits(s))[0] == s[0]
    decreases |s|
  {
    hide IsSuffix;
    if StartsDigit(s) {
      DigitsSuffix(s[1..]);
      TailIsSuffix(s);
      SuffixTrans(AfterDigits(s), s[1..], s);
      SuffixLength(AfterDigits(s), s[1..]);
    } else {
      SuffixSelf(s);
    }
  }

  lemma SuffixSelf(s: string)
    ensures IsSuffix(s, s) && Front(s, s) == ""
  {}

  lemma SuffixLength(r: string, s: string)
    requires IsSuffix(r, s)
    ensures |r| <= |s|
  {}

  lemma IntSuffix(s: string)
    requires AfterInt(s).Some?
    ensures var r := AfterInt(s).value; IsSuffix(r, s) && |r| < |s| && IsInt(Front(s, r))
  {
    DigitsSuffix(s);
    TailIsSuffix(s);
  }

  lemma FractionSuffix(s: string)
    requires AfterFraction(s).Some?
    ensures var r := AfterFraction(s).value; IsSuffix(r, s) && IsFraction(Front(s, r))
  {
    SuffixSelf(s);
    if StartsWith(s, '.') {
      DigitsSuffix(s[1..]);
      TailIsSuffix(s);
      SuffixTrans(AfterFraction(s).value, s[1..], s);
      assert Front(s, AfterFraction(s).value)[1..] == Front(s[1..], AfterFraction(s).value);
    }
  }

  lemma ExponentSuffix(s: string)
    requires AfterExponent(s).Some?
    ensures var r := AfterExponent(s).value; IsSuffix(r, s) && IsExponent(Front(s, r))
  {
    SuffixSelf(s);
    if StartsWith(s, 'e') || StartsWith(s, 'E') {
      var r := AfterExponent(s).value;
      DigitsSuffix(AfterSign(s[1..]));
      TailIsSuffix(s);
      if AfterSign(s[1..]) == s[1..] {
        SuffixTrans(r, s[1..], s);
        assert Front(s, r)[1..] == Front(s[1..], r);
      } else {
        TailIsSuffix(s[1..]);
        SuffixTrans(r, s[1..][1..], s[1..]);
        SuffixTrans(r, s[1..], s);
        assert Front(s, r)[2..] == Front(s[1..][1..], r);
      }
    }
  }

  lemma MinusSuffix(s: string)
    ensures IsSuffix(AfterMinus(s), s) && (Front(s, AfterMinus(s)) == "" || Front(s, AfterMinus(s)) == "-")
  {}

  /** What is cut off is a number of the standard. */
  lemma NumberSuffix(s: string)
    requires AfterNumber(s).Some?
    ensures var r := AfterNumber(s).value; IsSuffix(r, s) && |r| < |s| && IsRfcNumber(Front(s, r))
  {
    hide IsSuffix, Front, IsInt, IsFraction, IsExponent, AfterInt, AfterFraction, AfterExponent;
    var t := AfterMinus(s);
    var whole := AfterInt(t).value;
    var fraction := AfterFraction(whole).value;
    var r := AfterExponent(fraction).value;
    MinusSuffix(s);
    IntSuffix(t);
    FractionSuffix(whole);
    ExponentSuffix(fraction);
    SuffixTrans(whole, t, s);
    SuffixTrans(fraction, whole, s);
    SuffixTrans(r, fraction, s);
    SuffixLength(t, s);
    SuffixLength(whole, t);
    SuffixLength(fraction, whole);
    SuffixLength(r, fraction);
    assert Front(s, r) == Front(s, t) + Front(t, whole) + Front(whole, fraction) + Front(fraction, r);
  }

  /** The texts that Json::number accepts: a number and nothing else. */
  predicate AcceptedNumber(text: string) {
    AfterNumber(text) == Some("")
  }

  /** Text that cannot continue a number. */
  predicate EndsNumber(rest: string) {
    rest == "" || (!IsDigit(rest[0]) && rest[0] !in {'.', 'e', 'E'})
  }

  lemma TailAppend(s: string, rest: string)
    requires s != ""
    ensures (s + rest)[1..] == s[1..] + rest && (s + rest)[0] == s[0]
  {}

  lemma {:induction false} DigitsAppend(s: string, rest: string)
    requires !StartsDigit(rest)
    ensures AfterDigits(s + rest) == AfterDigits(s) + rest
    decreases |s|
  {
    if s == "" {
      assert s + rest == rest;
    } else {
      TailAppend(s, rest);
      if StartsDigit(s) {
        DigitsAppend(s[1..], rest);
      }
    }
  }

  /** Appending text after a number does not change the number, if the text cannot continue it. */
  lemma NumberAppend(s: string, rest: string)
    requires AfterNumber(s).Some? && EndsNumber(rest)
    ensures AfterNumber(s + rest) == Some(AfterNumber(s).value + rest)
  {
    hide AfterInt, AfterFraction, AfterExponent;
    var whole := AfterInt(AfterMinus(s)).value;
    MinusAppend(s, rest);
    IntAppend(AfterMinus(s), rest);
    FractionAppend(whole, rest);
    ExponentAppend(AfterFraction(whole).value, rest);
  }

  lemma MinusAppend(s: string, rest: string)
    requires AfterInt(AfterMinus(s)).Some?
    ensures AfterMinus(s + rest) == AfterMinus(s) + rest
  {
    TailAppend(s, rest);
  }

  lemma IntAppend(t: string, rest: string)
    requires AfterInt(t).Some? && !StartsDigit(rest)
    ensures AfterInt(t + rest) == Some(AfterInt(t).value + rest)
  {
    TailAppend(t, rest);
    DigitsAppend(t, rest);
  }

  lemma FractionAppend(t: string, rest: string)
    requires AfterFraction(t).Some? && !StartsDigit(rest) && !StartsWith(rest, '.')
    ensures AfterFraction(t + rest) == Some(AfterFraction(t).value + rest)
  {
    if StartsWith(t, '.') {
      TailAppend(t, rest);
      TailAppend(t[1..], rest);
      DigitsAppend(t[1..], rest);
    } else if t != "" {
      TailAppend(t, rest);
    } else {
      assert t + rest == rest;
    }
  }

  lemma SignAppend(t: string, rest: string)
    requires t != "" || !(StartsWith(rest, '+') || StartsWith(rest, '-'))
    ensures AfterSign(t + rest) == AfterSign(t) + rest
  {
    if t != "" {
      TailAppend(t, rest);
    } else {
      assert t + rest == rest;
    }
  }

  lemma ExponentAppend(t: string, rest: string)
    requires AfterExponent(t).Some? && EndsNumber(rest)
    ensures AfterExponent(t + rest) == Some(AfterExponent(t).value + rest)
  {
    if StartsWith(t, 'e') || StartsWith(t, 'E') {
      TailAppend(t, rest);
      SignAppend(t[1..], rest);
      TailAppend(AfterSign(t[1..]), rest);
      DigitsAppend(AfterSign(t[1..]), rest);
    } else if t != "" {
      TailAppend(t, rest);
    } else {
      assert t + rest == rest;
    }
  }

  // ---------------------------------------------------------------- RFC 8259, section 6

  predicate AllDigits(s: string) {
    forall i :: 0 <= i < |s| ==> IsDigitChar(s[i])
  }

  predicate IsInt(s: string) {
    s == "0" || (|s| > 0 && 0x31 <= s[0] as int <= 0x39 && AllDigits(s))
  }

  predicate IsFraction(s: string) {
    s == "" || (|s| > 1 && s[0] == '.' && AllDigits(s[1..]))
  }

  predicate IsExponent(s: string) {
    s == "" || (|s| > 1 && (s[0] == 'e' || s[0] == 'E') && (AllDigits(s[1..]) || (|s| > 2 && (s[1] == '+' || s[1] == '-') && AllDigits(s[2..]))))
  }

  /** number = [ minus ] int [ frac ] [ exp ] */
  ghost predicate IsRfcNumber(text: string) {
    exists minus: string, whole: string, fraction: string, exponent: string ::
      && text == minus + whole + fraction + exponent
      && (minus == "" || minus == "-") && IsInt(whole) && IsFraction(fraction) && IsExponent(exponent)
  }

  lemma {:induction false} AllDigitsTaken(s: string)
    requires AllDigits(s)
    ensures AfterDigits(s) == ""
    decreases |s|
  {
    if s != "" {
      AllDigitsTaken(s[1..]);
    }
  }

  /** A digit string in front of other text is what gets cut off. */
  lemma DigitsThen(s: string, rest: string)
    requires AllDigits(s) && !StartsDigit(rest)
    ensures AfterDigits(s + rest) == rest
  {
    AllDigitsTaken(s);
    DigitsAppend(s, rest);
  }

  lemma IntThen(whole: string, rest: string)
    requires IsInt(whole) && !StartsDigit(rest)
    ensures AfterInt(whole + rest) == Some(rest)
  {
    TailAppend(whole, rest);
    if whole == "0" {
      assert whole[1..] + rest == rest;
    } else {
      DigitsThen(whole, rest);
    }
  }

  lemma FractionThen(fraction: string, rest: string)
    requires IsFraction(fraction) && !StartsDigit(rest) && !StartsWith(rest, '.')
    ensures AfterFraction(fraction + rest) == Some(rest)
  {
    if fraction == "" {
      assert fraction + rest == rest;
    } else {
      TailAppend(fraction, rest);
      TailAppend(fraction[1..], rest);
      DigitsThen(fraction[1..], rest);
    }
  }

  lemma ExponentThen(exponent: string)
    requires IsExponent(exponent)
    ensures AfterExponent(exponent) == Some("")
  {
    if exponent != "" {
      var digits := AfterSign(exponent[1..]);
      assert exponent[1..][1..] == exponent[2..];
      assert AllDigits(digits) && digits != "";
      AllDigitsTaken(digits);
    }
  }

  /** The number check accepts exactly the numbers of the standard. */
  lemma AcceptedIsRfc(text: string)
    ensures AcceptedNumber(text) <==> IsRfcNumber(text)
  {
    hide AfterNumber;
    if AcceptedNumber(text) {
      NumberSuffix(text);
    }
    if IsRfcNumber(text) {
      var minus: string, whole: string, fraction: string, exponent: string :|
        && text == minus + whole + fraction + exponent
        && (minus == "" || minus == "-") && IsInt(whole) && IsFraction(fraction) && IsExponent(exponent);
      PartsAreAccepted(minus, whole, fraction, exponent);
    }
  }

  lemma PartsAreAccepted(minus: string, whole: string, fraction: string, exponent: string)
    requires (minus == "" || minus == "-") && IsInt(whole) && IsFraction(fraction) && IsExponent(exponent)
    ensures AcceptedNumber(minus + whole + fraction + exponent)
  {
    hide AfterInt, AfterFraction, AfterExponent, AfterMinus;
    var text := minus + whole + fraction + exponent;
    assert text == minus + (whole + (fraction + exponent));
    assert AfterMinus(text) == whole + (fraction + exponent) by {
      MinusThen(minus, whole + (fraction + exponent));
    }
    StartOfFraction(fraction, exponent);
    IntThen(whole, fraction + exponent);
    FractionThen(fraction, exponent);
    ExponentThen(exponent);
  }

  lemma MinusThen(minus: string, rest: string)
    requires (minus == "" || minus == "-") && rest != "" && rest[0] != '-'
    ensures AfterMinus(minus + rest) == rest
  {
    if minus == "" {
      assert minus + rest == rest;
    }
  }

  lemma StartOfFraction(fraction: string, exponent: string)
    requires IsFraction(fraction) && IsExponent(exponent)
    ensures !StartsDigit(fraction + exponent) && !StartsDigit(exponent) && !StartsWith(exponent, '.')
  {
    if fraction == "" {
      assert fraction + exponent == exponent;
    } else {
      TailAppend(fraction, exponent);
    }
  }
}
