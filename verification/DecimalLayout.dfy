/** What a printed number looks like, character by character. */
module DecimalLayout {
  import opened Common
  import opened DecimalDigits
  import opened Decimal128
  import opened DecimalPrint
  import opened DecimalToString
  import opened DecimalSyntax
  import opened DecimalRoundTrip
  import opened DecimalGrammar
  import opened DecimalWindow

  // ---- decimal numbers as strings ----

  /** The number a string of digits stands for. */
  function NumberOf(s: string): int {
    if s == "" then 0 else NumberOf(s[..|s| - 1]) * 10 + (s[|s| - 1] as int - 48)
  }

  /** The usual way to write a number: digits, and no zero in front of others. */
  predicate Writes(s: string, c: nat) {
    AllDigits(s) && (|s| > 1 ==> s[0] != '0') && NumberOf(s) == c
  }

  lemma OneMore(front: string, last: char)
    requires '0' <= last <= '9'
    ensures Digits(front + [last]) == Digits(front) + [DigitOf(last)]
    ensures NumberOf(front + [last]) == NumberOf(front) * 10 + (last as int - 48)
    ensures DigitOf(last) == last as int - 48 && DigitChar(DigitOf(last)) == last
  {
    assert (front + [last])[..|front|] == front;
  }

  lemma OneMoreDigit(ds: seq<Digit>, d: Digit)
    ensures Text(ds + [d]) == Text(ds) + [DigitChar(d)] && Value(ds + [d]) == Value(ds) * 10 + d
  {
    assert (ds + [d])[..|ds|] == ds;
  }

  lemma {:induction false} DigitsWritten(s: string)
    requires s == "" || AllDigits(s)
    ensures Text(Digits(s)) == s && Value(Digits(s)) == NumberOf(s)
    ensures |Digits(s)| == |s| && (s != "" ==> Digits(s)[0] == s[0] as int - 48)
  {
    if s == "" {
      assert Digits("") == [] && Text([]) == "" && Value([]) == 0;
    } else {
      hide Digits, Text, Value, NumberOf, DigitOf;
      var front, last := s[..|s| - 1], s[|s| - 1];
      DigitsWritten(front);
      assert s == front + [last];
      OneMore(front, last);
      OneMoreDigit(Digits(front), DigitOf(last));
    }
  }

  /** There is only one such way, and it is how digits are printed. */
  lemma OnlyOneWay(s: string, c: nat)
    requires Writes(s, c)
    ensures Text(Shortest(c)) == s && |Shortest(c)| == |s|
  {
    DigitsWritten(s);
    ShortestIsUnique(Digits(s));
  }

  predicate AllZeros(z: string) {
    forall i :: 0 <= i < |z| ==> z[i] == '0'
  }

  lemma {:induction false} TextOfZeros(z: string)
    requires AllZeros(z)
    ensures Text(Zeros(|z|)) == z
  {
    if z != "" {
      TextOfZeros(z[..|z| - 1]);
      assert z == z[..|z| - 1] + ['0'];
      assert Zeros(|z|)[..|z| - 1] == Zeros(|z| - 1);
    }
  }

  // ---- the layouts ----

  function Abs(x: int): nat {
    if x < 0 then 0 - x else x
  }

  lemma TextParts(ds: seq<Digit>, k: nat)
    requires k <= |ds|
    ensures Text(ds[..k]) == Text(ds)[..k] && Text(ds[k..]) == Text(ds)[k..]
  {
    hide Text;
    TextAppend(ds[..k], ds[k..]);
    assert ds[..k] + ds[k..] == ds;
  }

  lemma SignedTextIs(adjusted: int, x: string)
    requires Writes(x, Abs(adjusted))
    ensures SignedText(adjusted) == (if adjusted < 0 then "-" else "+") + x
  {
    OnlyOneWay(x, Abs(adjusted));
    hide Text, Shortest, Writes;
  }

  /** One digit, a point and the others if there are any, and the exponent with its sign. */
  function Exponential(s: string, adjusted: int, x: string): string
    requires s != ""
  {
    var mantissa := s[..1] + (if |s| > 1 then "." + s[1..] else "");
    mantissa + ("E" + ((if adjusted < 0 then "-" else "+") + x))
  }

  lemma ScientificText(ds: seq<Digit>, exponent: int, s: string, x: string)
    requires ds != [] && Text(ds) == s
    requires var adjusted := |ds| - 1 + exponent; Writes(x, Abs(adjusted))
    ensures s != "" && Scientific(ds, exponent) == Exponential(s, |s| - 1 + exponent, x)
  {
    hide Text, Writes, SignedText;
    var adjusted := |ds| - 1 + exponent;
    SignedTextIs(adjusted, x);
    TextParts(ds, 1);
    var signed := SignedText(adjusted);
    if |ds| > 1 {
      var mantissa := Text(ds[..1]) + ("." + Text(ds[1..]));
      assert mantissa + "E" + signed == mantissa + ("E" + signed);
    } else {
      var mantissa := Text(ds[..1]) + "";
      assert mantissa + "E" + signed == mantissa + ("E" + signed);
    }
  }

  lemma FractionalText(ds: seq<Digit>, exponent: int, s: string, z: string)
    requires exponent < 0 && ds != [] && Text(ds) == s && AllZeros(z)
    requires |s| + exponent <= 0 ==> |z| == 0 - (|s| + exponent)
    ensures |s| == |ds|
    ensures Fractional(ds, exponent)
         == if |s| + exponent > 0 then s[..|s| + exponent] + "." + s[|s| + exponent..] else "0." + z + s
  {
    hide Text, Zeros, AllZeros;
    var radix := |ds| + exponent;
    if radix > 0 {
      TextParts(ds, radix);
    } else {
      TextOfZeros(z);
      TextParts(ds, 0);
    }
  }

  /** A significand of 2^113 or more is printed as zero, any other one as it is. */
  function Shown(d: Bits): nat {
    if RawCoefficient(d) < 0x2_0000_0000_0000_0000_0000_0000_0000 then RawCoefficient(d) else 0
  }

  lemma ShownDigits(d: Bits, s: string)
    requires Combination(d) < 30 && Writes(s, Shown(d))
    ensures Text(PrintedDigits(d)) == s && |PrintedDigits(d)| == |s| <= 35
  {
    OnlyOneWay(s, Shown(d));
    DigitsOfPrinted(d);
  }

  /** Of 35 digits, a sign leaves only 34 in front of an exponent. */
  function Fitted(negative: bool, s: string): string {
    if negative && |s| > 34 then s[..34] else s
  }

  function Behind(s: string, e: int, z: string): string
    requires e < 0
  {
    if |s| + e > 0 then s[..|s| + e] + "." + s[|s| + e..] else "0." + z + s
  }

  /**
   * Every finite number, in terms of the string `s` of its significand, the string `x` of its adjusted exponent and the
   * zeros `z` that are needed behind a point.
   */
  lemma PrintedText(d: Bits, e: int, s: string, x: string, z: string)
    requires Combination(d) < 30 && e == BiasedExponent(d) - EXPONENT_BIAS
    requires Writes(s, Shown(d)) && s != "" && Writes(x, Abs(|s| - 1 + e)) && AllZeros(z)
    requires |s| + e <= 0 ==> |z| == 0 - (|s| + e)
    ensures Printed(d) == (if Negative(d) then "-" else "") +
              (if |s| - 1 + e < -6 || e > 0 then Exponential(Fitted(Negative(d), s), |s| - 1 + e, x)
               else if e == 0 then s
               else Behind(s, e, z))
  {
    hide Text, Shortest, Scientific, Fractional, RawCoefficient, BiasedExponent;
    hide PrintedDigits, Writes, Shown, Exponential;
    ShownDigits(d, s);
    var ds := PrintedDigits(d);
    var fitting := Fitting(Negative(d), ds);
    TextParts(ds, |fitting|);
    assert ds[..|ds|] == ds && s[..|s|] == s;
    if |s| - 1 + e < -6 || e > 0 {
      ScientificText(fitting, e + (|ds| - |fitting|), Fitted(Negative(d), s), x);
    } else if e < 0 {
      FractionalText(ds, e, s, z);
    }
  }

  /** There are such strings. */
  lemma Strings(d: Bits, e: int) returns (s: string, x: string, z: string)
    ensures Writes(s, Shown(d)) && s != "" && Writes(x, Abs(|s| - 1 + e)) && AllZeros(z)
    ensures |s| + e <= 0 ==> |z| == 0 - (|s| + e)
  {
    s := WritesText(Shown(d));
    x := WritesText(Abs(|s| - 1 + e));
    z := seq(if |s| + e <= 0 then 0 - (|s| + e) else 0, _ => '0');
  }

  lemma WritesText(c: nat) returns (s: string)
    ensures Writes(s, c) && s != ""
  {
    var ds := Shortest(c);
    s := Text(ds);
    TextAllDigits(ds);
    ValueOfShortest(c);
    DigitsOfText(ds);
    DigitsWritten(s);
    ShortestOfSmall(c);
    TextIsDigits(ds);
  }

  lemma ShortestOfSmall(c: nat)
    ensures |Shortest(c)| > 1 ==> c > 0
  {
  }

  // ---- how the layouts look ----

  lemma NoLetter(s: string)
    requires AllDigits(s) || AllZeros(s)
    ensures 'E' !in s && '.' !in s
  {
  }

  lemma LetterInExponential(s: string, adjusted: int, x: string)
    requires s != ""
    ensures 'E' in Exponential(s, adjusted, x)
  {
    var mantissa := s[..1] + (if |s| > 1 then "." + s[1..] else "");
    var tail := "E" + ((if adjusted < 0 then "-" else "+") + x);
    assert tail[0] == 'E';
    assert 'E' in tail;
  }

  lemma NoLetterBehind(s: string, e: int, z: string)
    requires e < 0 && AllDigits(s) && AllZeros(z)
    ensures 'E' !in Behind(s, e, z)
  {
    NoLetter(s);
    NoLetter(z);
    hide AllDigits, AllZeros;
    if |s| + e > 0 {
      assert s == s[..|s| + e] + s[|s| + e..];
    }
  }

  /**
   * An exponent is printed exactly when the adjusted exponent, that of the first digit, is below -6, or the exponent is
   * positive.
   */
  lemma ExponentIsPrinted(d: Bits, e: int, s: string)
    requires Combination(d) < 30 && e == BiasedExponent(d) - EXPONENT_BIAS && Writes(s, Shown(d))
    ensures 'E' in Printed(d) <==> |s| - 1 + e < -6 || e > 0
  {
    var s1, x, z := Strings(d, e);
    OnlyOneWay(s, Shown(d));
    OnlyOneWay(s1, Shown(d));
    hide NumberOf, BiasedExponent, RawCoefficient, Printed, Text, Shortest, Shown, Exponential, Behind, Fitted;
    PrintedText(d, e, s, x, z);
    NoLetter(s);
    FittedIsText(Negative(d), s);
    LetterInExponential(Fitted(Negative(d), s), |s| - 1 + e, x);
    if e < 0 {
      NoLetterBehind(s, e, z);
    }
  }

  lemma FittedIsText(negative: bool, s: string)
    requires s != ""
    ensures Fitted(negative, s) != ""
  {
  }

  function SignWidth(d: Bits): nat {
    if Negative(d) then 1 else 0
  }

  /** With exponent zero no exponent is printed, and there are only digits behind the sign. */
  lemma IntegerLook(d: Bits)
    requires Combination(d) < 30 && BiasedExponent(d) == 6176
    ensures 'E' !in Printed(d) && |Printed(d)| > SignWidth(d) && AllDigits(Printed(d)[SignWidth(d)..])
  {
    var s, x, z := Strings(d, 0);
    ExponentIsPrinted(d, 0, s);
    hide NumberOf, BiasedExponent, RawCoefficient, Printed, Text, Shortest, Shown, Exponential;
    PrintedText(d, 0, s, x, z);
    assert Printed(d)[SignWidth(d)..] == s;
  }

  /** A point at `k`, with as many digits behind it, and digits in front of it: a single zero, or none to begin with. */
  predicate PointAt(t: string, k: nat, behind: nat) {
    && 0 < k < |t| && t[k] == '.' && |t| - 1 - k == behind
    && (forall i :: 0 <= i < |t| && i != k ==> '0' <= t[i] <= '9')
    && (k > 1 ==> t[0] != '0')
  }

  lemma BehindLook(s: string, c: nat, e: int, z: string)
    requires e < 0 && Writes(s, c) && AllZeros(z) && (|s| + e <= 0 ==> |z| == 0 - (|s| + e))
    ensures PointAt(Behind(s, e, z), if |s| + e > 0 then |s| + e else 1, 0 - e)
  {
    hide NumberOf;
    var t := Behind(s, e, z);
    if |s| + e > 0 {
      var k := |s| + e;
      assert forall i :: 0 <= i < k ==> t[i] == s[i];
      assert forall i :: k < i < |t| ==> t[i] == s[i - 1];
    } else {
      assert forall i :: 2 <= i < 2 + |z| ==> t[i] == z[i - 2];
      assert forall i :: 2 + |z| <= i < |t| ==> t[i] == s[i - 2 - |z|];
    }
  }

  /** With a negative exponent that is not printed there is one point, and so many digits behind it. */
  lemma PointLook(d: Bits, e: int) returns (k: nat)
    requires Combination(d) < 30 && e == BiasedExponent(d) - EXPONENT_BIAS && e < 0 && 'E' !in Printed(d)
    ensures |Printed(d)| > SignWidth(d) && PointAt(Printed(d)[SignWidth(d)..], k, 0 - e)
  {
    var s, x, z := Strings(d, e);
    k := if |s| + e > 0 then |s| + e else 1;
    ExponentIsPrinted(d, e, s);
    BehindLook(s, Shown(d), e, z);
    hide NumberOf, BiasedExponent, RawCoefficient, Printed, Text, Shortest, Shown, Exponential, Behind, PointAt;
    PrintedText(d, e, s, x, z);
    assert Printed(d)[SignWidth(d)..] == Behind(s, e, z);
  }

  /** The other encodings are printed as words. */
  lemma PrintedWords(d: Bits)
    requires Combination(d) >= 30
    ensures Printed(d) == "Infinity" || Printed(d) == "-Infinity" || Printed(d) == "NaN"
    ensures Printed(d) == "Infinity" <==> Combination(d) == 30 && !Negative(d)
    ensures Printed(d) == "-Infinity" <==> Combination(d) == 30 && Negative(d)
    ensures Printed(d) == "NaN" <==> Combination(d) == 31
  {
    assert "" + "Infinity" == "Infinity" && "-" + "Infinity" == "-Infinity";
    assert "NaN"[0] != "Infinity"[0] && "NaN"[0] != "-Infinity"[0] && "Infinity"[0] != "-Infinity"[0];
  }

  /** The limits, as numbers. */
  lemma Limits()
    ensures TEN_34 == Pow10(34) && TWO_113 == 0x2_0000_0000_0000_0000_0000_0000_0000 && MAX_DIGITS == 34
    ensures EXPONENT_MIN == -6176 && EXPONENT_MAX == 6111 && EXPONENT_BIAS == 6176 && STRING_SIZE == 43
  {
    Pow10Of34();
  }
}
